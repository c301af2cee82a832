/**
 * Decoding examples: concrete messages and what the parser makes of them.
 */
module WireExamples {
  import opened Wrappers
  import opened PhpString
  import opened HeaderArray
  import opened Wire

  /** The text of the first decoding example is a frame `getFrame` would write. */
  lemma ConnectedExampleText(h: HeaderMap)
    requires h == [("version", "1.2")]
    ensures "CONNECTED\nversion:1.2\n\n\0\n" == Encode("CONNECTED", h, None)
  {
    EncodeParts("CONNECTED", h, None);
    var hp := HeaderPieces(h);
    assert hp == [HeaderLine(h[0]) + LF];
    assert Concat(hp) == HeaderLine(h[0]) + LF + Concat([]);
    assert HeaderLine(h[0]) == "version:1.2";
  }

  /** The first example of a decoded frame: a CONNECTED frame with no body. */
  lemma ParseConnectedExample(message: string)
    requires message == "CONNECTED\nversion:1.2\n\n\0\n"
    ensures Parse(message) == Ok(Parsed("CONNECTED", [("version", "1.2")], None))
  {
    var h: HeaderMap := [("version", "1.2")];
    ConnectedExampleText(h);
    ServerCommandSolid("CONNECTED");
    ParseEncode("CONNECTED", h, None);
  }

  /** The text of the second decoding example, line by line, is a frame `getFrame` would write. */
  lemma MessageExampleText(h: HeaderMap)
    requires h == [("destination", "/queue/a"), ("message-id", "5")]
    ensures "MESSAGE\n" + "destination:/queue/a\n" + "message-id:5\n" + "\n" + "hello\0\n"
         == Encode("MESSAGE", h, Some("hello"))
  {
    EncodeParts("MESSAGE", h, Some("hello"));
    MessageExamplePieces(h);
    assert BodyText(Some("hello")) + NULL == "hello\0\n";
  }

  /** The header lines of the second decoding example, each with its terminator. */
  lemma MessageExamplePieces(h: HeaderMap)
    requires h == [("destination", "/queue/a"), ("message-id", "5")]
    ensures Concat(HeaderPieces(h)) == "destination:/queue/a\n" + "message-id:5\n"
  {
    var hp := HeaderPieces(h);
    assert hp == [HeaderLine(h[0]) + LF, HeaderLine(h[1]) + LF];
    assert hp[1..] == [HeaderLine(h[1]) + LF] && hp[1..][1..] == [];
    assert Concat(hp) == HeaderLine(h[0]) + LF + (HeaderLine(h[1]) + LF + Concat([]));
    assert HeaderLine(h[0]) + LF == "destination:/queue/a\n";
    assert HeaderLine(h[1]) + LF == "message-id:5\n";
  }

  /** The second example: a MESSAGE frame with two headers and a body. */
  lemma ParseMessageExample(message: string)
    requires message == "MESSAGE\n" + "destination:/queue/a\n" + "message-id:5\n" + "\n" + "hello\0\n"
    ensures Parse(message)
         == Ok(Parsed("MESSAGE", [("destination", "/queue/a"), ("message-id", "5")], Some("hello")))
  {
    var h: HeaderMap := [("destination", "/queue/a"), ("message-id", "5")];
    MessageExampleReadable(h);
    MessageExampleText(h);
    assert SERVER_COMMANDS[2] == "MESSAGE";
    ParseEncode("MESSAGE", h, Some("hello"));
  }

  /** The second example is a frame the parser reads back exactly. */
  lemma MessageExampleReadable(h: HeaderMap)
    requires h == [("destination", "/queue/a"), ("message-id", "5")]
    ensures Readable("MESSAGE", h, Some("hello"))
  {
    ServerCommandSolid("MESSAGE");
    assert WireSafe(h[0]) && WireSafe(h[1]);
    assert EndsSolid("hello");
  }

  /** A header value keeps its colons: only the first colon separates name and value. */
  lemma SplitHeaderExample(line: string)
    requires line == "timestamp:2024-01-01T00:00:00"
    ensures SplitHeader(line) == ("timestamp", "2024-01-01T00:00:00")
  {
    var e := ("timestamp", "2024-01-01T00:00:00");
    assert HeaderLine(e) == line;
    SplitHeaderLine(e);
  }

  /** The empty message and the two sentinels are rejected as empty. */
  lemma ParseEmptyExamples()
    ensures Parse("") == Err(EmptyMessage)
    ensures Parse("0") == Err(EmptyMessage)
    ensures Parse(LF) == Err(EmptyMessage)
    ensures Parse(NULL) == Err(EmptyMessage)
  {
  }
}
