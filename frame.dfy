/**
 * The frame builder and parser `Stomp\Frame`: a command, an ordered header array and a nullable
 * body that setters and per-command getters update in place, the text each getter writes, and the
 * parser for frames sent by a server.
 */
module Stomp {
  import opened Wrappers
  import opened PhpString
  import opened HeaderArray
  import opened Wire

  /** The headers every new builder starts with. */
  const DEFAULT_HEADERS: HeaderMap := [("accept-version", VERSIONS), ("heart-beat", "0,0")]

  /** `$this->command . LF` concatenates an unset command as the empty string. */
  function CommandText(command: Option<string>): string {
    command.GetOr("")
  }

  /** `$outgoing . ',' . $incoming` for integer arguments. */
  function HeartBeat(outgoing: int, incoming: int): string {
    IntToString(outgoing) + "," + IntToString(incoming)
  }

  /** The entry `getFrame` merges for a body: its length in octets, in decimal. */
  function ContentLength(body: string): Header {
    ("content-length", NatToString(|body|))
  }

  /** The builder's headers once `getFrame` has run: `content-length` merged in when there is a body. */
  function AfterFrame(headers: HeaderMap, body: Option<string>): HeaderMap {
    if body.Some? then Merge(headers, [ContentLength(body.value)]) else headers
  }

  // ---------------------------------------------------------------------------------------------
  // Properties of the header rules

  /** Merging a single entry is assigning it. */
  lemma MergeSingle(h: HeaderMap, e: Header)
    ensures Merge(h, [e]) == Put(h, e.0, e.1)
  {
    assert [e][..0] == [];
  }

  /** Assigning a name an array lacks appends the entry. */
  lemma PutNew(h: HeaderMap, k: string, v: string)
    requires !HasKey(h, k)
    ensures Put(h, k, v) == h + [(k, v)]
  {
    var r := Put(h, k, v);
    assert forall i :: 0 <= i < |h| ==> r[i] == h[i];
  }

  /**
   * After a frame with a body the builder's headers record that body's length in octets, in a
   * form that reads back as the same number.
   */
  lemma ContentLengthRecorded(h: HeaderMap, body: string)
    ensures Get(AfterFrame(h, Some(body)), "content-length") == Some(NatToString(|body|))
    ensures DecimalValue(NatToString(|body|)) == |body|
  {
    MergeSingle(h, ContentLength(body));
    PutGet(h, "content-length", NatToString(|body|), "content-length");
    DecimalRoundTrip(|body|);
  }

  /**
   * `getFrame` changes no header but `content-length`; that one keeps its position when it was
   * present and is appended otherwise.
   */
  lemma AfterFrameOthers(h: HeaderMap, body: Option<string>, k: string)
    ensures k != "content-length" ==> Get(AfterFrame(h, body), k) == Get(h, k)
    ensures Keys(AfterFrame(h, body))
         == if body.None? || HasKey(h, "content-length") then Keys(h) else Keys(h) + ["content-length"]
  {
    if body.Some? {
      var e := ContentLength(body.value);
      MergeSingle(h, e);
      PutGet(h, e.0, e.1, k);
      PutKeys(h, e.0, e.1);
    }
  }

  /**
   * Once one frame has been written, writing another with the same body leaves the headers as
   * they are, so the same getter without a header reset writes the same text again; with a null
   * body the headers never change.
   */
  lemma AfterFrameStable(h: HeaderMap, body: Option<string>)
    ensures AfterFrame(AfterFrame(h, body), body) == AfterFrame(h, body)
    ensures body.None? ==> AfterFrame(h, body) == h
  {
    if body.Some? {
      var e := ContentLength(body.value);
      MergeSingle(h, e);
      MergeSingle(Put(h, e.0, e.1), e);
      PutIdempotent(h, e.0, e.1);
    }
  }

  /**
   * The frame being written carries no `content-length` line unless the headers already held one:
   * the entry is merged only after the header lines have been emitted.
   */
  lemma FrameLacksContentLength(command: string, h: HeaderMap, body: Option<string>)
    requires '\n' !in command
    requires forall i :: 0 <= i < |h| ==> WireSafe(h[i])
    requires !HasKey(h, "content-length")
    ensures var lines := Explode('\n', Encode(command, h, body));
      && |lines| >= |h| + 3
      && lines[0] == command
      && lines[1..|h| + 1] == HeaderLines(h)
      && lines[|h| + 1] == ""
      && forall j :: 1 <= j <= |h| ==> SplitHeader(lines[j]).0 != "content-length"
  {
    EncodeLinesAnyBody(command, h, body);
    var lines := Explode('\n', Encode(command, h, body));
    assert lines[1..|h| + 1] == HeaderLines(h);
    forall j | 1 <= j <= |h| ensures SplitHeader(lines[j]).0 != "content-length" {
      assert lines[j] == HeaderLine(h[j - 1]);
      SplitHeaderLine(h[j - 1]);
      assert h[j - 1].0 != "content-length";
    }
  }

  /** The entry `getFrame` adds is safe to write as a header line. */
  lemma ContentLengthWireSafe(body: string)
    ensures WireSafe(ContentLength(body))
  {
    var v := NatToString(|body|);
    assert forall i :: 0 <= i < |v| ==> v[i] != '\n';
    var k := "content-length";
    assert forall i :: 0 <= i < |k| ==> k[i] != ':' && k[i] != '\n';
  }

  /** The headers after a frame can still be written one line each. */
  lemma AfterFrameLineSafe(h: HeaderMap, body: Option<string>)
    requires forall i :: 0 <= i < |h| ==> LineSafe(h[i])
    ensures var h' := AfterFrame(h, body);
      forall i :: 0 <= i < |h'| ==> LineSafe(h'[i])
  {
    if body.Some? {
      var e := ContentLength(body.value);
      MergeSingle(h, e);
      ContentLengthWireSafe(body.value);
    }
  }

  /** Line `1 + j` of a frame is the line of header `j`, whatever the body. */
  lemma LineOfHeader(command: string, h: HeaderMap, body: Option<string>, j: nat)
    requires '\n' !in command
    requires forall i :: 0 <= i < |h| ==> LineSafe(h[i])
    requires j < |h|
    ensures var lines := Explode('\n', Encode(command, h, body));
      1 + j < |lines| && lines[1 + j] == HeaderLine(h[j])
  {
    EncodeLinesAnyBody(command, h, body);
  }

  /**
   * The next frame written from the same builder does carry the previous body's length: the
   * header line at the position `content-length` holds reads back as that entry, whatever the
   * next body is.
   */
  lemma NextFrameCarriesContentLength(command: string, h: HeaderMap, body: string, next: Option<string>)
    requires '\n' !in command
    requires forall i :: 0 <= i < |h| ==> LineSafe(h[i])
    ensures var h' := AfterFrame(h, Some(body));
      var lines := Explode('\n', Encode(command, h', next));
      var j := Find(h', "content-length");
      && j < |h'| && 1 + j < |lines|
      && SplitHeader(lines[1 + j]) == ("content-length", NatToString(|body|))
  {
    var e := ContentLength(body);
    var h' := AfterFrame(h, Some(body));
    var j := Find(h', e.0);
    assert j < |h'| && h'[j] == e by {
      MergeSingle(h, e);
      var at := if HasKey(h, e.0) then Find(h, e.0) else |h|;
      assert h'[at] == e;
      FindAt(h', at);
    }
    AfterFrameLineSafe(h, Some(body));
    LineOfHeader(command, h', next, j);
    ContentLengthWireSafe(body);
    SplitHeaderLine(e);
  }

  /** `setLogin` records both credentials and changes no other header. */
  lemma LoginRecorded(h: HeaderMap, login: string, passcode: string, k: string)
    ensures var add := [("login", login), ("passcode", passcode)];
      && Get(Merge(h, add), "login") == Some(login)
      && Get(Merge(h, add), "passcode") == Some(passcode)
      && (k != "login" && k != "passcode" ==> Get(Merge(h, add), k) == Get(h, k))
  {
    var add := [("login", login), ("passcode", passcode)];
    assert add[..1] == [("login", login)];
    MergeSingle(h, add[0]);
    var h1 := Put(h, "login", login);
    assert Merge(h, add) == Put(h1, "passcode", passcode);
    PutGet(h, "login", login, "login");
    PutGet(h, "login", login, k);
    PutGet(h1, "passcode", passcode, "login");
    PutGet(h1, "passcode", passcode, "passcode");
    PutGet(h1, "passcode", passcode, k);
  }

  /**
   * `setHeartBeat(o, i)` writes `"o,i"`: two comma-separated fields, the text of each argument,
   * which `IntToStringValue` reads back as that argument.
   */
  lemma HeartBeatFields(outgoing: int, incoming: int)
    ensures Explode(',', HeartBeat(outgoing, incoming)) == [IntToString(outgoing), IntToString(incoming)]
  {
    var a, b := IntToString(outgoing), IntToString(incoming);
    assert HeartBeat(outgoing, incoming) == a + [','] + b;
    IntTextNoComma(outgoing);
    IntTextNoComma(incoming);
    ExplodeAround(',', a, b);
    ExplodeNoSeparator(',', a);
    ExplodeNoSeparator(',', b);
  }

  /** The text of an integer holds no comma. */
  lemma IntTextNoComma(i: int)
    ensures ',' !in IntToString(i)
  {
    IntToStringValue(i);
    var r := IntToString(i);
    forall k | 0 <= k < |r| ensures r[k] != ',' {
      if i < 0 && k > 0 {
        assert r[k] == r[1..][k - 1];
      }
    }
  }

  /** A heart-beat set on the default headers overwrites the default in place. */
  lemma HeartBeatOverDefaults(outgoing: int, incoming: int)
    ensures Merge(DEFAULT_HEADERS, [("heart-beat", HeartBeat(outgoing, incoming))])
         == [("accept-version", VERSIONS), ("heart-beat", HeartBeat(outgoing, incoming))]
    ensures HeartBeat(0, 0) == DEFAULT_HEADERS[1].1
  {
    var v := HeartBeat(outgoing, incoming);
    MergeSingle(DEFAULT_HEADERS, ("heart-beat", v));
    assert DEFAULT_HEADERS[1].0 == "heart-beat";
    assert HasKey(DEFAULT_HEADERS, "heart-beat");
  }

  /** The commands the builder writes. */
  predicate ClientCommand(command: string) {
    || command == COMMAND_CONNECT || command == COMMAND_SEND || command == COMMAND_SUBSCRIBE
    || command == COMMAND_UNSUBSCRIBE || command == COMMAND_ACK || command == COMMAND_NACK
    || command == COMMAND_BEGIN || command == COMMAND_COMMIT || command == COMMAND_ABORT
    || command == COMMAND_DISCONNECT
  }

  /** `parser` refuses every frame the builder writes: none of its commands is a server command. */
  lemma ParserRefusesClientFrames(command: string, h: HeaderMap, body: Option<string>)
    requires ClientCommand(command)
    ensures Parse(Encode(command, h, body)) == Err(IllegalCommand(Encode(command, h, body)))
  {
    assert SolidCommand(command) && command !in SERVER_COMMANDS;
    ParseRejects(command, h, body);
  }

  // ---------------------------------------------------------------------------------------------
  // The builder

  class Frame {
    /** Unset (None) until a getter names the command. */
    var command: Option<string>
    /** An ordered header array: names are distinct by type. */
    var headers: HeaderMap
    var body: Option<string>

    /** A builder with the default headers and the given body; the event argument is unused. */
    constructor(body: Option<string> := None)
      ensures command == None && headers == DEFAULT_HEADERS && this.body == body
    {
      command := None;
      headers := DEFAULT_HEADERS;
      this.body := body;
    }

    /** `setHeaders`: an empty array keeps the headers, any other array replaces them. */
    method SetHeaders(h: HeaderMap)
      modifies this
      ensures headers == if h == [] then old(headers) else h
      ensures command == old(command) && body == old(body)
    {
      if h != [] {
        headers := h;
      }
    }

    /** `addHeaders`: `array_merge` of the current headers and `add`. */
    method AddHeaders(add: HeaderMap)
      modifies this
      ensures headers == Merge(old(headers), add)
      ensures command == old(command) && body == old(body)
    {
      headers := Merge(headers, add);
    }

    method SetLogin(login: string := "", passcode: string := "")
      modifies this
      ensures headers == Merge(old(headers), [("login", login), ("passcode", passcode)])
      ensures command == old(command) && body == old(body)
    {
      AddHeaders([("login", login), ("passcode", passcode)]);
    }

    method SetHeartBeat(outgoing: int := 0, incoming: int := 0)
      modifies this
      ensures headers == Merge(old(headers), [("heart-beat", HeartBeat(outgoing, incoming))])
      ensures command == old(command) && body == old(body)
    {
      AddHeaders([("heart-beat", HeartBeat(outgoing, incoming))]);
    }

    method SetBody(body: Option<string> := Some(""))
      modifies this
      ensures this.body == body
      ensures command == old(command) && headers == old(headers)
    {
      this.body := body;
    }

    /**
     * `getFrame`: the command line, one line per header in order, a blank line, the body when it
     * is not null, and the NUL terminator; then `content-length` is merged into the headers.
     */
    method GetFrame() returns (frame: string)
      modifies this
      ensures frame == Encode(CommandText(old(command)), old(headers), old(body))
      ensures headers == AfterFrame(old(headers), old(body))
      ensures command == old(command) && body == old(body)
    {
      var lines := [CommandText(command) + LF];
      var current := headers;
      var i := 0;
      while i < |current|
        invariant 0 <= i <= |current|
        invariant lines == [CommandText(command) + LF] + HeaderPieces(current[..i])
      {
        assert HeaderPieces(current[..i + 1]) == HeaderPieces(current[..i]) + [HeaderLine(current[i]) + LF];
        lines := lines + [current[i].0 + ":" + current[i].1 + LF];
        i := i + 1;
      }
      assert current[..i] == current;
      lines := lines + [LF];
      if body.Some? {
        AddHeaders([ContentLength(body.value)]);
        lines := lines + [body.value];
      }
      lines := lines + [NULL];
      assert lines == FramePieces(CommandText(old(command)), old(headers), old(body));
      frame := Concat(lines);
    }

    method GetConnect() returns (frame: string)
      modifies this
      ensures command == Some(COMMAND_CONNECT)
      ensures frame == Encode(COMMAND_CONNECT, old(headers), body)
      ensures headers == AfterFrame(old(headers), body) && body == old(body)
    {
      command := Some(COMMAND_CONNECT);
      frame := GetFrame();
    }

    /** SUBSCRIBE replaces the headers with exactly `id`, `ack` and `destination`, in that order. */
    method GetSubscribe(destination: string := "", id: string := "0", ackType: string := "auto")
      returns (frame: string)
      modifies this
      ensures command == Some(COMMAND_SUBSCRIBE)
      ensures frame == Encode(COMMAND_SUBSCRIBE, [("id", id), ("ack", ackType), ("destination", destination)], body)
      ensures headers == AfterFrame([("id", id), ("ack", ackType), ("destination", destination)], body)
      ensures body == old(body)
    {
      command := Some(COMMAND_SUBSCRIBE);
      SetHeaders([("id", id), ("ack", ackType), ("destination", destination)]);
      frame := GetFrame();
    }

    /** UNSUBSCRIBE replaces the headers with exactly `id`. */
    method GetUnSubscribe(id: string := "0") returns (frame: string)
      modifies this
      ensures command == Some(COMMAND_UNSUBSCRIBE)
      ensures frame == Encode(COMMAND_UNSUBSCRIBE, [("id", id)], body)
      ensures headers == AfterFrame([("id", id)], body) && body == old(body)
    {
      command := Some(COMMAND_UNSUBSCRIBE);
      SetHeaders([("id", id)]);
      frame := GetFrame();
    }

    /** ACK replaces the headers with `id`, followed by `transaction` when one is given. */
    method GetAck(id: string := "0", transaction: Option<string> := None) returns (frame: string)
      modifies this
      ensures command == Some(COMMAND_ACK)
      ensures frame == Encode(COMMAND_ACK, AckHeaders(id, transaction), body)
      ensures headers == AfterFrame(AckHeaders(id, transaction), body) && body == old(body)
    {
      command := Some(COMMAND_ACK);
      SetHeaders([("id", id)]);
      if transaction.Some? {
        AddHeaders([("transaction", transaction.value)]);
        AckHeadersMerge(id, transaction.value);
      }
      frame := GetFrame();
    }

    /** NACK takes the same headers as ACK. */
    method GetNack(id: string := "0", transaction: Option<string> := None) returns (frame: string)
      modifies this
      ensures command == Some(COMMAND_NACK)
      ensures frame == Encode(COMMAND_NACK, AckHeaders(id, transaction), body)
      ensures headers == AfterFrame(AckHeaders(id, transaction), body) && body == old(body)
    {
      command := Some(COMMAND_NACK);
      SetHeaders([("id", id)]);
      if transaction.Some? {
        AddHeaders([("transaction", transaction.value)]);
        AckHeadersMerge(id, transaction.value);
      }
      frame := GetFrame();
    }

    /**
     * SEND replaces the headers with `destination`, followed by `content-type` when the content
     * type is truthy; a given body replaces the builder's body, otherwise the old body is sent.
     */
    method GetSend(destination: string, body: Option<string> := None, contentType: string := "text/plain")
      returns (frame: string)
      modifies this
      ensures command == Some(COMMAND_SEND)
      ensures this.body == if body.Some? then body else old(this.body)
      ensures frame == Encode(COMMAND_SEND, SendHeaders(destination, contentType), this.body)
      ensures headers == AfterFrame(SendHeaders(destination, contentType), this.body)
    {
      command := Some(COMMAND_SEND);
      SetHeaders([("destination", destination)]);
      if Truthy(contentType) {
        AddHeaders([("content-type", contentType)]);
        SendHeadersMerge(destination, contentType);
      }
      if body.Some? {
        this.body := body;
      }
      frame := GetFrame();
    }

    /** BEGIN keeps the headers without a transaction, and replaces them with it otherwise. */
    method GetBegin(transaction: Option<string> := None) returns (frame: string)
      modifies this
      ensures command == Some(COMMAND_BEGIN)
      ensures frame == Encode(COMMAND_BEGIN, Replaced(old(headers), "transaction", transaction), body)
      ensures headers == AfterFrame(Replaced(old(headers), "transaction", transaction), body)
      ensures body == old(body)
    {
      command := Some(COMMAND_BEGIN);
      if transaction.Some? {
        SetHeaders([("transaction", transaction.value)]);
      }
      frame := GetFrame();
    }

    method GetCommit(transaction: Option<string> := None) returns (frame: string)
      modifies this
      ensures command == Some(COMMAND_COMMIT)
      ensures frame == Encode(COMMAND_COMMIT, Replaced(old(headers), "transaction", transaction), body)
      ensures headers == AfterFrame(Replaced(old(headers), "transaction", transaction), body)
      ensures body == old(body)
    {
      command := Some(COMMAND_COMMIT);
      if transaction.Some? {
        SetHeaders([("transaction", transaction.value)]);
      }
      frame := GetFrame();
    }

    method GetAbort(transaction: Option<string> := None) returns (frame: string)
      modifies this
      ensures command == Some(COMMAND_ABORT)
      ensures frame == Encode(COMMAND_ABORT, Replaced(old(headers), "transaction", transaction), body)
      ensures headers == AfterFrame(Replaced(old(headers), "transaction", transaction), body)
      ensures body == old(body)
    {
      command := Some(COMMAND_ABORT);
      if transaction.Some? {
        SetHeaders([("transaction", transaction.value)]);
      }
      frame := GetFrame();
    }

    /** DISCONNECT keeps the headers without a receipt, and replaces them with it otherwise. */
    method GetDisconnect(receipt: Option<string> := None) returns (frame: string)
      modifies this
      ensures command == Some(COMMAND_DISCONNECT)
      ensures frame == Encode(COMMAND_DISCONNECT, Replaced(old(headers), "receipt", receipt), body)
      ensures headers == AfterFrame(Replaced(old(headers), "receipt", receipt), body)
      ensures body == old(body)
    {
      command := Some(COMMAND_DISCONNECT);
      if receipt.Some? {
        SetHeaders([("receipt", receipt.value)]);
      }
      frame := GetFrame();
    }

    /**
     * `parser`: rejects an empty or sentinel message, trims it, splits it into lines, checks the
     * command, reads header lines up to the first falsy one and takes the next line as the body.
     */
    method Parser(message: string) returns (r: Result<Parsed, ParseError>)
      ensures r == Parse(message)
    {
      if IsEmptyOrSentinel(message) {
        return Err(EmptyMessage);
      }
      var lines := Explode('\n', Trim(message));
      var command := Trim(lines[0]);
      if command !in SERVER_COMMANDS {
        return Err(IllegalCommand(message));
      }
      var headers: HeaderMap := [];
      var i := 1;
      while i < |lines| && Truthy(lines[i])
        invariant 1 <= i <= |lines|
        invariant HeaderBlockEnd(lines, i) == HeaderBlockEnd(lines, 1)
        invariant headers == HeadersRead(lines, i)
        decreases |lines| - i
      {
        var e := SplitHeader(lines[i]);
        headers := Put(headers, e.0, e.1);
        i := i + 1;
      }
      HeadersReadBlock(lines, i);
      ParseAccepted(message, lines, i);
      i := i + 1;
      var body: Option<string> := None;
      if i < |lines| {
        body := Some(TrimRight(lines[i], {'\0', '\n'}));
        if NULL == lines[i] {
          body := None;
        }
      }
      assert body == BodyAt(lines, i);
      r := Ok(Parsed(command, headers, body));
    }
  }

  /** The headers ACK and NACK send. */
  function AckHeaders(id: string, transaction: Option<string>): HeaderMap {
    if transaction.Some? then [("id", id), ("transaction", transaction.value)] else [("id", id)]
  }

  lemma AckHeadersMerge(id: string, transaction: string)
    ensures Merge([("id", id)], [("transaction", transaction)]) == AckHeaders(id, Some(transaction))
  {
    MergeSingle([("id", id)], ("transaction", transaction));
    PutNew([("id", id)], "transaction", transaction);
  }

  /** The headers SEND sends. */
  function SendHeaders(destination: string, contentType: string): HeaderMap {
    if Truthy(contentType) then [("destination", destination), ("content-type", contentType)]
    else [("destination", destination)]
  }

  lemma SendHeadersMerge(destination: string, contentType: string)
    requires Truthy(contentType)
    ensures Merge([("destination", destination)], [("content-type", contentType)])
         == SendHeaders(destination, contentType)
  {
    MergeSingle([("destination", destination)], ("content-type", contentType));
    PutNew([("destination", destination)], "content-type", contentType);
  }

  /** The headers after `if (!is_null($v)) setHeaders([$k => $v])`. */
  function Replaced(h: HeaderMap, k: string, v: Option<string>): HeaderMap {
    if v.Some? then [(k, v.value)] else h
  }
}
