/**
 * The STOMP wire text that the frame class writes and reads: the constants of the class, the text
 * `getFrame` assembles, and what `parser` returns for a message.
 */
module Wire {
  import opened Wrappers
  import opened PhpString
  import opened HeaderArray

  /** `BYTE['LF']`: the line terminator. */
  const LF: string := "\n"
  /** `BYTE['NULL']`: the frame terminator, a NUL octet followed by a line terminator. */
  const NULL: string := "\0\n"

  const COMMAND_CONNECT: string := "CONNECT"
  const COMMAND_SEND: string := "SEND"
  const COMMAND_SUBSCRIBE: string := "SUBSCRIBE"
  const COMMAND_UNSUBSCRIBE: string := "UNSUBSCRIBE"
  const COMMAND_ACK: string := "ACK"
  const COMMAND_NACK: string := "NACK"
  const COMMAND_BEGIN: string := "BEGIN"
  const COMMAND_COMMIT: string := "COMMIT"
  const COMMAND_ABORT: string := "ABORT"
  const COMMAND_DISCONNECT: string := "DISCONNECT"
  /** The protocol versions the client offers. */
  const VERSIONS: string := "1.0,1.1,1.2"
  /** The commands a server may send; the only ones `parser` accepts. */
  const SERVER_COMMANDS: seq<string> := ["CONNECTED", "ERROR", "MESSAGE", "RECEIPT"]

  // ---------------------------------------------------------------------------------------------
  // Encoding

  /** The text of one header line, without its terminator. */
  function HeaderLine(e: Header): string {
    e.0 + ":" + e.1
  }

  /** The header lines of a header set, in insertion order. */
  function HeaderLines(h: seq<Header>): seq<string> {
    seq(|h|, i requires 0 <= i < |h| => HeaderLine(h[i]))
  }

  /** The pieces `getFrame` appends for the headers: each header line with its terminator. */
  function HeaderPieces(h: seq<Header>): seq<string> {
    seq(|h|, i requires 0 <= i < |h| => HeaderLine(h[i]) + LF)
  }

  /** `implode($pieces)` with no glue: the pieces one after another. */
  function Concat(pieces: seq<string>): string
    decreases |pieces|
  {
    if pieces == [] then "" else pieces[0] + Concat(pieces[1..])
  }

  lemma {:induction false} ConcatAppend(p: seq<string>, q: seq<string>)
    ensures Concat(p + q) == Concat(p) + Concat(q)
    decreases |p|
  {
    if p == [] {
      assert p + q == q;
    } else {
      assert (p + q)[0] == p[0];
      assert (p + q)[1..] == p[1..] + q;
      ConcatAppend(p[1..], q);
    }
  }

  /** The body as it is written: nothing when there is none. */
  function BodyText(body: Option<string>): string {
    body.GetOr("")
  }

  /**
   * The pieces `getFrame` collects, in order: the command line, one line per header, the blank
   * separator, the body when it is not null, and the NUL terminator.
   */
  function FramePieces(command: string, headers: seq<Header>, body: Option<string>): seq<string> {
    [command + LF] + HeaderPieces(headers) + [LF] + (if body.Some? then [body.value] else []) + [NULL]
  }

  /** The frame text `getFrame` returns. */
  function Encode(command: string, headers: seq<Header>, body: Option<string>): string {
    Concat(FramePieces(command, headers, body))
  }

  /** With no headers and no body a frame is still its command, a blank line and the terminator. */
  lemma EncodeBare(command: string)
    ensures Encode(command, [], None) == command + "\n\n\0\n"
  {
    assert FramePieces(command, [], None) == [command + LF, LF, NULL];
    assert Concat([NULL]) == NULL;
    assert Concat([LF, NULL]) == LF + NULL;
  }

  /** The lines of a frame: command, header lines, blank line, body followed by NUL, and "". */
  function FrameLines(command: string, headers: seq<Header>, body: Option<string>): seq<string> {
    [command] + HeaderLines(headers) + ["", BodyText(body) + "\0", ""]
  }

  /** Lines given a terminator each, one after another. */
  lemma {:induction false} ImplodeTerminated(ls: seq<Header>, tail: seq<string>)
    requires tail != []
    ensures Implode('\n', HeaderLines(ls) + tail) == Concat(HeaderPieces(ls)) + Implode('\n', tail)
    decreases |ls|
  {
    if ls != [] {
      ImplodeTerminated(ls[1..], tail);
      assert HeaderLines(ls) + tail == [HeaderLine(ls[0])] + (HeaderLines(ls[1..]) + tail);
      assert HeaderPieces(ls) == [HeaderLine(ls[0]) + LF] + HeaderPieces(ls[1..]);
    } else {
      assert HeaderLines(ls) + tail == tail;
    }
  }

  /** The frame text piece by piece. */
  lemma EncodeParts(command: string, headers: seq<Header>, body: Option<string>)
    ensures Encode(command, headers, body)
         == command + LF + Concat(HeaderPieces(headers)) + LF + BodyText(body) + NULL
  {
    var hp := HeaderPieces(headers);
    var bodyPieces := if body.Some? then [body.value] else [];
    assert Concat(bodyPieces) == BodyText(body);
    assert Concat([NULL]) == NULL;
    assert Concat([LF]) == LF;
    assert Concat([command + LF]) == command + LF;
    assert FramePieces(command, headers, body) == [command + LF] + hp + [LF] + bodyPieces + [NULL];
    ConcatAppend([command + LF] + hp + [LF] + bodyPieces, [NULL]);
    ConcatAppend([command + LF] + hp + [LF], bodyPieces);
    ConcatAppend([command + LF] + hp, [LF]);
    ConcatAppend([command + LF], hp);
  }

  /** The blank line, the body line and the empty remainder, joined. */
  lemma ImplodeTail(b: string)
    ensures Implode('\n', ["", b + "\0", ""]) == LF + b + NULL
  {
    var tail := ["", b + "\0", ""];
    assert tail[1..] == [b + "\0", ""] && tail[1..][1..] == [""];
    assert Implode('\n', [b + "\0", ""]) == b + "\0" + LF;
  }

  /** The lines of a frame joined by line terminators, piece by piece. */
  lemma ImplodeFrameLines(command: string, headers: seq<Header>, body: Option<string>)
    ensures Implode('\n', FrameLines(command, headers, body))
         == command + LF + Concat(HeaderPieces(headers)) + LF + BodyText(body) + NULL
  {
    var b := BodyText(body);
    var tail := ["", b + "\0", ""];
    var rest := HeaderLines(headers) + tail;
    assert FrameLines(command, headers, body) == [command] + rest;
    assert ([command] + rest)[1..] == rest;
    ImplodeTerminated(headers, tail);
    ImplodeTail(b);
    var hp := Concat(HeaderPieces(headers));
    assert Implode('\n', [command] + rest) == command + LF + (hp + (LF + b + NULL));
  }

  /** The frame text is its lines joined by line terminators. */
  lemma EncodeAsLines(command: string, headers: seq<Header>, body: Option<string>)
    ensures Encode(command, headers, body) == Implode('\n', FrameLines(command, headers, body))
  {
    EncodeParts(command, headers, body);
    ImplodeFrameLines(command, headers, body);
  }

  /** A header whose name and value hold no line terminator, so that its line stays one line. */
  predicate LineSafe(e: Header) {
    '\n' !in e.0 && '\n' !in e.1
  }

  /** A header whose line stays one line and whose name holds no colon, so that it splits back. */
  predicate WireSafe(e: Header) {
    ':' !in e.0 && LineSafe(e)
  }

  /**
   * Split into lines, a frame is exactly its command line, its header lines in insertion order,
   * one blank line, the body followed by NUL, and the empty remainder after the final terminator.
   */
  lemma EncodeLines(command: string, headers: seq<Header>, body: Option<string>)
    requires '\n' !in command
    requires forall i :: 0 <= i < |headers| ==> LineSafe(headers[i])
    requires '\n' !in BodyText(body)
    ensures Explode('\n', Encode(command, headers, body)) == FrameLines(command, headers, body)
  {
    EncodeAsLines(command, headers, body);
    var ls := FrameLines(command, headers, body);
    forall i | 0 <= i < |ls| ensures '\n' !in ls[i] {
      if 1 <= i <= |headers| {
        assert ls[i] == HeaderLine(headers[i - 1]);
      }
    }
    ExplodeImplode('\n', ls);
  }

  /**
   * Split into lines, a frame of any body is its command line, its header lines in insertion
   * order, one blank line, and the pieces of the body followed by the NUL terminator.
   */
  lemma EncodeLinesAnyBody(command: string, headers: seq<Header>, body: Option<string>)
    requires '\n' !in command
    requires forall i :: 0 <= i < |headers| ==> LineSafe(headers[i])
    ensures Explode('\n', Encode(command, headers, body))
         == [command] + HeaderLines(headers) + [""] + Explode('\n', BodyText(body) + NULL)
  {
    var b := BodyText(body);
    var P := [command] + HeaderLines(headers) + [""];
    var Q := [b + "\0", ""];
    EncodeAsLines(command, headers, body);
    assert FrameLines(command, headers, body) == P + Q;
    ImplodeAppend('\n', P, Q);
    assert Implode('\n', Q) == b + NULL by {
      assert Q[1..] == [""];
    }
    forall i | 0 <= i < |P| ensures '\n' !in P[i] {
      if 1 <= i <= |headers| {
        assert P[i] == HeaderLine(headers[i - 1]);
      }
    }
    ExplodeImplode('\n', P);
    ExplodeAround('\n', Implode('\n', P), b + NULL);
  }

  // ---------------------------------------------------------------------------------------------
  // Decoding

  /** The two exceptions `parser` throws. */
  datatype ParseError =
    | EmptyMessage                      // "message is empty!"
    | IllegalCommand(message: string)   // "server command illegal", with the raw message

  /** What `parser` returns: the command, the header array and the body, if any. */
  datatype Parsed = Parsed(command: string, headers: HeaderMap, body: Option<string>)

  /** `empty($message) || in_array($message, self::BYTE)`. */
  predicate IsEmptyOrSentinel(message: string) {
    !Truthy(message) || message == LF || message == NULL
  }

  /**
   * `explode(':', $line)`, `array_shift` and `implode(':', …)`: the name is the text before the
   * first colon and the value all that follows it, colons kept; a line without a colon is a name
   * with the empty value.
   */
  function SplitHeader(line: string): (e: Header)
    ensures ':' !in line ==> e == (line, "")
    ensures ':' in line ==> ':' !in e.0 && line == e.0 + ":" + e.1
  {
    var parts := Explode(':', line);
    if ':' !in line then
      ExplodeNoSeparator(':', line);
      (parts[0], Implode(':', parts[1..]))
    else
      ImplodeExplode(':', line);
      assert |parts| > 1;
      (parts[0], Implode(':', parts[1..]))
  }

  /** Text before a first colon is determined by the whole. */
  lemma FirstColon(a: string, b: string, c: string, d: string)
    requires ':' !in a && ':' !in c
    requires a + ":" + b == c + ":" + d
    ensures a == c && b == d
  {
    var s := a + ":" + b;
    assert forall i :: 0 <= i < |a| ==> s[i] == a[i];
    assert forall i :: 0 <= i < |c| ==> s[i] == c[i];
    assert s[|a|] == ':' && s[|c|] == ':';
    assert |a| == |c|;
    assert a == s[..|a|] && c == s[..|c|];
    assert b == s[|a| + 1..] && d == s[|c| + 1..];
  }

  /** A header line written by `getFrame` is split back into its name and value. */
  lemma SplitHeaderLine(e: Header)
    requires ':' !in e.0
    ensures SplitHeader(HeaderLine(e)) == e
  {
    var line := HeaderLine(e);
    assert line[|e.0|] == ':';
    var kv := SplitHeader(line);
    FirstColon(kv.0, kv.1, e.0, e.1);
  }

  /**
   * The index where the header block ends: the first line from `i` on that is missing or falsy
   * (`while (isset($lines[$i]) && $lines[$i])`).
   */
  function HeaderBlockEnd(lines: seq<string>, i: nat): (end: nat)
    requires i <= |lines|
    ensures i <= end <= |lines|
    ensures forall j :: i <= j < end ==> Truthy(lines[j])
    ensures end == |lines| || !Truthy(lines[end])
    decreases |lines| - i
  {
    if i < |lines| && Truthy(lines[i]) then HeaderBlockEnd(lines, i + 1) else i
  }

  /** The name and value of each line of a header block. */
  function HeaderPairs(block: seq<string>): seq<Header> {
    seq(|block|, j requires 0 <= j < |block| => SplitHeader(block[j]))
  }

  /** The header array `$headers[$k] = $v` builds from a header block, line by line. */
  function HeadersOf(block: seq<string>): HeaderMap {
    Merge([], HeaderPairs(block))
  }

  /**
   * The line after the header block, if there is one, with trailing NUL and LF characters
   * stripped, except that a line equal to `BYTE['NULL']` gives null.
   */
  function BodyAt(lines: seq<string>, j: nat): Option<string> {
    if j < |lines| then
      if lines[j] == NULL then None else Some(TrimRight(lines[j], {'\0', '\n'}))
    else None
  }

  /** What `parser($message)` returns or throws. */
  function Parse(message: string): Result<Parsed, ParseError> {
    if IsEmptyOrSentinel(message) then Err(EmptyMessage)
    else
      var lines := Explode('\n', Trim(message));
      var command := Trim(lines[0]);
      if command !in SERVER_COMMANDS then Err(IllegalCommand(message))
      else
        var end := HeaderBlockEnd(lines, 1);
        Ok(Parsed(command, HeadersOf(lines[1..end]), BodyAt(lines, end + 1)))
  }

  /** Reading one more header line assigns its name and value into the array read so far. */
  lemma HeadersOfSnoc(block: seq<string>, line: string)
    ensures var e := SplitHeader(line);
      HeadersOf(block + [line]) == Put(HeadersOf(block), e.0, e.1)
  {
    var ps := HeaderPairs(block + [line]);
    assert ps[..|block|] == HeaderPairs(block);
    assert ps[|block|] == SplitHeader(line);
  }

  /** The header array `parser`'s loop has built once it reaches line `i`. */
  function HeadersRead(lines: seq<string>, i: nat): HeaderMap
    requires 1 <= i <= |lines|
    decreases i
  {
    if i == 1 then []
    else
      var e := SplitHeader(lines[i - 1]);
      Put(HeadersRead(lines, i - 1), e.0, e.1)
  }

  /** Line by line, the loop builds the header array of lines `1..i`. */
  lemma {:induction false} HeadersReadBlock(lines: seq<string>, i: nat)
    requires 1 <= i <= |lines|
    ensures HeadersRead(lines, i) == HeadersOf(lines[1..i])
    decreases i
  {
    if i > 1 {
      HeadersReadBlock(lines, i - 1);
      assert lines[1..i] == lines[1..i - 1] + [lines[i - 1]];
      HeadersOfSnoc(lines[1..i - 1], lines[i - 1]);
    }
  }

  /**
   * No line of a split text equals `BYTE['NULL']`, which holds a line terminator; so the body
   * line is never turned into null, and a body is exactly the stripped line when there is one.
   */
  lemma BodyAtStripped(text: string, j: nat)
    ensures var lines := Explode('\n', text);
      BodyAt(lines, j) == if j < |lines| then Some(TrimRight(lines[j], {'\0', '\n'})) else None
  {
    var lines := Explode('\n', text);
    if j < |lines| {
      assert NULL[1] == '\n';
      assert lines[j] != NULL;
    }
  }

  /** `Parse` of an accepted message, in terms of its lines. */
  lemma ParseAccepted(message: string, lines: seq<string>, end: nat)
    requires !IsEmptyOrSentinel(message)
    requires lines == Explode('\n', Trim(message))
    requires Trim(lines[0]) in SERVER_COMMANDS
    requires end == HeaderBlockEnd(lines, 1)
    ensures Parse(message) == Ok(Parsed(Trim(lines[0]), HeadersOf(lines[1..end]), BodyAt(lines, end + 1)))
  {
  }

  /** A header that occurs twice in a block takes the value of its last line. */
  lemma HeadersOfGet(block: seq<string>, k: string)
    ensures Get(HeadersOf(block), k) == LastValue(HeaderPairs(block), k)
  {
    MergeGet([], HeaderPairs(block), k);
  }

  /** The header names come out in the order they first occur in the block. */
  lemma HeadersOfKeys(block: seq<string>)
    ensures Keys(HeadersOf(block)) == NewKeys([], Keys(HeaderPairs(block)))
  {
    MergeKeys([], HeaderPairs(block));
  }

  /** Adding the entries of an array one by one to an empty array gives that array. */
  lemma {:induction false} MergeIntoEmpty(h: HeaderMap)
    ensures Merge([], h) == h
    decreases |h|
  {
    if h != [] {
      var n := |h| - 1;
      var front: HeaderMap := h[..n];
      MergeIntoEmpty(front);
      assert forall j :: 0 <= j < n ==> front[j].0 != h[n].0;
      var r := Put(front, h[n].0, h[n].1);
      assert r == h;
    }
  }

  /** The header lines of an array with colon-free names read back as that array. */
  lemma HeadersOfLines(h: HeaderMap)
    requires forall i :: 0 <= i < |h| ==> ':' !in h[i].0
    ensures HeadersOf(HeaderLines(h)) == h
  {
    var ps := HeaderPairs(HeaderLines(h));
    forall i | 0 <= i < |h| ensures ps[i] == h[i] {
      SplitHeaderLine(h[i]);
    }
    assert ps == h;
    MergeIntoEmpty(h);
  }

  // ---------------------------------------------------------------------------------------------
  // Encoding and decoding agree

  /** A command that holds no line terminator and neither begins nor ends with a trim character. */
  predicate SolidCommand(command: string) {
    '\n' !in command && StartsSolid(command) && EndsSolid(command)
  }

  /** The server commands are solid. */
  lemma ServerCommandSolid(command: string)
    requires command in SERVER_COMMANDS
    ensures SolidCommand(command)
  {
  }

  /** Joined lines begin with the first line and end with the last. */
  lemma ImplodeEnds(sep: char, p: seq<string>)
    requires p != []
    ensures Implode(sep, p)[..|p[0]|] == p[0]
    ensures |Implode(sep, p)| >= |p[|p| - 1]|
    ensures Implode(sep, p)[|Implode(sep, p)| - |p[|p| - 1]|..] == p[|p| - 1]
  {
    ImplodeStarts(sep, p);
    ImplodeFinishes(sep, p);
  }

  /** A joined text starts with its first piece. */
  lemma ImplodeStarts(sep: char, p: seq<string>)
    requires p != []
    ensures |Implode(sep, p)| >= |p[0]|
    ensures Implode(sep, p)[..|p[0]|] == p[0]
  {
    if |p| > 1 {
      ImplodeAppend(sep, [p[0]], p[1..]);
      assert [p[0]] + p[1..] == p;
    }
  }

  /** A joined text ends with its last piece. */
  lemma ImplodeFinishes(sep: char, p: seq<string>)
    requires p != []
    ensures |Implode(sep, p)| >= |p[|p| - 1]|
    ensures Implode(sep, p)[|Implode(sep, p)| - |p[|p| - 1]|..] == p[|p| - 1]
  {
    var n := |p| - 1;
    if n > 0 {
      ImplodeAppend(sep, p[..n], [p[n]]);
      assert p[..n] + [p[n]] == p;
      var front := Implode(sep, p[..n]) + [sep];
      assert Implode(sep, p) == front + p[n];
      assert (front + p[n])[|front|..] == p[n];
    }
  }

  /** The header block ends at the first falsy line at or after `i`, or at the end of the lines. */
  lemma HeaderBlockEndAt(lines: seq<string>, i: nat, e: nat)
    requires i <= e <= |lines|
    requires forall j :: i <= j < e ==> Truthy(lines[j])
    requires e == |lines| || !Truthy(lines[e])
    ensures HeaderBlockEnd(lines, i) == e
  {
  }

  /** A header line is never falsy: it holds a colon. */
  lemma HeaderLineTruthy(e: Header)
    ensures Truthy(HeaderLine(e))
  {
    assert HeaderLine(e)[|e.0|] == ':';
  }

  /**
   * What a frame must satisfy for `parser` to read it back: a solid command, header names with
   * no colon and no line terminator, values and body with no line terminator, and frame text that
   * does not end in a character `trim` strips (the body's last character, or when the body is empty
   * the last header line's).
   */
  predicate Readable(command: string, headers: HeaderMap, body: Option<string>) {
    && SolidCommand(command)
    && (forall i :: 0 <= i < |headers| ==> WireSafe(headers[i]))
    && '\n' !in BodyText(body)
    && (BodyText(body) != "" ==> EndsSolid(BodyText(body)))
    && (BodyText(body) == "" && headers != [] ==> EndsSolid(HeaderLine(headers[|headers| - 1])))
  }

  /** The lines left once `trim` has removed the terminators (and a blank line when no body). */
  function TrimmedLines(command: string, headers: HeaderMap, body: Option<string>): seq<string> {
    [command] + HeaderLines(headers) + (if BodyText(body) == "" then [] else ["", BodyText(body)])
  }

  /** The frame text is its trimmed lines followed by trim characters only. */
  lemma EncodePadded(command: string, headers: HeaderMap, body: Option<string>)
    ensures Encode(command, headers, body)
         == Implode('\n', TrimmedLines(command, headers, body))
          + (if BodyText(body) == "" then "\n\n\0\n" else "\0\n")
  {
    var b := BodyText(body);
    var P := [command] + HeaderLines(headers);
    EncodeAsLines(command, headers, body);
    if b == "" {
      assert b + "\0" == "\0";
      assert FrameLines(command, headers, body) == P + ["", "\0", ""];
      ImplodeAppend('\n', P, ["", "\0", ""]);
      assert TrimmedLines(command, headers, body) == P;
    } else {
      assert FrameLines(command, headers, body) == (P + [""]) + [b + "\0", ""];
      ImplodeAppend('\n', P + [""], [b + "\0", ""]);
      assert TrimmedLines(command, headers, body) == (P + [""]) + [b];
      ImplodeAppend('\n', P + [""], [b]);
    }
  }

  /** The joined trimmed lines of a readable frame start and end with a character `trim` keeps. */
  lemma TrimmedTextSolid(command: string, headers: HeaderMap, body: Option<string>)
    requires Readable(command, headers, body)
    ensures var text := Implode('\n', TrimmedLines(command, headers, body));
      StartsSolid(text) && EndsSolid(text)
  {
    var b := BodyText(body);
    var n := |headers|;
    var Q := TrimmedLines(command, headers, body);
    var text := Implode('\n', Q);
    ImplodeEnds('\n', Q);
    assert StartsSolid(text) by { assert text[0] == command[0]; }
    var last := Q[|Q| - 1];
    if b == "" && n > 0 {
      assert last == HeaderLine(headers[n - 1]);
    }
    assert EndsSolid(last);
    assert text[|text| - 1] == last[|last| - 1];
  }

  /** What `getFrame` writes after the last trimmed line is all characters `trim` removes. */
  lemma TerminatorTrimmed(pad: string)
    requires pad == "\n\n\0\n" || pad == "\0\n"
    ensures forall i :: 0 <= i < |pad| ==> pad[i] in TRIM_CHARS
  {
  }

  /** `trim` turns the frame text into its trimmed lines joined, and the text is not empty. */
  lemma TrimEncode(command: string, headers: HeaderMap, body: Option<string>)
    requires Readable(command, headers, body)
    ensures Trim(Encode(command, headers, body)) == Implode('\n', TrimmedLines(command, headers, body))
    ensures !IsEmptyOrSentinel(Encode(command, headers, body))
  {
    var pad := if BodyText(body) == "" then "\n\n\0\n" else "\0\n";
    var text := Implode('\n', TrimmedLines(command, headers, body));
    EncodePadded(command, headers, body);
    TrimmedTextSolid(command, headers, body);
    TerminatorTrimmed(pad);
    TrimPadded(text, pad);
    assert |text| >= 1 && |pad| >= 2;
  }

  /** `parser`'s reading of the trimmed lines of a readable frame. */
  lemma ParseTrimmedLines(command: string, headers: HeaderMap, body: Option<string>)
    requires Readable(command, headers, body)
    ensures var lines := TrimmedLines(command, headers, body);
      && Trim(lines[0]) == command
      && HeaderBlockEnd(lines, 1) == |headers| + 1
      && HeadersOf(lines[1..|headers| + 1]) == headers
      && BodyAt(lines, |headers| + 2) == if BodyText(body) == "" then None else body
  {
    var Q := TrimmedLines(command, headers, body);
    var b := BodyText(body);
    var n := |headers|;
    TrimPadded(command, "");
    assert command + "" == command;
    forall j | 1 <= j < n + 1 ensures Truthy(Q[j]) {
      assert Q[j] == HeaderLine(headers[j - 1]);
      HeaderLineTruthy(headers[j - 1]);
    }
    HeaderBlockEndAt(Q, 1, n + 1);
    assert Q[1..n + 1] == HeaderLines(headers);
    HeadersOfLines(headers);
    if b != "" {
      assert Q[n + 2] == b;
      assert b != NULL by { assert NULL[1] == '\n'; }
      assert TrimRight(b, {'\0', '\n'}) == b;
    }
  }

  /** No trimmed line of a readable frame holds a line terminator. */
  lemma TrimmedLinesNoTerminator(command: string, headers: HeaderMap, body: Option<string>)
    requires Readable(command, headers, body)
    ensures forall i :: 0 <= i < |TrimmedLines(command, headers, body)|
                        ==> '\n' !in TrimmedLines(command, headers, body)[i]
  {
    var Q := TrimmedLines(command, headers, body);
    var n := |headers|;
    forall i | 0 <= i < |Q| ensures '\n' !in Q[i] {
      if i == 0 {
        assert Q[i] == command;
      } else if i <= n {
        var e := headers[i - 1];
        assert Q[i] == HeaderLine(e);
        assert WireSafe(e);
        assert forall j :: 0 <= j < |HeaderLine(e)| ==> HeaderLine(e)[j] == '\n' ==> false by {
          forall j | 0 <= j < |HeaderLine(e)| ensures HeaderLine(e)[j] != '\n' {
            if j < |e.0| {
              assert HeaderLine(e)[j] == e.0[j];
            } else if j > |e.0| {
              assert HeaderLine(e)[j] == e.1[j - |e.0| - 1];
            }
          }
        }
      } else if i == n + 1 {
        assert Q[i] == "";
      } else {
        assert Q[i] == BodyText(body);
      }
    }
  }

  /**
   * `parser` reads back what `getFrame` writes, for a readable frame; an empty body reads back as
   * null.
   */
  lemma ParseEncode(command: string, headers: HeaderMap, body: Option<string>)
    requires command in SERVER_COMMANDS && Readable(command, headers, body)
    ensures Parse(Encode(command, headers, body))
         == Ok(Parsed(command, headers, if BodyText(body) == "" then None else body))
  {
    var m := Encode(command, headers, body);
    var Q := TrimmedLines(command, headers, body);
    TrimEncode(command, headers, body);
    TrimmedLinesNoTerminator(command, headers, body);
    ExplodeImplode('\n', Q);
    var lines := Explode('\n', Trim(m));
    assert lines == Q;
    ParseTrimmedLines(command, headers, body);
    var n := |headers|;
    assert Trim(lines[0]) == command;
    assert HeaderBlockEnd(lines, 1) == n + 1;
    var parsed := Parsed(command, HeadersOf(lines[1..n + 1]), BodyAt(lines, n + 2));
    assert parsed == Parsed(command, headers, if BodyText(body) == "" then None else body);
    assert Parse(m) == Ok(parsed);
  }

  /**
   * A frame whose command is solid but not a server command is refused with the whole text,
   * whatever its headers and body: `trim` keeps the command, and the first line ends at the
   * terminator that follows it.
   */
  lemma ParseRejects(command: string, headers: HeaderMap, body: Option<string>)
    requires SolidCommand(command) && command !in SERVER_COMMANDS
    ensures Parse(Encode(command, headers, body)) == Err(IllegalCommand(Encode(command, headers, body)))
  {
    var m := Encode(command, headers, body);
    var rest := LF + Concat(HeaderPieces(headers)) + LF + BodyText(body) + NULL;
    EncodeParts(command, headers, body);
    assert m == command + rest;
    var n := |command|;
    assert !IsEmptyOrSentinel(m) by {
      assert |m| >= n + 3;
    }
    assert m[0] == command[0];
    assert TrimLeft(m, TRIM_CHARS) == m;
    var t := TrimRight(m, TRIM_CHARS);
    assert m[n - 1] == command[n - 1];
    assert |t| >= n;
    var tail := m[n..|t|];
    assert t == command + tail by {
      assert t == m[..|t|];
    }
    assert tail == [] || tail[0] == '\n' by {
      assert m[n] == rest[0];
    }
    ExplodeFirst('\n', command, tail);
    TrimPadded(command, []);
    assert command + [] == command;
  }

}
