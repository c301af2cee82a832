# STOMP frame builder and parser, modelled in Dafny

This project models the PHP class `Stomp\Frame` (`src/Frame.php`), the STOMP client's frame
builder and parser, and proves properties of the model. The framing follows the "STOMP Frames"
section of the STOMP 1.2 specification.

A builder holds three fields:
- a command, unset until a getter names one;
- an ordered header array, starting as `accept-version` and `heart-beat`;
- a nullable body.

Setters update these fields in place. Each of the ten per-command getters:
- sets the command;
- replaces or keeps the headers;
- for ACK and NACK, then merges `transaction` when one is given;
- for SEND, then merges `content-type` when it is truthy, and replaces the body when one is given;
- calls `getFrame`.

`getFrame` writes the frame text. It is the command line, one `name:value` line per header in
order, a blank line, the body when it is not null, and a NUL octet followed by a line feed.
The header lines are collected before `content-length` (the body's length in octets) is merged
into the builder's headers: the merge comes after the header lines and the blank line, and
before the body, so the header lines of the frame being written do not include it.

`parser` reads a frame sent by a server. It refuses an empty or sentinel message, and a frame
whose first line is not one of `CONNECTED`, `ERROR`, `MESSAGE` or `RECEIPT`. Otherwise it returns
the command, the header array and at most one body line.

Modules:
- `Wrappers` (`wrappers.dfy`): `Option` and `Result`.
- `PhpString` (`php_string.dfy`): the PHP string built-ins the class uses, as functions. These are
  `explode`, `implode`, `trim`, `rtrim`, string truthiness, and integer-to-decimal conversion with
  its independent reading `DecimalValue`.
- `HeaderArray` (`header_array.dfy`): a PHP array with string keys, as a sequence of
  `(name, value)` pairs with distinct names (`HeaderMap`). `Put` is `$h[$k] = $v`: overwrite in
  place, or append. `Merge` is `array_merge`. `Get` is a lookup.
- `Wire` (`wire.dfy`): the class constants and the frame text. `Encode` is the text `getFrame`
  returns. `Parse` is what `parser` returns or throws, with `ParseError` standing for the two
  exceptions. This module also holds the round trip between the two.
- `WireExamples` (`wire_examples.dfy`): concrete messages and how they parse.
- `Stomp` (`frame.dfy`): the class `Frame` itself. Its fields are `command`, `headers` and `body`,
  and every setter and getter is a method that modifies them. `GetFrame` builds the pieces in a
  loop over the headers. `Parser` reads the header lines in a `while` loop that advances an index.
  Each method's `ensures` ties its result and the new state to `Encode`, `Parse`, `Merge` and
  `AfterFrame`. The lemmas state what those mean.

Modelling decisions:
- A PHP string is a byte string. Here each `char` stands for one octet, so `strlen($s)` is `|s|`.
- Integer ids (`$id = 0`) are given as their decimal text, so the default is `"0"`.
- Transaction and receipt arguments are `Option<string>`, with `None` standing for PHP `null`.
- The body is `Option<string>`.
- PHP truthiness is written out wherever the class tests it: `""` and `"0"` are falsy. This covers:
  - `empty($message)` (line 263);
  - the header loop's `$lines[$i]` test (line 272);
  - `$contentType &&` (line 176);
  - `$headers ?:` (line 40), where an empty array is falsy.

Where the code differs from what one might read into STOMP 1.2, the model follows the code:
- **Repeated headers:** STOMP 1.2 ("Repeated Header Entries") keeps the first value of a repeated
  header. `parser` keeps the last (`Wire.HeadersOfGet`).
- **Header line 274:** the test `$header > 2` compares an array with an integer and is always true
  in PHP. So every header line is split at its first colon. The value keeps its later colons, and
  a line without a colon is a name with the empty value (`Wire.SplitHeader`).
- **Header escaping:** STOMP 1.2 escapes header values; this code does not, so neither does the
  model.
- **Body line:** the body is the single line after the blank line, with trailing NUL and LF
  characters removed. The comparison with `"\x00\n"` at line 287 can never succeed, because a
  line produced by `explode` on LF holds no LF (`Wire.BodyAtStripped`). So a body line consisting
  of only NUL characters gives the empty string, not null. For example, `"MESSAGE\n\n\0\nX"`
  parses to body `""`.
- **`content-length`:** it is merged after the header lines were written. So the frame being
  built carries no `content-length` line unless its headers already held one
  (`Stomp.FrameLacksContentLength`, for headers whose names hold no colon and whose entries hold
  no LF), while the next frame from the same builder does (`Stomp.NextFrameCarriesContentLength`). A getter that resets the headers
  (SUBSCRIBE, UNSUBSCRIBE, ACK, NACK, SEND, and the others when given an argument) drops it again.
- **Round trip:** `parser` trims the whole message before splitting it. So a frame reads back
  exactly only when its text does not end in a character `trim` removes (`Wire.Readable`). An
  empty body reads back as null (`Wire.ParseEncode`).

## Model

| member | source | states |
|---|---|---|
| `PhpString.Explode` | src/Frame.php:265 | `explode` yields at least one piece and no piece holds the separator |
| `PhpString.ImplodeExplode` | src/Frame.php:273-276 | joining the pieces of a text with the separator they were split on gives the text back, so `array_shift` plus `implode(':')` rebuilds the value with its colons |
| `PhpString.ExplodeImplode` | src/Frame.php:265 | splitting separator-free pieces after joining them gives the same pieces |
| `PhpString.TrimLeft` | src/Frame.php:265 | removes exactly the longest prefix of characters from the set |
| `PhpString.TrimRight` | src/Frame.php:286 | `rtrim` removes exactly the longest suffix of characters from the set |
| `PhpString.TrimPadded` | src/Frame.php:265 | `trim` of a text that begins and ends with kept characters, followed by trim characters only, is that text |
| `PhpString.NatToString` | src/Frame.php:246 | the decimal text of a length is non-empty, all digits, and has no leading zero |
| `PhpString.DecimalRoundTrip` | src/Frame.php:246 | the decimal text of a number reads back as that number |
| `PhpString.IntToStringValue` | src/Frame.php:77 | the text of an integer is digits without a leading zero that read back as it, preceded by a minus sign when it is negative |
| `HeaderArray.Find` | src/Frame.php:280 | the position of the first entry with a name, or the length when there is none |
| `HeaderArray.Put` | src/Frame.php:280 | assigning a name overwrites its entry in place, or appends the entry when the name is new; no other entry changes, and names stay distinct |
| `HeaderArray.PutGet` | src/Frame.php:280 | after an assignment the name reads as the new value and every other name as before |
| `HeaderArray.PutKeys` | src/Frame.php:49 | an assignment keeps the names and their order, or appends the new name |
| `HeaderArray.PutIdempotent` | src/Frame.php:245-247 | assigning the same entry twice is the same as once |
| `HeaderArray.MergeGet` | src/Frame.php:280 | after merging a list of entries a name has the last value the list gives it, else its old value |
| `HeaderArray.MergeArrays` | src/Frame.php:49 | `array_merge` of two arrays: a name takes its value from the second array when it has one, else from the first |
| `HeaderArray.MergeKeys` | src/Frame.php:49 | after a merge the old names keep their positions and the new names follow in first-occurrence order |
| `HeaderArray.NewKeys` | src/Frame.php:49 | the names appended by a merge: exactly the added names not already present |
| `Wire.EncodeParts` | src/Frame.php:232-254 | for every command, header array and body, the frame text is the command and LF, one `name:value` line with its LF per header in order, LF, the body (nothing when null), and NUL LF |
| `Wire.EncodeBare` | src/Frame.php:232-254 | with no headers and no body the frame is `command LF LF NUL LF` |
| `Wire.EncodeLinesAnyBody` | src/Frame.php:232-254 | for any body, split on LF a frame is its command line, its header lines in order, a blank line, and the pieces of the body followed by NUL LF; needs only a command and header names and values without LF |
| `Wire.EncodeLines` | src/Frame.php:232-254 | for a command, header names and values, and a body without LF, split on LF a frame is its command line, its header lines in order, a blank line, the body followed by NUL, and an empty remainder; header names may hold colons |
| `Wire.SplitHeader` | src/Frame.php:273-279 | a header line is split at its first colon, the value keeping its other colons; a line without a colon is a name with the empty value |
| `Wire.SplitHeaderLine` | src/Frame.php:273-279 | a header line written by `getFrame` splits back into its name and value when the name holds no colon |
| `Wire.HeaderBlockEnd` | src/Frame.php:272 | the header block ends at the first missing or falsy line |
| `Wire.HeadersReadBlock` | src/Frame.php:271-282 | the array the loop builds line by line is the array of the whole block |
| `Wire.HeadersOfGet` | src/Frame.php:280 | a repeated header takes the value of its last line |
| `Wire.HeadersOfKeys` | src/Frame.php:280 | header names come out in the order of their first line |
| `Wire.HeadersOfLines` | src/Frame.php:272-282 | the header lines of an array with colon-free names read back as that array |
| `Wire.BodyAtStripped` | src/Frame.php:284-288 | the body is the stripped line after the block, or null when there is no such line; the `"\x00\n"` comparison never succeeds |
| `Wire.ParseEncode` | src/Frame.php:261-291 | a readable frame with a server command parses back to its command, its headers and its body, an empty body giving null |
| `Wire.ParseRejects` | src/Frame.php:263-268 | a frame whose command has no LF and neither begins nor ends with a trim character, but is not a server command, is refused with the whole message, whatever its headers and body |
| `WireExamples.ParseConnectedExample` | src/Frame.php:283-288 | `"CONNECTED\nversion:1.2\n\n\0\n"` parses to CONNECTED, one header and a null body |
| `WireExamples.ParseMessageExample` | src/Frame.php:261-291 | `"MESSAGE\ndestination:/queue/a\nmessage-id:5\n\nhello\0\n"` parses to MESSAGE, the headers `destination` and `message-id` in that order, and the body `hello` |
| `WireExamples.SplitHeaderExample` | src/Frame.php:273-276 | `timestamp:2024-01-01T00:00:00` keeps the colons of its value |
| `WireExamples.ParseEmptyExamples` | src/Frame.php:263 | `""`, `"0"`, `"\n"` and `"\0\n"` are refused as empty |
| `Stomp.ContentLengthRecorded` | src/Frame.php:244-247 | after a frame with a body, `content-length` holds the body's length in octets, in decimal text that reads back as that length |
| `Stomp.AfterFrameOthers` | src/Frame.php:244-247 | writing a frame changes no header but `content-length`, which keeps its position or is appended |
| `Stomp.AfterFrameStable` | src/Frame.php:244-247 | with a null body the headers are unchanged; with a body a second frame leaves them as the first left them, so from the second frame on, repeating a getter that keeps the headers repeats its text (the first frame lacks `content-length`, the second carries it) |
| `Stomp.FrameLacksContentLength` | src/Frame.php:238-248 | for any body, a command without LF, and headers whose names hold no colon or LF and whose values hold no LF, the frame being written is its command line, exactly its headers' lines and then the blank line, and none of those lines is `content-length` unless the headers already held it |
| `Stomp.NextFrameCarriesContentLength` | src/Frame.php:244-247 | for a command and header names and values without LF, whatever the next body and whatever colons the header names hold, the next frame from the builder has a header line that reads as `content-length` with the previous body's length |
| `Stomp.LoginRecorded` | src/Frame.php:58-65 | `setLogin` records login and passcode and changes no other header |
| `Stomp.HeartBeatFields` | src/Frame.php:75-79 | `setHeartBeat(o, i)` writes `o,i`: for any integers, exactly two comma-separated fields, the text of `o` and the text of `i` |
| `Stomp.HeartBeatOverDefaults` | src/Frame.php:24-27 | a heart-beat set on the default headers replaces `0,0` in its position, and the default arguments give `0,0` |
| `Stomp.ParserRefusesClientFrames` | src/Frame.php:263-268 | `parser` refuses every frame written with one of the builder's own commands, whatever its headers and body |
| `Stomp.Frame.constructor` | src/Frame.php:23-33 | a new builder has no command, the default headers and the given body |
| `Stomp.Frame.SetHeaders` | src/Frame.php:38-41 | a non-empty array replaces the headers; an empty one leaves them |
| `Stomp.Frame.AddHeaders` | src/Frame.php:47-51 | the headers become their `array_merge` with the argument |
| `Stomp.Frame.SetLogin` | src/Frame.php:58-65 | merges `login` then `passcode` |
| `Stomp.Frame.SetHeartBeat` | src/Frame.php:75-79 | merges `heart-beat` as `outgoing,incoming` |
| `Stomp.Frame.SetBody` | src/Frame.php:85-89 | replaces the body, default the empty string |
| `Stomp.Frame.GetFrame` | src/Frame.php:232-254 | returns the frame text of the command, the headers as they were, and the body; then the headers become those with `content-length` merged when the body is not null |
| `Stomp.Frame.GetConnect` | src/Frame.php:94-98 | CONNECT with the current headers |
| `Stomp.Frame.GetSubscribe` | src/Frame.php:106-116 | SUBSCRIBE with exactly `id`, `ack`, `destination` in that order, `ack` defaulting to `auto` |
| `Stomp.Frame.GetUnSubscribe` | src/Frame.php:121-129 | UNSUBSCRIBE with exactly `id` |
| `Stomp.Frame.GetAck` | src/Frame.php:136-145 | ACK with `id`, then `transaction` only when one is given |
| `Stomp.Frame.GetNack` | src/Frame.php:152-161 | NACK with `id`, then `transaction` only when one is given |
| `Stomp.Frame.GetSend` | src/Frame.php:169-179 | SEND with `destination`, then `content-type` only when it is truthy; a given body, even empty, replaces the old one, otherwise the old body is sent |
| `Stomp.Frame.GetBegin` | src/Frame.php:185-191 | BEGIN keeps the headers without a transaction and replaces them with exactly `transaction` otherwise |
| `Stomp.Frame.GetCommit` | src/Frame.php:197-203 | COMMIT, headers as for BEGIN |
| `Stomp.Frame.GetAbort` | src/Frame.php:209-215 | ABORT, headers as for BEGIN |
| `Stomp.Frame.GetDisconnect` | src/Frame.php:221-227 | DISCONNECT keeps the headers without a receipt and replaces them with exactly `receipt` otherwise |
| `Stomp.Frame.Parser` | src/Frame.php:261-291 | returns what `Parse` states: the two errors, or the command, the header array built by the loop and the body line |

## Left out

- Transport, socket I/O, reading frames across partial reads and heart-beat timing are not part of this class.
- The constructor's `$event` parameter is unused by the class and is not modelled.
- `addHeaders`, `setLogin`, `setHeartBeat` and `setBody` return `$this` for chaining (`setHeaders` returns nothing); the methods here return nothing, and calls are sequenced instead.
- Header keys are assumed not to be integer-like strings. PHP turns such keys into integers, and `array_merge` renumbers them.
- A header value is a string. An argument of another PHP type (`null`, a float, an array) and its conversion by `.` are not modelled; integer ids are given as their decimal text.
- `Stomp.Frame.SetHeartBeat`: takes integers only, as its documentation says; PHP would also accept other scalars.
- The `else` branch at line 278 is unreachable, because `$header > 2` always holds. The model splits every header line at its first colon.
- The exception texts are not modelled beyond telling the two errors apart and keeping the raw message in the illegal-command error.
- STOMP 1.2 features the code does not implement are left out of the model too: header value escaping, reading a body by `content-length`, multi-line bodies and CR-LF line endings.
- `Wire.ParseEncode`: proved for readable frames only. A frame whose text ends in a character `trim` removes (a body ending in a space, say) loses those characters when read back.
