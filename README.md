# allow-proxy: the handshake parser and the admission decision

allow-proxy is a TCP forward proxy with an allow list. For each client connection, `handle_connection` in `src/main.rs` does the following:

1. It reads once into a zero-filled 1024-byte buffer.
2. It decodes the whole buffer as UTF-8.
3. It splits the text at every whitespace character and takes the first three pieces: method, target and protocol.
4. It parses the target as a URL and takes its host and port.
5. If the host is not in the allow set, it writes `HTTP/1.1 403 Forbidden\r\n\r\n` and stops.
6. Otherwise it connects to the host and replays the bytes it read. The two sockets are then relayed.

This project models steps 1 to 6 up to the start of the relay, and proves what the parser and the decision guarantee.

- `wrappers.dfy` (module `Wrappers`): `Option` and `Result`.
- `utf8.dfy` (module `Utf8`): the decoder `DecodeUtf8`, which behaves as `String::from_utf8`. It accepts the well-formed sequences of Table 3-7 of the Unicode Standard: no overlong forms, no surrogates, nothing above U+10FFFF. Its partner is the encoder `Encode`, as `str::as_bytes`. It is proved that:
  - decoding undoes encoding, and encoding undoes decoding;
  - the decoder accepts exactly the encodings of strings;
  - zero padding decodes to NUL characters and does not change how the bytes before it decode.
- `handshake.dfy` (module `Handshake`), covering the `scan!` macro and `parse_handshake`:
  - `char::is_whitespace` is the Unicode White_Space property.
  - The `str::split` iterator is modelled one `next()` at a time. `Pieces`, `Separators` and `Join` are a reference definition of the split, proved to be a round trip in both directions.
  - `ParseLine` and `ParseHandshake` give either the three tokens or the `unwrap` that would panic.
- `admission.dfy` (module `Admission`):
  - `HandleConnection`: an imperative method over a 1024-byte `array`, covering the read, the parse, the host check, the 403 and the replay.
  - It is proved equal to the function `Admit`.
  - Lemmas state what `Admit` guarantees: replay only after the policy approves, the 403 exactly on denial, and failure on malformed input.

Every `unwrap` that can panic becomes a `Fail` outcome. A panic ends only the spawned task, so nothing more is written to either socket.

`str::split(char::is_whitespace)` splits at every single whitespace character, so two whitespace characters in a row give an empty token (`DoubleSeparatorGivesEmptyTarget`, `DoubleSpaceExample`). Runs of whitespace are not collapsed.

The code also parses the whole 1024-byte buffer, not just the bytes read. So the zero padding is part of the text the parser sees:
- If a whitespace character follows the third token, as the CR of CRLF does, the padding is never looked at (`ParseTerminatedRequest`).
- Otherwise the padding joins the protocol token as NUL characters (`ParseUnterminatedRequest`).

## Model

| member | source | states |
|---|---|---|
| Utf8.DecodeUtf8 | src/main.rs:17 | `String::from_utf8` as a definition: one scalar value at a time, by Table 3-7 of the Unicode Standard, with None for any ill-formed sequence; its properties are the next three rows |
| Utf8.Encode | src/main.rs:36 | `str::as_bytes`, the shortest UTF-8 encoding of each character; its contract bounds the encoding to between one and four bytes per character |
| Utf8.DecodeEncode | src/main.rs:17 | `from_utf8` accepts the UTF-8 encoding of every string and returns that string |
| Utf8.EncodeDecode | src/main.rs:17 | whatever `from_utf8` accepts is exactly the encoding of the string it returns, so nothing is lost or altered |
| Utf8.ValidIffEncoding | src/main.rs:17 | the bytes decode if and only if they are the encoding of some string |
| Utf8.DecodePadded | src/main.rs:24-28 | decoding data followed by k zero bytes fails exactly when the data fails to decode; otherwise it gives the data's text followed by k NULs |
| Utf8.AsciiEncoding | src/main.rs:36 | a byte-for-byte ASCII string encodes to those bytes |
| Handshake.IsWhitespace | src/main.rs:18 | `char::is_whitespace`, the Unicode White_Space property; its contract says that on ASCII it holds exactly for tab, line feed, vertical tab, form feed, carriage return and space, and that nothing above U+3000 is whitespace |
| Handshake.FirstWhitespace | src/main.rs:18 | the split's separator search: the index is at most the length, everything before it is non-whitespace, and the character there is whitespace when it is in range |
| Handshake.PiecesCount | src/main.rs:11 | `split` yields one more piece than there are whitespace characters, so there is always a first piece |
| Handshake.PiecesShape | src/main.rs:11 | no piece contains whitespace, and every separator is whitespace |
| Handshake.SplitJoin | src/main.rs:11 | rejoining the pieces with their separators gives back the original text |
| Handshake.JoinSplit | src/main.rs:11 | whitespace-free pieces joined by whitespace characters split back into exactly those pieces and separators |
| Handshake.Next | src/main.rs:11-12 | `Split::next` on the iterator state (`SplitIter`): a finished iterator yields None; otherwise it yields a whitespace-free piece, which is either all the remaining text (and the iterator finishes) or the text up to the next whitespace character, where searching resumes just after that character |
| Handshake.NextYieldsPieces | src/main.rs:11-12 | each `next()` yields the first remaining piece, or None once none remain, and drops that piece |
| Handshake.ScanIsFirstPieces | src/main.rs:9-14 | `scan!` with three `String` types yields the first three pieces of the split, None past the last piece |
| Handshake.ParseToken | src/main.rs:12 | `word.parse::<String>().ok()`: parsing a `String` never fails and gives the word unchanged |
| Handshake.AndThenParse | src/main.rs:12 | `next().and_then(parse)`: with `String` as the type, it passes the iterator's result through unchanged |
| Handshake.Scan3 | src/main.rs:9-14 | `scan!(line, char::is_whitespace, String, String, String)`: three `next()` calls; the first always yields a token, a third token is present only after a second, and every token is whitespace-free |
| Handshake.ParseLine | src/main.rs:18-20 | the three `unwrap`s on the scanned text, in order; they can fail only for a missing target or protocol, and the tokens of a success contain no whitespace |
| Handshake.ParseHandshake | src/main.rs:16-21 | `parse_handshake`: the UTF-8 failure exactly when the buffer does not decode; otherwise the line parser on the decoded text |
| Handshake.ParseLineOutcome | src/main.rs:16-21 | three or more pieces give their first three as the tokens; two pieces report the missing protocol; one piece reports the missing target; parsing succeeds exactly when there are at least two separators; the method is never the missing token |
| Handshake.LeadingPieces | src/main.rs:18 | the first three pieces and the two separators between them form the front of the line, and the third piece is followed by the end of the line or whitespace |
| Handshake.ParsedLineShape | src/main.rs:18-20 | a parsed line is method, whitespace, target, whitespace, protocol, then the end of the line or whitespace; the three tokens are whitespace-free |
| Handshake.PiecesOfShape | src/main.rs:18 | a line of that shape splits with those three tokens first |
| Handshake.ParseLineOfShape | src/main.rs:18-20 | conversely, a line of that shape parses to exactly its three tokens, whatever follows the third |
| Handshake.DoubleSeparatorGivesEmptyTarget | src/main.rs:18 | two whitespace characters after the method give an empty target, and the protocol is the next run of non-whitespace |
| Handshake.DoubleSpaceExample | src/main.rs:18 | `GET  x y` (two spaces) parses to method `GET`, an empty target and protocol `x` |
| Handshake.ParseHandshakeNeedsUtf8 | src/main.rs:17 | `parse_handshake` fails with invalid UTF-8 exactly when the buffer encodes no string, and a buffer it parses is the encoding of the decoded line |
| Handshake.ParseHandshakeOfText | src/main.rs:16-18 | on the encoding of a line, `parse_handshake` gives what the line parser gives |
| Handshake.ParsePaddedBuffer | src/main.rs:24-28 | on data followed by zero padding, the parser fails with invalid UTF-8 exactly when the data does, and otherwise parses the data's text followed by NULs |
| Handshake.ParsePaddedText | src/main.rs:24-28 | on an encoded line followed by zero padding, the parser parses the line followed by NULs |
| Handshake.ParseTerminatedLine | src/main.rs:18-20 | if whitespace follows the protocol token, NUL padding leaves the three tokens unchanged |
| Handshake.ParseTerminatedRequest | src/main.rs:16-21 | the encoded request line, with whitespace after the protocol followed by anything and any padding, parses to the line's three tokens |
| Handshake.PlainPadded | src/main.rs:24 | NUL padding adds no whitespace to a whitespace-free token |
| Handshake.ParseUnterminatedLine | src/main.rs:18-20 | with nothing after the protocol token, the NUL padding joins the protocol token |
| Handshake.ParseUnterminatedRequest | src/main.rs:24-28 | the same on the encoded, zero-padded buffer: the protocol token is the protocol followed by NULs |
| Handshake.SeparatorsAppendPlain | src/main.rs:11 | appending whitespace-free text adds no separator |
| Admission.ForbiddenIsText | src/main.rs:36 | the constant `Forbidden`, the rejection bytes, is the UTF-8 encoding of `HTTP/1.1 403 Forbidden\r\n\r\n` |
| Admission.Decide | src/main.rs:28-40 | after the parse: a parse failure, an unresolvable target and a failed connect each end in `Fail`; a resolved host outside the allow set gets exactly the 403 bytes; forwarding happens only to a resolved, allowed and reachable destination, and replays exactly the bytes read |
| Admission.Admit | src/main.rs:23-40 | the whole decision on values: a read error fails; a rejection writes exactly the 403 bytes; a forward goes to an allowed, reachable host and replays exactly the chunk read, not the padded buffer |
| Admission.ReceiveBuffer | src/main.rs:24-26 | the buffer after the read is always 1024 bytes |
| Admission.Receive | src/main.rs:26 | the read puts the chunk at the front of the buffer and leaves the rest untouched |
| Admission.HandleConnection | src/main.rs:23-40 | the method's outcome equals `Admit`; a rejection writes exactly the 403 bytes; a forward happens only after a read, to an allowed host, and replays exactly the bytes read |
| Admission.ForwardOnlyWhenAllowed | src/main.rs:35-40 | before anything goes upstream, all of the following hold: the read succeeded; the padded buffer parsed; its target resolved to the destination; the host is allowed; the connect succeeded. Nothing is written to the client then, and the bytes replayed are the bytes read, not the padding |
| Admission.ForwardWhenApproved | src/main.rs:35-40 | the converse of the row above: a read whose padded buffer parses, with a target that resolves to an allowed, reachable destination, is forwarded there with exactly the chunk, whether or not the line ends in whitespace |
| Admission.RejectExactlyWhenDenied | src/main.rs:35-36 | the 403 is written if and only if a read buffer parses and its target resolves to a host outside the allow set; the 403 is then all that is written, and nothing goes upstream |
| Admission.InvalidUtf8Fails | src/main.rs:17 | read bytes that are not well-formed UTF-8 end the connection with the UTF-8 failure, whatever resolves or is allowed |
| Admission.TooFewTokensFails | src/main.rs:20 | read text with fewer than two whitespace characters ends with the missing target (none) or the missing protocol (one); the padding cannot supply a token |
| Admission.EmptyReadFails | src/main.rs:24-28 | a read of no bytes ends with the missing target |
| Admission.AdmitRequest | src/main.rs:23-40 | a request line whose three tokens are each followed by whitespace, read whole, is decided only by how its target resolves, the allow set and the connect; if forwarded, the whole of what was read is replayed |
| Admission.AdmitGetRequest | src/main.rs:23-40 | the same for `GET <target> HTTP/1.1` followed by CRLF and anything |
| Admission.AllowedRequestIsForwarded | src/main.rs:35-40 | with the allow set {"baidu.com"}, a request for `http://baidu.com/` that resolves to baidu.com:80, which can be reached, is forwarded there with the bytes read |
| Admission.DeniedRequestIsRejected | src/main.rs:35-36 | with the same allow set, a request for `http://example.com/` that resolves to example.com gets the 403 and nothing upstream |

## Left out

- The relay (`src/main.rs:42-55`): the two `io::copy` halves, the shutdowns and `try_join!` are I/O. The model ends at `Forward`, with the bytes to replay.
- `main` (`src/main.rs:59-76`): binding, the accept loop and spawning are I/O and concurrency. The hard-coded allow set {"baidu.com"} appears only in the two scenario lemmas; elsewhere the allow set is a parameter.
- `Url::parse`, `host()` and `port_or_known_default()` (`src/main.rs:30-33`): the `url` crate is not part of this model. They are the parameter `resolve`, whose port is a `u16` (`Port`). The model does not specify lowercasing, default ports or how `Host::to_string` renders IP addresses.
- `TcpStream::connect` (`src/main.rs:38`): a network call. It is the parameter `reachable`.
- The read (`src/main.rs:26`) is a parameter: either a chunk of at most 1024 bytes or an error. How many bytes one read returns is up to the network.
- Writes (`src/main.rs:36`, `src/main.rs:40`): the source ignores their results, so a short or failed write goes unnoticed. `Reject` and `Forward` record the bytes handed to the write, not the bytes delivered.
- `Admission.HandleConnection`: the source awaits the read (`src/main.rs:26`), the writes (`src/main.rs:36`, `src/main.rs:40`) and the connect (`src/main.rs:38`). The model runs the connection as one sequential step, with the read and the connect as parameters.
- `Handshake.IsWhitespace`: the White_Space list is written out from the Unicode Character Database, because the standard library's own table is not part of this model.
