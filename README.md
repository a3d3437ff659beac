# fobserver wire-protocol core, modelled in Dafny

fobserver is a small HTTP/1.x server library written in Rust. This project
models the part of it that turns bytes and text into messages and back:

- the `Method` and `Version` tokens and the fixed status-code catalogue;
- `HTTPRequest::from_str`, the request parser. It reads the request line,
  then `Name: Value` header lines up to the first empty line, then a body
  made of the remaining lines;
- the header and cookie helpers `get_header`, `get_cookies` and `get_cookie`;
- `HTTPResponse::to_string`, the status line and header serialiser;
- `Server::write_response`. It forces `Transfer-Encoding: chunked` and
  writes the response head and a blank line. It then writes the body in
  chunks of at most 4096 bytes, each framed by its hexadecimal size and
  CRLF, and ends with the zero-size chunk;
- the exact-match `Router`, a table from (method, path, version) to a
  handler.

Modules:

- `Wrappers`: Option and Result.
- `Strings`: the `str` operations the parser relies on — `lines`,
  `split_whitespace`, `trim`, `split`, `splitn(2, _)`, `join` and
  `to_ascii_uppercase`.
- `Encoding`: bytes, the UTF-8 encoding behind `as_bytes`, and `{:X}`
  hexadecimal formatting.
- `Http`: `src/http.rs`.
- `Server`: `write_response` from `src/lib.rs`. The TCP stream is a class
  whose only state is the sequence of bytes written to it.
- `Routing`: `src/router.rs`, as a class whose `routes` map field
  `AddRoute` updates in place.

The request parser and the cookie helpers are written twice:

- as methods with the source's loops (`ParseRequest` with `ReadFields`, and
  `GetCookies`);
- as declarative functions (`RequestFromStr`, `CookieJar`).

Each method is proved equal to its function, and the properties are proved
about the functions.

For the response writer:

- `WireFormat` states the bytes that `write_response` writes.
- `WriteResponse` is proved to append exactly those bytes.
- A decoder for the chunked body (`DecodeChunked`) is proved to read the
  body back from what was written.

`HTTPResponse::to_string` iterates a `HashMap`, whose order is unspecified.
The model therefore takes the order as a parameter: any duplicate-free
listing of the header names (`IsKeyOrder`). It then proves that the
rendered header lines do not depend on that order, up to permutation.

Each error that `from_str`, `get_cookies` and `get_cookie` raise through
`anyhow` is a distinct variant of `HttpError`.

Where the code and its documentation differ, the model follows the code:

- Cookie entries are not trimmed. For `a=1; b=2` the second name is ` b`,
  leading space included.
- The catalogue is exactly its 30 variants. It has no 201, 305, 306, 402, 407 or 418 entry (`CatalogueGaps`).
- `CODE409` renders as `409 Conflict` although its comment names 418.
- 503 renders as `503 Service Unabailable`.
- The response head uses bare `\n` line ends and ends in `\n\n`.

## Model

| member | source | states |
|---|---|---|
| Http.ParseMethod | src/http.rs:22-35 | an accepted token upper-cases to the method's name; a rejected one is `NoMatchingMethod` and upper-cases to no method name |
| Http.MethodRoundTrip | src/http.rs:22-53 | parsing `m.to_string()` gives back `m`, for every method |
| Http.ParseMethodIff | src/http.rs:22-35 | a token parses to `m` exactly when its ASCII upper-case form is `m`'s name |
| Http.ParseMethodCaseInsensitive | src/http.rs:23 | parsing a token and parsing its upper-case form agree |
| Http.MethodNameIsUppercase | src/http.rs:41-53 | every method name is its own upper-case form |
| Http.ParseVersion | src/http.rs:70-78 | an accepted token upper-cases to the version's name; a rejected one is `NoMatchingVersion` and upper-cases to no version name |
| Http.VersionRoundTrip | src/http.rs:70-91 | parsing `v.to_string()` gives back `v`, for every version |
| Http.ParseVersionIff | src/http.rs:70-78 | a token parses to `v` exactly when its upper-case form is `v`'s name |
| Http.ParseVersionCaseInsensitive | src/http.rs:71 | version parsing ignores ASCII case |
| Http.VersionNameIsUppercase | src/http.rs:84-91 | every version name is its own upper-case form |
| Http.StatusTextShape | src/http.rs:133-167 | every status text starts with the variant's three-digit code and a space, followed by a non-empty reason |
| Http.InformationalTextShape | src/http.rs:135-137 | the 1xx texts start with their code and a space |
| Http.SuccessTextShape | src/http.rs:138-143 | the 2xx texts start with their code and a space |
| Http.RedirectionTextShape | src/http.rs:144-150 | the 3xx texts start with their code and a space |
| Http.ClientErrorTextShape | src/http.rs:151-158 | the 4xx texts start with their code and a space |
| Http.ServerErrorTextShape | src/http.rs:159-162 | 500 to 503 start with their code and a space |
| Http.GatewayErrorTextShape | src/http.rs:163-165 | 504, 505 and 511 start with their code and a space |
| Http.StatusTextExact | src/http.rs:138-162 | the exact texts of 503 (misspelt), 409 and 200 |
| Http.StatusTextInjective | src/http.rs:133-167 | different variants have different texts |
| Http.CodeOfNumber | src/http.rs:96-128 | the number each variant carries identifies that variant |
| Http.CodeNumber | src/http.rs:96-128 | each variant carries a number from 100 to 599 |
| Http.CatalogueGaps | src/http.rs:96-128 | no variant carries 201, 305, 306, 402, 407 or 418 |
| Http.StatusTextSingleLine | src/http.rs:133-167 | no status text contains a line feed |
| Http.DecimalDigitsDetermine | src/http.rs:133-167 | three decimal digits determine a code below 1000 |
| Http.InsertAllKeys | src/http.rs:219 | the keys of a map built by inserting pairs in order are exactly the keys of the pairs |
| Http.InsertAllLast | src/http.rs:219 | in such a map, a key maps to the value of the last pair that has it |
| Http.InsertAllHas | src/http.rs:219 | a key is in the map exactly when some pair has it |
| Http.InsertAllSnoc | src/http.rs:219 | inserting one more pair is one more map update |
| Http.ParseRequestLine | src/http.rs:188-204 | no token gives `MissingMethod`; a bad first token gives `NoMatchingMethod`; one token gives `MissingPath`; two give `MissingVersion`; a bad third gives `NoMatchingVersion`; three or more tokens with a good method and version give exactly that method, the second token as path and that version; on success the method, path and version are read from the first three tokens |
| Http.RequestLineExtraTokens | src/http.rs:191-204 | text after a line of three or more tokens, past a whitespace character, does not change how the line parses: tokens after the third are ignored |
| Http.HeaderField | src/http.rs:212-218 | a header line has no field exactly when it has no ':' |
| Http.HeaderFieldSplit | src/http.rs:212-218 | a header line splits at its first ':' only, and both sides are trimmed |
| Http.BlankIndex | src/http.rs:208-211 | the header loop stops at the first empty line: every earlier line is non-empty |
| Http.HeaderPairsSpec | src/http.rs:208-220 | the header block fails exactly when one of its lines has no ':'; otherwise it has one field per line, that line's split |
| Http.ReadFields | src/http.rs:207-220 | the header loop stops at the first empty line; it fails as the block does; otherwise its map is the block's fields inserted in order |
| Http.ParseRequest | src/http.rs:184-236 | the parser with its loops equals the declarative `RequestFromStr` |
| Http.RequestInvalidIff | src/http.rs:188-190 | "Invalid request" is raised exactly for the empty text |
| Http.RequestMalformedIff | src/http.rs:212-218 | after a good request line, parsing fails with `MalformedHeader` exactly when a line of the header block has no ':' |
| Http.RequestHeaders | src/http.rs:207-220 | a parsed request's headers are the fields of its header block, inserted in order |
| Http.RequestHeaderNames | src/http.rs:207-220 | a name is a header of the parsed request exactly when some header line's trimmed name is that name |
| Http.RequestHeaderLastWins | src/http.rs:219 | a later line with the same name overwrites an earlier one: `get_header` returns the value of the last line with that name |
| Http.FieldNames | src/http.rs:207-220 | the names in a block's map are the names of its lines |
| Http.FieldLastWins | src/http.rs:219 | in a block's map, each name holds the value of its last line |
| Http.HeaderFieldOfLine | src/http.rs:212-218 | a `name: value` line with trimmed parts splits back into that name and value |
| Http.HeaderPairsAll | src/http.rs:208-220 | a block whose every line splits as given yields exactly those fields |
| Http.RequestLineTokens | src/http.rs:191 | a request line written from its three parts splits on whitespace into those parts |
| Http.RequestLineRoundTrip | src/http.rs:188-204 | the request line written from method, path and version parses back to them |
| Http.RequestTextLines | src/http.rs:185 | a request written with CRLF line ends is, as `lines`, its request line, field lines, an empty line and the lines of the body |
| Http.RequestTextBlocks | src/http.rs:185-227 | in a written request, the header block is exactly the field lines and the body lines are the lines of the body |
| Http.RequestRoundTrip | src/http.rs:184-236 | parsing a written request gives back its method, path and version, the fields inserted in order, and the body, absent when it is empty |
| Http.ParseRequestExample | src/http.rs:184-236 | `GET /foo HTTP/1.1`, one `Host` header and an empty body parse as expected, with no body |
| Http.ExampleRequestText | src/http.rs:184-236 | the written form of that request is its CRLF text |
| Http.GetHeader | src/http.rs:250-255 | a header is found exactly when the name is a key, and then it is that key's value |
| Http.CookieEntrySpec | src/http.rs:274-277 | a cookie's name is the text before the entry's first '=', and its value is the text after it, up to the next '=' or the end |
| Http.CookiePairs | src/http.rs:273-280 | one pair per ';'-separated entry, in order |
| Http.GetCookies | src/http.rs:266-283 | the loop over the entries equals `CookieJar`: no Cookie header is an error, otherwise the entries are inserted in order |
| Http.GetCookie | src/http.rs:295-307 | equals `CookieValue`: the error of `get_cookies`, the named cookie, or not found |
| Http.CookieValueNoHeader | src/http.rs:268-271 | the lookup fails for want of a header exactly when there is no Cookie header |
| Http.CookieValueNotFoundIff | src/http.rs:298-305 | with a Cookie header, a name is not found exactly when no entry carries it |
| Http.CookieValueLastWins | src/http.rs:279 | a name maps to the value of its last entry |
| Http.CookieJarOfTwo | src/http.rs:266-283 | `a=x;b=y` gives the cookies a and b with values x and y |
| Http.CookieEntryOf | src/http.rs:274-277 | the entry `a=x` splits into name a and value x |
| Http.RenderFields | src/http.rs:326-330 | one `k: v` line per header name, in iteration order |
| Http.ResponseTextLines | src/http.rs:321-332 | split at line feeds, the response text is the status line followed by the header lines, or by one empty line when there are no headers |
| Http.InsertAllEntries | src/http.rs:326-330 | the rendered names and values, inserted in order, rebuild the header map |
| Http.ResponseFieldsRoundTrip | src/http.rs:326-330 | header lines rendered by `to_string` are read back by the request parser's header loop as the same map |
| Http.RenderFieldsPermutation | src/http.rs:326-330 | listing the same names in another order permutes the rendered lines |
| Http.KeyOrdersPermutation | src/http.rs:326-327 | any two iteration orders of one map are permutations of each other |
| Http.RenderFieldsOrderFree | src/http.rs:326-330 | whatever the iteration order, the rendered header lines are the same multiset |
| Strings.ToAsciiUppercase | src/http.rs:23 | `to_ascii_uppercase` keeps the length and upper-cases each character on its own |
| Strings.UppercaseIdempotent | src/http.rs:23 | upper-casing twice is upper-casing once |
| Strings.LinesEmptyIff | src/http.rs:185 | a text has no lines exactly when it is empty |
| Strings.LinesNoNewline | src/http.rs:185 | no line contains a line feed |
| Strings.LinesCons | src/http.rs:185 | a line ended by CRLF or by LF is one line, without its line end |
| Strings.LinesOfCrlf | src/http.rs:185 | `lines` takes CRLF-terminated lines apart again |
| Strings.JoinLines | src/http.rs:224 | a body without '\r' that does not end in '\n' is rebuilt by joining its lines with '\n' |
| Strings.TrimSliceIsTrim | src/http.rs:213-217 | the position-based trim of a slice is `trim` of that slice |
| Strings.TrimFromSpec | src/http.rs:213-217 | what `trim` skips at the front is whitespace, and it stops at the first character that is not |
| Strings.TrimBackSpec | src/http.rs:213-217 | what `trim` drops at the end is whitespace, and it stops at the last character that is not |
| Strings.TrimIdentity | src/http.rs:213-217 | a string that neither begins nor ends with whitespace is its own trim |
| Strings.SplitWhitespace | src/http.rs:191 | the tokens are non-empty and free of whitespace |
| Strings.SplitWhitespaceOfJoin | src/http.rs:191 | words joined by single spaces split back into the same words |
| Strings.SplitWhitespaceAllBlank | src/http.rs:191 | an all-whitespace line has no tokens |
| Strings.SplitWhitespaceEmpty | src/http.rs:191 | the empty string has no tokens |
| Strings.SplitWhitespaceLastWord | src/http.rs:191 | a non-empty word without whitespace is its own single token |
| Strings.SplitWhitespaceAt | src/http.rs:191 | every whitespace character separates tokens: the tokens of `a + [c] + b` are those of `a` followed by those of `b`; with the two rows above this fixes the tokens as the maximal non-whitespace runs, in order |
| Strings.Split | src/http.rs:273-274 | `split` always gives at least one piece, and no piece contains the separator |
| Strings.JoinSplit | src/http.rs:273-274 | joining the pieces with the separator gives back the string |
| Strings.SplitJoin | src/http.rs:273-274 | pieces free of the separator come back unchanged from a split of their join |
| Strings.SplitPair | src/http.rs:273-274 | two separator-free pieces joined by the separator split back apart |
| Strings.SplitOnce | src/http.rs:212 | `splitn(2, c)` has a second piece exactly when `c` occurs; the string is then the first piece, `c` and the rest, and the first piece has no `c` |
| Strings.IndexOf | src/http.rs:212 | the first occurrence of a character, or the length when there is none |
| Encoding.CharUtf8 | src/lib.rs:164 | UTF-8 of one character: one byte equal to the code point below 0x80, else a lead byte and continuation bytes |
| Encoding.Utf8Append | src/lib.rs:164 | the bytes of a concatenation are the concatenated bytes |
| Encoding.Utf8Ascii | src/lib.rs:172 | an ASCII string has one byte per character, equal to its code point |
| Encoding.Hex | src/lib.rs:172 | `{:X}` is upper-case hexadecimal digits with no leading zero, and "0" for zero |
| Encoding.HexBytesValue | src/lib.rs:172 | the bytes of `{:X}` of n are hexadecimal digits whose value is n |
| Server.ChunksFrom | src/lib.rs:166-177 | each chunk has 1 to 4096 bytes, all but the last exactly 4096, and together they are exactly the rest of the body |
| Server.ForceChunked | src/lib.rs:154-156 | `Transfer-Encoding` is `chunked`, overwriting any earlier value; every other header, the version, the status and the body are unchanged |
| Server.Min | src/lib.rs:170 | `min` is the smaller argument |
| Server.WriteResponse | src/lib.rs:153-183 | the stream receives exactly the head, a blank line, the framed chunks and the last chunk |
| Server.WriteChunkedBody | src/lib.rs:166-180 | the chunk loop and the terminator append exactly the chunked body |
| Server.DecodeFrame | src/lib.rs:172-174 | a frame (hex size, CRLF, bytes, CRLF) reads back as its bytes, followed by what follows it |
| Server.DecodeFrames | src/lib.rs:166-180 | the frames of the chunks, then the last chunk, read back as the concatenated chunks |
| Server.DecodeLastChunk | src/lib.rs:180 | the last chunk reads as the end of the body |
| Server.ChunkedBodyRoundTrip | src/lib.rs:166-180 | the chunked body reads back as the response body; an absent body reads as empty |
| Server.WireFormatRoundTrip | src/lib.rs:153-183 | the output starts with the head, and what follows it reads back as the body |
| Server.WireFormatEnds | src/lib.rs:166-180 | the output always ends with `0\r\n\r\n`; with an absent or empty body nothing comes between the head and it |
| Server.EmptyBodyAsAbsent | src/lib.rs:166-178 | an empty body and an absent body are written alike |
| Server.FrameSizeLine | src/lib.rs:172 | the size line of a frame reads back the frame's size |
| Server.Stream.WriteAll | src/lib.rs:164 | `write_all` appends all of its bytes |
| Routing.Router.constructor | src/router.rs:16-20 | a new router has no routes |
| Routing.Router.AddRoute | src/router.rs:32-41 | the handler is registered under the triple, replacing any earlier one; requests with that triple now route to it, and every other request routes as before |
| Routing.Router.Route | src/router.rs:55-61 | a request is routed exactly when its own (method, path, version) is registered, and to that handler |
| Routing.Lookup | src/router.rs:56-60 | the lookup finds exactly the registered key of the request, and its handler |
| Routing.EmptyRoutesNothing | src/router.rs:16-20 | with no routes, no request is routed |
| Routing.RouteAfterAdd | src/router.rs:32-61 | after registering a triple, every request with it gets the new handler |
| Routing.RouteOthersKept | src/router.rs:39-40 | registering a triple leaves the routing of every other request as it was |
| Routing.AddRouteOverwrites | src/router.rs:39-40 | registering the same triple twice keeps only the second handler |
| Routing.RouteIgnoresHeadersAndBody | src/router.rs:55-61 | routing looks only at method, path and version |
| Routing.RouteExact | src/router.rs:55-61 | a request is routed only when its own triple was registered |
| Routing.RegisteredLastWins | src/router.rs:32-61 | after a sequence of registrations, a request is unrouted exactly when its triple was never registered; otherwise it routes to the last handler registered under its triple |
| Http.MethodName | src/http.rs:41-53 | definition: the nine names as written; properties in `MethodRoundTrip`, `MethodNameIsUppercase` |
| Http.VersionName | src/http.rs:84-91 | definition: the four `HTTP/x.y` names; properties in `VersionRoundTrip`, `VersionNameIsUppercase` |
| Http.StatusText | src/http.rs:133-167 | definition: the 30 texts as written; properties in `StatusTextShape`, `StatusTextInjective`, `StatusTextExact`, `StatusTextSingleLine` |
| Http.HeaderPairs | src/http.rs:207-220 | definition: the fields of a header block, or none when a line has no ':'; properties in `HeaderPairsSpec`, `FieldNames`, `FieldLastWins` |
| Http.FieldLines | src/http.rs:207-211 | definition: the lines after the request line up to the first empty one; properties in `RequestTextBlocks` |
| Http.BodyLines | src/http.rs:223-227 | definition: the lines after that empty line; properties in `RequestTextBlocks`, `RequestRoundTrip` |
| Http.RequestFromStr | src/http.rs:184-236 | definition: the declarative parser; properties in `RequestInvalidIff`, `RequestMalformedIff`, `RequestHeaders`, `RequestRoundTrip`, and `ParseRequest` equals it |
| Http.CookieEntry | src/http.rs:274-277 | definition: the first two '='-pieces of an entry; properties in `CookieEntrySpec`, `CookieEntryOf` |
| Http.CookieJar | src/http.rs:266-283 | definition: the cookie map, or `NoCookieHeader`; properties in `CookieJarOfTwo`, and `GetCookies` equals it |
| Http.CookieValue | src/http.rs:295-307 | definition: one cookie's value or an error; properties in `CookieValueNoHeader`, `CookieValueNotFoundIff`, `CookieValueLastWins` |
| Http.StatusLine | src/http.rs:323-325 | definition: version name, a space, status text; properties in `ResponseTextLines` |
| Http.ResponseText | src/http.rs:321-332 | definition: the status line, '\n', the header lines joined by '\n'; properties in `ResponseTextLines`, `RenderFieldsOrderFree`, `ResponseFieldsRoundTrip` |
| Strings.Lines | src/http.rs:185 | definition: `str::lines`; properties in `LinesEmptyIff`, `LinesNoNewline`, `LinesCons`, `LinesOfCrlf`, `JoinLines` |
| Strings.Trim | src/http.rs:213-217 | definition: `str::trim`; properties in `TrimFromSpec`, `TrimBackSpec`, `TrimIdentity`, `TrimSliceIsTrim` |
| Strings.Join | src/http.rs:224 | definition: `join`; properties in `JoinLines`, `JoinSplit`, `SplitJoin` |
| Encoding.Utf8 | src/lib.rs:164 | definition: `as_bytes` of a string; properties in `CharUtf8`, `Utf8Append`, `Utf8Ascii` |
| Encoding.HexRunSpec | src/lib.rs:172 | the run of hexadecimal digits at the front of a byte sequence is the longest such prefix: all its bytes are digits and the next byte is not |
| Server.Frame | src/lib.rs:172-174 | definition: one chunk's writes; properties in `FrameParts`, `DecodeFrame` |
| Server.ChunkedBody | src/lib.rs:166-180 | definition: the frames of `ChunksFrom` and the last chunk; properties in `ChunkedBodyRoundTrip`, `WriteChunkedBody` |
| Server.Head | src/lib.rs:164 | definition: the bytes of `to_string` of the forced-chunked response and "\n\n"; properties in `WireFormatRoundTrip`, `WireFormatEnds` |
| Server.WireFormat | src/lib.rs:153-183 | definition: the head, then the chunked body of the forced-chunked response; properties in `WireFormatRoundTrip`, `WireFormatEnds`, `EmptyBodyAsAbsent`, and `WriteResponse` writes it |
| Routing.KeyOf | src/router.rs:55-61 | definition: the (method, path, version) a request is routed by; properties in `RouteIgnoresHeadersAndBody`, `RouteExact` |
| Routing.Registered | src/router.rs:32-41 | definition: the table after a sequence of `add_route` calls; properties in `RegisteredLastWins` |

## Left out

- `Server::new` and `Server::start` (src/lib.rs:107-224) are left out: TCP binding, the accept loop, a thread per connection and `RwLock` sharing are I/O and concurrency. Handlers are application code; the router holds them as values of a type parameter.
- `Server::read_request` (src/lib.rs:126-141) is left out: socket reads, the short-read heuristic and `String::from_utf8_lossy` are I/O. A short first read ends the loop early. A request that fills one 4096-byte read and then sends more makes `dim` exceed 4096, so `[..dim]` indexes past the 4096-byte decoded buffer and panics, unless replacement characters lengthened the decoded text. Neither case is modelled. The parser starts from the decoded text.
- `src/args.rs` is not part of this model. It is type-erased state shared across threads, with no logic to state.
- Logging and the wording of `anyhow` messages are left out. Each error is a tagged variant.
- Errors from `write_all` are left out: the stream accepts every write.
- `HashMap` iteration order is not modelled. It is the `order` parameter of the response writer, and the order-independence lemmas cover every choice.
- Http.GetCookies: requires every entry of the Cookie header to contain '='. The source panics on `unwrap` otherwise, and a panic is not modelled.
- Http.GetCookie: has the same precondition as `GetCookies`, for the same reason.
- Server.WriteResponse: the head is written with bare `\n` line ends and ends in `\n\n`, exactly as the code does. It does not follow the CRLF head of section 2.1 of RFC 9112.
- The chunk decoder `DecodeChunked` is only a specification device: the library never reads chunked bodies. It reads hexadecimal sizes in either case and with leading zeros, and it accepts no chunk extensions and no trailers.
- Strings.Lines: models current `str::lines`, where a final line that ends in a bare '\r' with no '\n' keeps that '\r'. Older Rust releases dropped it.
- Unicode case mapping beyond ASCII is not relevant: only `to_ascii_uppercase` is used. Strings are sequences of Unicode scalar values.
