# PowerOn handshake of the AMDaemon client session

`AMDaemon.Client.Session` opens the game client's conversation with its network
server. Its coroutine `SendPowerOnRequestCoroutine` runs in four steps:

1. It checks the machine configuration and stamps the keychip serial into the
   shared field dictionary.
2. It writes the dictionary as an unescaped `key=value&key=value` query, which is
   UTF-8 encoded, zlib compressed and base64 encoded.
3. It posts the result in a hand-made HTTP/1.0 request over a raw TCP connection
   (the Request-Line and headers of section 5 of RFC 1945, with the Content-Length
   of section 10.4).
4. It reads the reply until end of stream and splits the reply body into a
   percent-decoded dictionary. The `uri` entry of that dictionary becomes the
   session's server endpoint, and the endpoint (or `null`) is reported to a
   callback.

The model is in seven modules:

- `Wrappers`: `Option` and `Result`.
- `Text`: the .NET string operations the code relies on. These are:
  - `Trim`;
  - `Split`, with and without `RemoveEmptyEntries`;
  - `Join`;
  - ordinal `IndexOf`;
  - `Int32.ToString`.
- `Percent`: the `%XX` decoding of `Uri.UnescapeDataString`, with a reference encoder.
- `Encoding`: ASCII, UTF-8 and base64 (section 4 of RFC 4648).
- `Codec`: the field dictionary and how it is updated, the query, the request body,
  and the parsing of the reply body into a dictionary.
- `Transport`: the request header and the bytes on the wire, the read loop (a method
  with a `while` loop), the parsing of the response, and `SendRawPowerOnAsync` as a
  whole, over a scripted connection.
- `Handshake`: the coroutine. It has two classes:
  - `FieldTable` is the dictionary that is updated in place.
  - `Session` holds the `_serverEndpoint` field.

  Its effect is stated against a reference function, `PowerOn`.

Two behaviours of the code differ from a naive reading of the protocol. The model
follows the code in both:

- **A repeated key throws.** Two reply segments whose keys decode to the same
  string make `ToDictionary` throw. The task is then faulted, and reading
  `t.Result` rethrows inside the coroutine. So the endpoint stays unchanged and
  `onComplete` is never invoked. `Transport.ParseResponse` returns `Failure` here,
  and `Handshake.PowerOn` then makes no callback.
- **A failure after a success reports the old endpoint.** A failed exchange
  (`null`) leaves `_serverEndpoint` as it was. A later failure therefore still
  reports the endpoint of an earlier success, as `Handshake.RetryAfterSuccess`
  shows. A reply with an empty `uri=` value sets the endpoint to `""`, which is
  reported as `null`.

## Model

| member | source | states |
|---|---|---|
| Text.TrimStart | Client/Session.cs:130 | the result is a suffix of the input; everything it drops is white space; it does not start with white space |
| Text.TrimEnd | Client/Session.cs:130 | the result is a prefix of the input; everything it drops is white space; it does not end with white space |
| Text.Trim | Client/Session.cs:130 | the result neither starts nor ends with white space, is the input itself when the input is already trimmed, and holds only characters of the input |
| Text.TrimIsInfix | Client/Session.cs:130 | the result is the stretch of the input that is left once every leading and every trailing white-space character is dropped |
| Text.Split | Client/Session.cs:133-134 | one part more than there are separators; no part holds the separator; every character of a part is from the input |
| Text.SplitConcat | Client/Session.cs:133-134 | splitting `x`, a separator, `y` gives the parts of `x` followed by the parts of `y` |
| Text.JoinSplit | Client/Session.cs:133-134 | joining the parts of a split with the separator gives back the input |
| Text.SplitJoin | Client/Session.cs:21 | splitting a join of separator-free parts gives back the parts |
| Text.Join | Client/Session.cs:21 | no parts give the empty text; otherwise the text opens with the first part and closes with the last |
| Text.RemoveEmpty | Client/Session.cs:133 | `RemoveEmptyEntries` keeps exactly the non-empty parts, and never more parts than it was given |
| Text.RemoveEmptyConcat | Client/Session.cs:133 | the filter works part by part: filtering two lists in a row is filtering each and putting the results together, so order and repetitions are kept |
| Text.RemoveEmptyOne | Client/Session.cs:133 | a single part is dropped when it is empty and kept otherwise |
| Text.IndexOf | Client/Session.cs:124 | `-1` exactly when the pattern occurs nowhere; otherwise the pattern occurs there and at no earlier position |
| Text.FirstBlankLine | Client/Session.cs:124-130 | after non-empty CRLF-terminated lines and a CRLF, the first `\r\n\r\n` is right at the end of the lines |
| Text.NatToString | Client/Session.cs:82 | the Content-Length digits are non-empty decimal digits without a leading zero |
| Text.ParseNatToString | Client/Session.cs:82 | reading the Content-Length digits back gives the length |
| Percent.PercentDecode | Client/Session.cs:136-137 | never lengthens its input; text without `%` is returned unchanged |
| Percent.DecodeEncode | Client/Session.cs:136-137 | decoding percent-encoded ASCII text gives back the text |
| Encoding.AsciiEncode | Client/Session.cs:73 | one byte per character; ASCII text decodes back to itself |
| Encoding.AsciiDecode | Client/Session.cs:123 | one character per byte: a byte below 0x80 becomes that character and any other byte becomes `?`; the result is always ASCII |
| Encoding.AsciiDecodeEncode | Client/Session.cs:123 | encoding the decoded reply again gives back every byte below 0x80 and `?` for every other byte |
| Encoding.Utf8Encode | Client/Session.cs:22 | at least one byte per character; on ASCII text it agrees with the ASCII encoding |
| Encoding.Base64Encode | Client/Session.cs:29 | four characters for every started group of three bytes |
| Encoding.Base64EncodeAlphabet | Client/Session.cs:29 | base64 text uses only the base64 alphabet and `=`, and so is ASCII |
| Encoding.Base64RoundTrip | Client/Session.cs:29 | decoding base64 text gives back the bytes |
| Codec.Assign | Client/Session.cs:51 | `fields["serial"] = id`: keys stay distinct and the pair is present; an existing key is updated in its place, with every other entry untouched; a new key is appended (enumeration order of a dictionary without removals) |
| Codec.Pair | Client/Session.cs:21 | the `key=value` text of an entry splits back at `=` into the key and the value when neither holds `=` |
| Codec.Pairs | Client/Session.cs:21 | one `key=value` text per entry, in the order of the entries |
| Codec.Query | Client/Session.cs:21 | no entries give the empty query; when no key or value holds `&`, splitting the query at `&` gives back the `key=value` texts, in order |
| Codec.BuildCompressedBase64 | Client/Session.cs:19-30 | the body is ASCII, and its length is that of the base64 form of the compressed UTF-8 query |
| Codec.BodyDecodes | Client/Session.cs:19-30 | base64-decoding the body gives the compressed UTF-8 bytes of the query |
| Codec.QueryIsNotEscaped | Client/Session.cs:21 | nothing is escaped: for all texts `a`, `b`, `c`, `d`, the entry `(a, b&c=d)` gives the same query as the two entries `(a, b)`, `(c, d)` |
| Codec.Segments | Client/Session.cs:133 | each segment is non-empty, free of `&` and made of body characters; an empty body has none and a `&`-free non-empty body is one segment |
| Codec.SegmentsConcat | Client/Session.cs:133 | the segments of `x&y` are the segments of `x` followed by the segments of `y`, which with the contract above fixes them in order and number |
| Codec.KeepPairs | Client/Session.cs:134-135 | at most one entry per segment, and no kept key or value holds `=` |
| Codec.KeepPairsConcat | Client/Session.cs:134-135 | the filter works segment by segment: two lists in a row give the entries of each, in order |
| Codec.KeepPairsOne | Client/Session.cs:134-135 | one segment gives its two `=`-parts as an entry when it splits into exactly two, and nothing otherwise |
| Codec.SplitInTwo | Client/Session.cs:134-135 | a segment splits into exactly two parts `a`, `b` if and only if it is `a=b` with neither part holding `=` |
| Codec.KeepPairsMembership | Client/Session.cs:134-135 | an entry is kept if and only if some segment is exactly its `key=value` with no `=` in either part, so segments with several `=` are dropped |
| Codec.KeepPairsNone | Client/Session.cs:134-135 | segments without `=` give no entries |
| Codec.Unescape | Client/Session.cs:136-137 | a decoded key or value neither starts nor ends with white space; a text without `%` is just trimmed |
| Codec.DecodeEntries | Client/Session.cs:136-137 | entry by entry and in order, the key and the value are each replaced by their unescaped, trimmed form |
| Codec.ToDictionary | Client/Session.cs:136-137 | succeeds if and only if the keys are distinct, and the map then holds exactly those keys, each with its value; otherwise it fails at the first key already seen |
| Codec.ParseBody | Client/Session.cs:133-137 | a body without `=` gives the empty dictionary |
| Codec.ParseBodySkipsEmpty | Client/Session.cs:133 | an empty segment between two `&` changes nothing: `x&&y` parses as `x&y` |
| Codec.ParseBodySkipsMalformed | Client/Session.cs:133-135 | a segment that does not split into exactly two `=`-parts changes nothing: `x&s&y` parses as `x&y` |
| Codec.ParseQuery | Client/Session.cs:133-137 | parsing a query of `&`/`=`-free entries gives the dictionary of their decoded, trimmed entries |
| Codec.EncodeEntries | Client/Session.cs:136-137 | percent-encoded entries use only unreserved characters and `%`, so their query can be split back |
| Codec.EncodedQueryUntrimmed | Client/Session.cs:130 | a query of percent-encoded entries holds no white space, so `Trim` leaves it unchanged |
| Codec.ParseEncodedQuery | Client/Session.cs:130-137 | a trimmed query of percent-encoded ASCII entries reads back as the dictionary of the trimmed entries |
| Transport.HeaderLines | Client/Session.cs:75-82 | seven lines, the last `Content-Length: ` followed by the decimal length |
| Transport.Header | Client/Session.cs:75-83 | the header opens with the `POST ` request line and closes with the blank line `\r\n\r\n` |
| Transport.HeaderBytes | Client/Session.cs:73-85 | for a printable path, the header bytes decode back to the header, whose Content-Length is the body's length |
| Transport.RequestBytes | Client/Session.cs:100-101 | the header write comes first, then one byte per body character; for an ASCII body those bytes decode back to the body |
| Transport.HeaderWellFormed | Client/Session.cs:75-85 | for a printable path every header line is a proper line (non-empty, without CR or LF), and the header is ASCII |
| Transport.RequestFraming | Client/Session.cs:73-101 | on the wire, the first blank line ends the seven header lines; every byte after it is the body; the Content-Length read back is the number of those bytes |
| Transport.StopIndex | Client/Session.cs:114-115 | the read loop stops at the first read that delivers no bytes, and every read before it delivered bytes |
| Transport.Received | Client/Session.cs:109-121 | without a failed read there is always a result |
| Transport.ReceivedIsPrefix | Client/Session.cs:109-121 | the accumulated bytes are a prefix of all the bytes the reads returned |
| Transport.ReceivedAtStop | Client/Session.cs:109-121 | the accumulated response is the in-order concatenation of the chunks before the first zero-length read, or `null` if that read failed |
| Transport.ReceivedIgnoresLaterReads | Client/Session.cs:114-115 | reads after the loop stopped have no influence |
| Transport.StopIndexOfPrefix | Client/Session.cs:114-115 | the stopping read does not move when more reads follow it |
| Transport.ReadToEnd | Client/Session.cs:109-121 | the `while` loop computes exactly the accumulated response |
| Transport.ParseResponse | Client/Session.cs:123-141 | no `\r\n\r\n` gives `null`; a response without `=` gives `null` |
| Transport.ResponseBody | Client/Session.cs:124-130 | after header lines and a blank line, only the trimmed text after the first separator is parsed |
| Transport.LookUpEntries | Client/Session.cs:139-141 | for distinct keys the result is the `uri` value when some entry has key `uri`, and `null` exactly when none does |
| Transport.LookUpUri | Client/Session.cs:139-141 | a throwing parse passes its exception on; otherwise the result is the `uri` value exactly when the dictionary holds `uri`, and `null` when it does not |
| Transport.EncodedReply | Client/Session.cs:123-141 | a reply of percent-encoded entries with distinct trimmed keys gives the trimmed `uri` value, or `null` exactly when there is no `uri` key |
| Transport.ReplyWithEntries | Client/Session.cs:123-141 | a reply whose body parses to distinct entries gives their `uri` value, or `null` exactly when there is none |
| Transport.DuplicateKeyReply | Client/Session.cs:136-137 | two entries whose trimmed keys coincide make the parse throw in place of a last-wins overwrite |
| Transport.ExchangeFailures | Client/Session.cs:87-121 | a failed connect, write, flush or read returns `null` and never throws |
| Transport.Sent | Client/Session.cs:87-102 | the server receives a prefix of the request: nothing without a connection or when the header write fails, the header alone when the body write fails, and the whole request otherwise |
| Transport.Exchange | Client/Session.cs:87-141 | it throws only after a connection whose writes all succeeded and whose reads ended cleanly |
| Transport.ExchangeDelivers | Client/Session.cs:109-123 | after a clean end of stream the result is the parse of the chunks read, decoded as ASCII |
| Transport.ExchangeAsciiReply | Client/Session.cs:109-123 | an ASCII reply in any number of chunks gives the parse of that reply |
| Transport.AsciiReply | Client/Session.cs:123 | ASCII header lines with an ASCII body make an ASCII reply |
| Transport.EncodedExchange | Client/Session.cs:109-141 | a reply of ASCII header lines and percent-encoded entries holding a `uri` key, in any number of chunks, gives the trimmed `uri` value |
| Transport.SendRawPowerOn | Client/Session.cs:70-142 | the bytes sent and the returned result are those the connection's behaviour determines |
| Handshake.FieldTable.constructor | Client/Session.cs:50 | the table holds the given entries |
| Handshake.FieldTable.Put | Client/Session.cs:51 | the dictionary is updated in place by `Assign`, and afterwards holds the pair |
| Handshake.Report | Client/Session.cs:68 | `null` exactly when the endpoint is empty, otherwise the endpoint |
| Handshake.PowerOn | Client/Session.cs:36-69 | keys stay distinct; an invalid config changes nothing, sends nothing and reports `null` once (if there is a callback); a valid one stamps `serial` and either calls nobody or reports the new endpoint once; nothing is sent without a connection |
| Handshake.PostedBody | Client/Session.cs:50-53 | the posted body is ASCII and base64-decodes to the compressed UTF-8 query of the fields with `serial` stamped in |
| Handshake.EndpointFollowsUri | Client/Session.cs:58-66 | the endpoint becomes the `uri` of a successful exchange that found one, and otherwise keeps its prior value |
| Handshake.CallbackOnce | Client/Session.cs:42-68 | for a valid config, nobody is called exactly when the callback is null or the exchange threw; otherwise it is called once with the report of the endpoint |
| Handshake.RequestOnWire | Client/Session.cs:53-101 | once connected, the server receives the whole request when both writes succeed, the header alone when the body write fails, and nothing when the header write fails |
| Handshake.WireFramesBody | Client/Session.cs:53-101 | a server reading what a completed write sent finds the posted body right after the first blank line, and a Content-Length equal to its byte count |
| Handshake.ReportedUri | Client/Session.cs:58-68 | an exchange that delivers `uri` makes `uri` the endpoint and reports it to the callback, if there is one |
| Handshake.EncodedReplyEndpoint | Client/Session.cs:53-141 | end to end: a server answering with ASCII header lines and percent-encoded entries holding `uri` makes the trimmed `uri` value the endpoint, and it is reported to the callback, if there is one |
| Handshake.Session.constructor | Client/Session.cs:34 | a new session starts with an empty endpoint |
| Handshake.Session.SendPowerOnRequest | Client/Session.cs:36-69 | the new field dictionary and endpoint, the callback invocations and the bytes sent are exactly those of `PowerOn`; the dictionary keeps distinct keys |
| Handshake.UnconnectedKeepsEndpoint | Client/Session.cs:58-68 | when the connect fails, a valid handshake keeps the endpoint it had and reports that endpoint to the callback |
| Handshake.RetryAfterSuccess | Client/Session.cs:58-68 | a success with `uri` followed by a failed connect reports `uri` both times |

## Left out

- zlib compression (`Ionic.Zlib.ZlibStream` at best compression) is the function
  parameter `compress`. No property depends on what it computes.
- The TCP connection is the `Link` value. It records whether the connect succeeds,
  how the two writes and the flush end, and the result of each `ReadAsync`. A script
  of reads that runs out stands for end of stream.
- Host and port, the 4096-byte read buffer, and writes that only partly succeed are
  not modelled. The buffer size does not change what is accumulated.
- The `IsCompleted` polling, the coroutine scheduling and the async task machinery
  (`Client/Session.cs:56`) are not modelled. The code has no timeout: a server that
  neither sends nor closes leaves `ReadAsync` pending, the coroutine polls forever and
  `onComplete` is never invoked. Every `Link` script is finite, so the model always
  reaches the end of the exchange, and `Handshake.CallbackOnce` holds only for servers
  that eventually answer or close.
- `AMConfig.Instance` becomes the `Config` value (validity, encoded keychip ID) and
  the `FieldTable` passed in. A null `onComplete` is the flag `hasCallback`.
  `InvalidReason` and `Host` are not modelled.
- The `Debug.Log` and `Debug.LogError` calls are logging and are left out.
- Percent.PercentDecode: decodes only `%XX` escapes of characters below U+0080.
  Other escapes, including the multi-byte UTF-8 sequences that
  `Uri.UnescapeDataString` decodes, are left as written.
- Text.Trim: trims ASCII white space only (tab to carriage return, and space), not
  the rest of Unicode white space. For the trim of the reply body
  (`Client/Session.cs:130`) this is exact, because the reply is decoded as ASCII. The
  trims of keys and values (`Client/Session.cs:136-137`) run on the output of
  `Uri.UnescapeDataString`, which turns `%C2%A0` and `%C2%85` into U+00A0 and U+0085,
  and the code's `Trim` removes those. The model never produces them, because its
  `PercentDecode` leaves multi-byte escapes as written; the difference follows from
  that simplification.
- Codec.Assign: a new key is appended at the end. This assumes that no entry was ever
  removed from `AimeFields`: .NET's `Dictionary` reuses a freed slot, which places a
  later key earlier in the enumeration and so in the query.
- The `serial` entry stays in the configuration's dictionary after the call. This
  assumes that `AMConfig.Instance.AimeFields` hands out one shared instance
  and not a fresh copy on every read.
- Transport.HeaderWellFormed: stated for a path of printable ASCII, which the
  handshake's constant path is.
- Transport.RequestFraming: stated for a path of printable ASCII, which the
  handshake's constant path is.
- Transport.HeaderBytes: its round trip is stated for a path of printable ASCII, which
  the handshake's constant path is.
- Transport.Header: its contract states only the opening `POST ` and the closing blank
  line. The lines between are those of `Transport.HeaderLines`.
- Transport.HeaderLines: its contract states the line count and the
  `Content-Length` line. The six fixed lines are spelled out in its body.
- Encoding.Utf8Encode: only its agreement with the ASCII encoding and its length
  bound are stated. Byte-exact UTF-8 for non-ASCII text is written out but has no
  lemma of its own.
