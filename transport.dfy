/** The raw HTTP/1.0 exchange of `SendRawPowerOnAsync` (Client/Session.cs:70-142): the
    request header and body written to a TCP stream, the reply read until end of stream,
    and the `uri` entry taken from the reply body. The TCP connection is a `Link` value that
    says whether the connect and the writes succeed and what each read returns. */
module Transport {
  import opened Wrappers
  import opened Text
  import opened Encoding
  import opened Codec

  /** The servlet the handshake posts to. */
  const POWER_ON_PATH: string := "/sys/servlet/PowerOn"

  /** The media type of the request body. */
  const FORM_URLENCODED: string := "application/x-www-form-urlencoded"

  /** The blank line that ends an HTTP header. */
  const SEPARATOR: string := "\r\n\r\n"

  // ---------------------------------------------------------------- request

  /** The seven header lines, in order, as the code spells them, without their line ends. */
  function HeaderLines(path: string, len: nat): (ls: seq<string>)
    ensures |ls| == 7 && ls[6] == "Content-Length: " + NatToString(len)
  {
    ["POST " + path + " HTTP/1.0",
     "Connection: Close",
     "Pragma: DFI",
     "User-Agent: Windows/ver.3.0",
     "Host: naominet.jp",
     "Content-Type: " + FORM_URLENCODED,
     "Content-Length: " + NatToString(len)]
  }

  /** The request header: each line closed by CRLF, then the blank line. */
  function Header(path: string, len: nat): (r: string)
    ensures |r| >= 4 && r[|r| - 4..] == SEPARATOR
    ensures |r| >= 5 && r[..5] == "POST "
  {
    var ls := HeaderLines(path, len);
    var first := ls[0];
    assert first[..5] == "POST ";
    ClosedLines(ls, "POST ");
    Lines(ls) + CRLF
  }

  /** Lines followed by a blank line end in the separator and start as the first line does. */
  lemma ClosedLines(ls: seq<string>, start: string)
    requires |ls| > 0 && |start| <= |ls[0]| && ls[0][..|start|] == start
    ensures var r := Lines(ls) + CRLF;
            |r| >= 4 && r[|r| - 4..] == SEPARATOR && |start| <= |r| && r[..|start|] == start
  {
    LinesEnd(ls);
    LinesStart(ls, |start|);
    var l := Lines(ls);
    assert (l + CRLF)[|l + CRLF| - 4..] == l[|l| - 2..] + CRLF;
    assert (l + CRLF)[..|start|] == l[..|start|];
  }

  /** Printable ASCII: what every fixed piece of the header is made of. */
  predicate IsPrintable(l: string) {
    forall i :: 0 <= i < |l| ==> 0x20 <= l[i] as int < 0x7F
  }

  lemma PrintableConcat(a: string, b: string)
    requires IsPrintable(a) && IsPrintable(b)
    ensures IsPrintable(a + b)
  {
    assert forall i :: |a| <= i < |a + b| ==> (a + b)[i] == b[i - |a|];
  }

  lemma PrintableIsLine(l: string)
    requires l != [] && IsPrintable(l)
    ensures IsLine(l) && IsAscii(l)
  {
    assert forall c :: c in l ==> 0x20 <= c as int < 0x7F;
  }

  lemma AsciiConcat(a: string, b: string)
    requires IsAscii(a) && IsAscii(b)
    ensures IsAscii(a + b)
  {
    assert forall i :: |a| <= i < |a + b| ==> (a + b)[i] == b[i - |a|];
  }

  lemma AsciiLines(ls: seq<string>)
    requires forall i :: 0 <= i < |ls| ==> IsAscii(ls[i])
    ensures IsAscii(Lines(ls))
  {
    if ls != [] {
      AsciiLines(ls[1..]);
      AsciiConcat(ls[0], CRLF);
      AsciiConcat(ls[0] + CRLF, Lines(ls[1..]));
    }
  }

  lemma PrintableFixedLines()
    ensures IsPrintable("Connection: Close") && IsPrintable("Pragma: DFI")
    ensures IsPrintable("User-Agent: Windows/ver.3.0") && IsPrintable("Host: naominet.jp")
  {
  }

  lemma PrintableParts()
    ensures IsPrintable("Content-Type: ") && IsPrintable(FORM_URLENCODED)
    ensures IsPrintable("POST ") && IsPrintable(" HTTP/1.0") && IsPrintable("Content-Length: ")
  {
  }

  /** The path of the request line: printable ASCII. */
  lemma PrintablePath()
    ensures IsPrintable(POWER_ON_PATH)
  {
  }

  lemma PrintableDigits(n: nat)
    ensures IsPrintable(NatToString(n))
  {
    var digits := NatToString(n);
    assert forall i :: 0 <= i < |digits| ==> IsDigit(digits[i]);
  }

  /** Every header line is a proper line, and the header is plain ASCII. */
  lemma HeaderWellFormed(path: string, len: nat)
    requires IsPrintable(path)
    ensures forall i :: 0 <= i < 7 ==> IsLine(HeaderLines(path, len)[i])
    ensures IsAscii(Header(path, len))
  {
    var ls := HeaderLines(path, len);
    PrintableFixedLines();
    PrintableParts();
    PrintableDigits(len);
    PrintableConcat("POST ", path);
    PrintableConcat("POST " + path, " HTTP/1.0");
    PrintableConcat("Content-Type: ", FORM_URLENCODED);
    PrintableConcat("Content-Length: ", NatToString(len));
    forall i | 0 <= i < 7
      ensures IsLine(ls[i]) && IsAscii(ls[i])
    {
      PrintableIsLine(ls[i]);
    }
    AsciiLines(ls);
    AsciiConcat(Lines(ls), CRLF);
  }

  /** The header bytes and the body bytes of the request (the two writes, in order). */
  function HeaderBytes(path: string, body: string): (r: seq<Byte>)
    ensures IsPrintable(path) ==> AsciiDecode(r) == Header(path, |body|)
  {
    HeaderIsAscii(path, |body|);
    AsciiEncode(Header(path, |AsciiEncode(body)|))
  }

  lemma HeaderIsAscii(path: string, len: nat)
    ensures IsPrintable(path) ==> IsAscii(Header(path, len))
  {
    if IsPrintable(path) {
      HeaderWellFormed(path, len);
    }
  }

  /** The whole request as it goes over the wire. */
  function RequestBytes(path: string, body: string): (r: seq<Byte>)
    ensures HeaderBytes(path, body) <= r && |r| == |HeaderBytes(path, body)| + |body|
    ensures IsAscii(body) ==> AsciiDecode(r[|HeaderBytes(path, body)|..]) == body
  {
    var h := HeaderBytes(path, body);
    assert (h + AsciiEncode(body))[|h|..] == AsciiEncode(body);
    h + AsciiEncode(body)
  }

  /** A reader of the request finds the header's end at the first blank line, the body
      in every byte after it, and a Content-Length that is the number of those bytes. */
  lemma RequestFraming(path: string, body: string)
    requires IsPrintable(path)
    ensures var wire := RequestBytes(path, body);
            var text := AsciiDecode(wire);
            var i := IndexOf(text, SEPARATOR);
            var len := |AsciiEncode(body)|;
            i >= 0 &&
            text[..i + 2] == Lines(HeaderLines(path, len)) &&
            wire[i + 4..] == AsciiEncode(body) &&
            ParseNat(NatToString(len)) == |wire| - (i + 4)
  {
    var len := |AsciiEncode(body)|;
    var ls := HeaderLines(path, len);
    var h := Header(path, len);
    var b := AsciiEncode(body);
    HeaderWellFormed(path, len);
    DecodeAfterAscii(h, b);
    HeaderPrefix(ls, AsciiDecode(b));
    ParseNatToString(len);
  }

  /** In CRLF-terminated lines, a blank line and anything after it, the first blank line
      closes the lines. */
  lemma HeaderPrefix(ls: seq<string>, rest: string)
    requires |ls| > 0 && forall i :: 0 <= i < |ls| ==> IsLine(ls[i])
    ensures var text := Lines(ls) + CRLF + rest;
            |Lines(ls)| >= 2 && IndexOf(text, SEPARATOR) == |Lines(ls)| - 2 &&
            text[..|Lines(ls)|] == Lines(ls)
  {
    LinesShape(ls);
    FirstBlankLine(ls, rest);
    var L := Lines(ls);
    assert (L + CRLF + rest)[..|L|] == L;
  }

  lemma DecodeAfterAscii(h: string, b: seq<Byte>)
    requires IsAscii(h)
    ensures AsciiDecode(AsciiEncode(h) + b) == h + AsciiDecode(b)
  {
    var e := AsciiEncode(h);
    assert AsciiDecode(e) == h;
    assert AsciiDecode(e + b) == AsciiDecode(e) + AsciiDecode(b);
  }

  // ---------------------------------------------------------------- the link

  /** What one `ReadAsync` does: return some bytes (none at end of stream) or throw. */
  datatype ReadResult = Chunk(bytes: seq<Byte>) | ReadFailed

  /** How the two writes and the flush end. */
  datatype WriteOutcome = Written | HeaderWriteFailed | BodyWriteFailed | FlushFailed

  /** The TCP connection to the server as the code meets it. `replies` are the results of
      the successive replies; a stream whose list runs out is at its end. */
  datatype Link = Link(connects: bool, writes: WriteOutcome, replies: seq<ReadResult>)

  /** A read that the loop keeps: one that returned at least one byte. */
  predicate Delivers(r: ReadResult) {
    r.Chunk? && r.bytes != []
  }

  /** The index of the first read that does not deliver bytes, or the number of replies. */
  function StopIndex(replies: seq<ReadResult>): (k: nat)
    ensures k <= |replies|
    ensures forall j :: 0 <= j < k ==> Delivers(replies[j])
    ensures k < |replies| ==> !Delivers(replies[k])
  {
    if replies == [] || !Delivers(replies[0]) then 0 else 1 + StopIndex(replies[1..])
  }

  /** The bytes of a list of replies, in order. */
  function Concat(replies: seq<ReadResult>): seq<Byte> {
    if replies == [] then [] else (if replies[0].Chunk? then replies[0].bytes else []) + Concat(replies[1..])
  }

  /** The accumulated response of the read loop, or `None` when a read throws before the
      stream ends. */
  function Received(replies: seq<ReadResult>): (r: Option<seq<Byte>>)
    ensures (forall j :: 0 <= j < |replies| ==> replies[j].Chunk?) ==> r.Some?
  {
    if replies == [] || replies[0] == Chunk([]) then Some([])
    else if replies[0].ReadFailed? then None
    else Prepend(replies[0].bytes, Received(replies[1..]))
  }

  /** The accumulated response is a prefix of everything the reads returned. */
  lemma {:induction false} ReceivedIsPrefix(replies: seq<ReadResult>)
    ensures Received(replies).Some? ==> Received(replies).value <= Concat(replies)
  {
    if replies != [] && replies[0] != Chunk([]) && replies[0].Chunk? {
      ReceivedIsPrefix(replies[1..]);
    }
  }

  /** The read loop ends at the first read that delivers nothing: at end of stream it
      yields every byte before, in order; at a failure it yields nothing. */
  lemma {:induction false} ReceivedAtStop(replies: seq<ReadResult>)
    ensures var k := StopIndex(replies);
            Received(replies) == if k < |replies| && replies[k].ReadFailed? then None else Some(Concat(replies[..k]))
  {
    if replies != [] && Delivers(replies[0]) {
      ReceivedAtStop(replies[1..]);
      assert replies[..StopIndex(replies)] == [replies[0]] + replies[1..][..StopIndex(replies[1..])];
    }
  }

  /** Reads after the end of the stream are never looked at. */
  lemma ReceivedIgnoresLaterReads(replies: seq<ReadResult>, later: seq<ReadResult>)
    requires StopIndex(replies) < |replies|
    ensures Received(replies + later) == Received(replies)
  {
    var k := StopIndex(replies);
    assert StopIndex(replies + later) == k by {
      StopIndexOfPrefix(replies, later);
    }
    ReceivedAtStop(replies);
    ReceivedAtStop(replies + later);
    assert (replies + later)[..k] == replies[..k];
  }

  lemma {:induction false} StopIndexOfPrefix(replies: seq<ReadResult>, later: seq<ReadResult>)
    requires StopIndex(replies) < |replies|
    ensures StopIndex(replies + later) == StopIndex(replies)
  {
    if Delivers(replies[0]) {
      StopIndexOfPrefix(replies[1..], later);
      assert (replies + later)[1..] == replies[1..] + later;
    }
  }

  /** The read loop of `SendRawPowerOnAsync` (Client/Session.cs:109-121): it appends the
      bytes of each read until a read returns none, and a read that throws gives `None`. */
  method ReadToEnd(replies: seq<ReadResult>) returns (received: Option<seq<Byte>>)
    ensures received == Received(replies)
  {
    var ms: seq<Byte> := [];
    var n := 0;
    assert replies[n..] == replies;
    assert Received(replies).Some? ==> [] + Received(replies).value == Received(replies).value;
    while true
      invariant 0 <= n <= |replies|
      invariant Received(replies) == Prepend(ms, Received(replies[n..]))
      decreases |replies| - n
    {
      if n == |replies| {
        assert replies[n..] == [] && ms + [] == ms;
        return Some(ms);
      }
      var r := replies[n];
      assert replies[n..] == [r] + replies[n + 1..];
      if r.ReadFailed? {
        return None;
      }
      if |r.bytes| == 0 {
        assert ms + [] == ms;
        return Some(ms);
      }
      PrependTwice(ms, r.bytes, Received(replies[n + 1..]));
      ms := ms + r.bytes;
      n := n + 1;
    }
  }

  /** `bytes` in front of what the rest of the loop accumulates. */
  function Prepend(bytes: seq<Byte>, o: Option<seq<Byte>>): Option<seq<Byte>> {
    match o
    case None => None
    case Some(rest) => Some(bytes + rest)
  }

  lemma PrependTwice(a: seq<Byte>, b: seq<Byte>, o: Option<seq<Byte>>)
    ensures Prepend(a, Prepend(b, o)) == Prepend(a + b, o)
  {
    if o.Some? {
      assert a + (b + o.value) == (a + b) + o.value;
    }
  }

  // ---------------------------------------------------------------- response

  /** The reply's `uri` value; `Success(None)` is the `null` return, and `Failure` is the
      exception `ToDictionary` throws on a duplicate key. */
  function ParseResponse(response: string): (r: Result<Option<string>, Fault>)
    ensures IndexOf(response, SEPARATOR) == -1 ==> r == Success(None)
    ensures '=' !in response ==> r == Success(None)
  {
    var i := IndexOf(response, SEPARATOR);
    if i < 0 then Success(None)
    else
      var respBody := Trim(response[i + 4..]);
      assert forall x :: x in response[i + 4..] ==> x in response;
      LookUpUri(ParseBody(respBody))
  }

  /** The `uri` lookup of Client/Session.cs:139-141 on a parsed body: the value under the
      key `uri`, `null` when there is no such key, and the parse's fault passed on. */
  function LookUpUri(parsed: Result<map<string, string>, Fault>): (r: Result<Option<string>, Fault>)
    ensures r.Failure? <==> parsed.Failure?
    ensures r.Failure? ==> r.error == parsed.error
    ensures parsed.Success? ==> (r.value.Some? <==> "uri" in parsed.value)
    ensures parsed.Success? && "uri" in parsed.value ==> r.value == Some(parsed.value["uri"])
  {
    match parsed
    case Failure(f) => Failure(f)
    case Success(kv) => Success(if "uri" in kv then Some(kv["uri"]) else None)
  }

  /** A reply made of header lines, a blank line and a body is read from its body alone:
      whatever the body holds, the header's blank line is the one that counts. */
  lemma ResponseBody(ls: seq<string>, body: string)
    requires |ls| > 0 && forall i :: 0 <= i < |ls| ==> IsLine(ls[i])
    ensures ParseResponse(Lines(ls) + CRLF + body) == LookUpUri(ParseBody(Trim(body)))
  {
    var head := Lines(ls);
    FirstBlankLine(ls, body);
    assert (head + CRLF + body)[|head| + 2..] == body;
  }

  /** The `uri` entry of a dictionary built from entries with distinct keys. */
  lemma LookUpEntries(es: Entries)
    requires DistinctKeys(es)
    ensures var r := LookUpUri(ToDictionary(es));
            r.Success? &&
            (r.value == None <==> forall i :: 0 <= i < |es| ==> es[i].0 != "uri") &&
            forall i :: 0 <= i < |es| && es[i].0 == "uri" ==> r.value == Some(es[i].1)
  {
    var m := ToDictionary(es).value;
    if "uri" in m {
      var i :| 0 <= i < |es| && es[i].0 == "uri";
      assert m["uri"] == es[i].1;
    }
  }

  /** A server that writes its entries percent-encoded gets its trimmed `uri` value across,
      whatever else it sends, as long as no two trimmed keys coincide. */
  lemma EncodedReply(ls: seq<string>, kvs: Entries)
    requires |ls| > 0 && forall i :: 0 <= i < |ls| ==> IsLine(ls[i])
    requires AsciiEntries(kvs) && DistinctKeys(TrimEntries(kvs))
    ensures var r := ParseResponse(Lines(ls) + CRLF + Query(EncodeEntries(kvs)));
            r.Success? &&
            (r.value == None <==> forall i :: 0 <= i < |kvs| ==> TrimEntries(kvs)[i].0 != "uri") &&
            forall i :: 0 <= i < |kvs| && TrimEntries(kvs)[i].0 == "uri" ==> r.value == Some(TrimEntries(kvs)[i].1)
  {
    ParseEncodedQuery(kvs);
    ReplyWithEntries(ls, Query(EncodeEntries(kvs)), TrimEntries(kvs));
  }

  lemma ReplyWithEntries(ls: seq<string>, body: string, es: Entries)
    requires |ls| > 0 && forall i :: 0 <= i < |ls| ==> IsLine(ls[i])
    requires DistinctKeys(es) && ParseBody(Trim(body)) == ToDictionary(es)
    ensures var r := ParseResponse(Lines(ls) + CRLF + body);
            r.Success? &&
            (r.value == None <==> forall i :: 0 <= i < |es| ==> es[i].0 != "uri") &&
            forall i :: 0 <= i < |es| && es[i].0 == "uri" ==> r.value == Some(es[i].1)
  {
    ResponseBody(ls, body);
    LookUpEntries(es);
  }

  /** A reply whose body repeats a key, after trimming, makes the exchange throw. */
  lemma DuplicateKeyReply(ls: seq<string>, kvs: Entries)
    requires |ls| > 0 && forall i :: 0 <= i < |ls| ==> IsLine(ls[i])
    requires AsciiEntries(kvs) && !DistinctKeys(TrimEntries(kvs))
    ensures ParseResponse(Lines(ls) + CRLF + Query(EncodeEntries(kvs))).Failure?
  {
    ResponseBody(ls, Query(EncodeEntries(kvs)));
    ParseEncodedQuery(kvs);
  }

  // ---------------------------------------------------------------- the exchange

  /** The bytes the server receives: nothing when the connect fails, the header alone
      when the body write fails, and the whole request once both writes went through. */
  function Sent(path: string, body: string, link: Link): (r: seq<Byte>)
    ensures r <= RequestBytes(path, body)
    ensures !link.connects || link.writes == HeaderWriteFailed ==> r == []
    ensures link.connects && link.writes == BodyWriteFailed ==> r == HeaderBytes(path, body)
    ensures link.connects && (link.writes == Written || link.writes == FlushFailed) ==> r == RequestBytes(path, body)
  {
    if !link.connects then []
    else match link.writes
      case HeaderWriteFailed => []
      case BodyWriteFailed => HeaderBytes(path, body)
      case _ => RequestBytes(path, body)
  }

  /** What `SendRawPowerOnAsync` returns: `null` (`Success(None)`) on a failed connect,
      write or read, and otherwise the `uri` of the reply read as ASCII. */
  function Exchange(path: string, body: string, link: Link): (r: Result<Option<string>, Fault>)
    ensures r.Failure? ==> link.connects && link.writes == Written && Received(link.replies).Some?
  {
    if !link.connects || link.writes != Written then Success(None)
    else match Received(link.replies)
      case None => Success(None)
      case Some(bytes) => ParseResponse(AsciiDecode(bytes))
  }

  /** Every failure of the connection returns `null` and never throws. */
  lemma ExchangeFailures(path: string, body: string, link: Link)
    requires !link.connects || link.writes != Written ||
             (StopIndex(link.replies) < |link.replies| && link.replies[StopIndex(link.replies)].ReadFailed?)
    ensures Exchange(path, body, link) == Success(None)
  {
    ReceivedAtStop(link.replies);
  }

  /** A connection that delivers a reply in chunks and then closes passes on the
      reply's `uri`, however the reply was cut into chunks. */
  lemma ExchangeDelivers(path: string, body: string, link: Link)
    requires link.connects && link.writes == Written
    requires StopIndex(link.replies) == |link.replies| || link.replies[StopIndex(link.replies)] == Chunk([])
    ensures Exchange(path, body, link) == ParseResponse(AsciiDecode(Concat(link.replies[..StopIndex(link.replies)])))
  {
    ReceivedAtStop(link.replies);
  }

  /** A server that answers in plain ASCII, in any number of chunks before it closes,
      has its reply read back whole. */
  lemma ExchangeAsciiReply(path: string, body: string, link: Link, reply: string)
    requires link.connects && link.writes == Written
    requires StopIndex(link.replies) == |link.replies| || link.replies[StopIndex(link.replies)] == Chunk([])
    requires IsAscii(reply) && Concat(link.replies[..StopIndex(link.replies)]) == AsciiEncode(reply)
    ensures Exchange(path, body, link) == ParseResponse(reply)
  {
    ExchangeDelivers(path, body, link);
  }

  /** A link that takes the whole request and whose server answers, in any number of
      chunks, with the ASCII header lines `ls` and a body of the percent-encoded entries
      `kvs`, whose `i`-th key is `uri` once trimmed. */
  predicate EncodedReplyLink(link: Link, ls: seq<string>, kvs: Entries, i: nat)
  {
    && link.connects && link.writes == Written
    && |ls| > 0 && (forall j :: 0 <= j < |ls| ==> IsLine(ls[j]) && IsAscii(ls[j]))
    && AsciiEntries(kvs) && DistinctKeys(TrimEntries(kvs))
    && i < |kvs| && TrimEntries(kvs)[i].0 == "uri"
    && (StopIndex(link.replies) == |link.replies| || link.replies[StopIndex(link.replies)] == Chunk([]))
    && Concat(link.replies[..StopIndex(link.replies)]) == AsciiEncode(Lines(ls) + CRLF + Query(EncodeEntries(kvs)))
  }

  /** A server that answers, in any number of chunks, with ASCII header lines and a body
      of percent-encoded entries holding a `uri` gets the trimmed `uri` value across. */
  lemma EncodedExchange(path: string, body: string, link: Link, ls: seq<string>, kvs: Entries, i: nat)
    requires EncodedReplyLink(link, ls, kvs, i)
    ensures Exchange(path, body, link) == Success(Some(TrimEntries(kvs)[i].1))
  {
    var reply := Lines(ls) + CRLF + Query(EncodeEntries(kvs));
    EncodedQueryAscii(kvs);
    AsciiReply(ls, Query(EncodeEntries(kvs)));
    ExchangeAsciiReply(path, body, link, reply);
    EncodedReply(ls, kvs);
  }

  /** A reply of ASCII header lines and percent-encoded entries is plain ASCII. */
  lemma AsciiReply(ls: seq<string>, body: string)
    requires forall i :: 0 <= i < |ls| ==> IsAscii(ls[i])
    requires IsAscii(body)
    ensures IsAscii(Lines(ls) + CRLF + body)
  {
    AsciiLines(ls);
    AsciiConcat(Lines(ls), CRLF);
    AsciiConcat(Lines(ls) + CRLF, body);
  }

  /** `SendRawPowerOnAsync(host, 80, path, body)`: `wire` is what the server receives and
      `response` what the task completes with. */
  method SendRawPowerOn(path: string, body: string, link: Link)
    returns (wire: seq<Byte>, response: Result<Option<string>, Fault>)
    ensures wire == Sent(path, body, link)
    ensures response == Exchange(path, body, link)
  {
    var bodyBytes := AsciiEncode(body);
    var len := |bodyBytes|;
    var header := Header(path, len);
    var headerBytes := AsciiEncode(header);
    if !link.connects {
      return [], Success(None);
    }
    if link.writes == HeaderWriteFailed {
      return [], Success(None);
    }
    wire := headerBytes;
    if link.writes == BodyWriteFailed {
      return wire, Success(None);
    }
    wire := wire + bodyBytes;
    if link.writes == FlushFailed {
      return wire, Success(None);
    }
    var received := ReadToEnd(link.replies);
    if received.None? {
      return wire, Success(None);
    }
    var responseText := AsciiDecode(received.value);
    response := ParseResponse(responseText);
  }
}
