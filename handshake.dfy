/** The PowerOn handshake of `Session` (Client/Session.cs:31-69): validate the
    configuration, stamp the keychip serial into the shared field dictionary, post the
    compressed query and keep the returned `uri` as the server endpoint. */
module Handshake {
  import opened Wrappers
  import opened Text
  import opened Encoding
  import opened Codec
  import opened Transport

  /** The parts of `AMConfig.Instance` the handshake reads. */
  datatype Config = Config(isValid: bool, keychipId: string)

  /** `AMConfig.Instance.AimeFields`: a dictionary that the handshake updates in place.
      The model assumes that the property hands out one shared instance, so that the
      `serial` entry outlives the call. */
  class FieldTable {
    var entries: Entries

    ghost predicate Valid()
      reads this
    {
      DistinctKeys(entries)
    }

    constructor(initial: Entries)
      requires DistinctKeys(initial)
      ensures Valid() && entries == initial
    {
      entries := initial;
    }

    /** `fields[key] = value`. */
    method Put(key: string, value: string)
      requires Valid()
      modifies this
      ensures Valid() && entries == Assign(old(entries), key, value)
      ensures (key, value) in entries
    {
      entries := Assign(entries, key, value);
    }
  }

  /** What `onComplete` receives for an endpoint: the endpoint, or `null` while it is empty. */
  function Report(endpoint: string): (r: Option<string>)
    ensures r == None <==> endpoint == ""
    ensures r.Some? ==> r.value == endpoint
  {
    if |endpoint| > 0 then Some(endpoint) else None
  }

  /** What one run of the coroutine leaves behind: the field dictionary, the server
      endpoint, the callback invocations and the bytes the server received. */
  datatype Outcome = Outcome(fields: Entries, endpoint: string, calls: seq<Option<string>>, wire: seq<Byte>)

  /** The whole effect of `SendPowerOnRequestCoroutine` on `fields` and `endpoint`, with
      `hasCallback` false when `onComplete` is null. */
  function PowerOn(config: Config, fields: Entries, endpoint: string, link: Link,
                   compress: seq<Byte> -> seq<Byte>, hasCallback: bool): (o: Outcome)
    requires DistinctKeys(fields)
    ensures DistinctKeys(o.fields)
    ensures !config.isValid ==> o == Outcome(fields, endpoint, if hasCallback then [None] else [], [])
    ensures config.isValid ==> o.fields == Assign(fields, "serial", config.keychipId)
    ensures config.isValid ==> o.calls == [] || o.calls == [Report(o.endpoint)]
    ensures !config.isValid || !link.connects ==> o.wire == []
  {
    if !config.isValid then
      Outcome(fields, endpoint, if hasCallback then [None] else [], [])
    else
      var stamped := Assign(fields, "serial", config.keychipId);
      var body := BuildCompressedBase64(stamped, compress);
      var wire := Sent(POWER_ON_PATH, body, link);
      match Exchange(POWER_ON_PATH, body, link)
      case Failure(_) => Outcome(stamped, endpoint, [], wire)
      case Success(uri) =>
        var next := if uri.Some? then uri.value else endpoint;
        Outcome(stamped, next, if hasCallback then [Report(next)] else [], wire)
  }

  /** The body the coroutine posts for a valid configuration. */
  function PostedBody(config: Config, fields: Entries, compress: seq<Byte> -> seq<Byte>): (r: string)
    requires DistinctKeys(fields)
    ensures IsAscii(r)
    ensures Base64Decode(r) == Some(compress(Utf8Encode(Query(Assign(fields, "serial", config.keychipId)))))
  {
    BodyDecodes(Assign(fields, "serial", config.keychipId), compress);
    BuildCompressedBase64(Assign(fields, "serial", config.keychipId), compress)
  }

  /** The endpoint changes only to the `uri` of a successful exchange, and always does. */
  lemma EndpointFollowsUri(config: Config, fields: Entries, endpoint: string, link: Link,
                           compress: seq<Byte> -> seq<Byte>, hasCallback: bool)
    requires DistinctKeys(fields) && config.isValid
    ensures var o := PowerOn(config, fields, endpoint, link, compress, hasCallback);
            var result := Exchange(POWER_ON_PATH, PostedBody(config, fields, compress), link);
            (result.Success? && result.value.Some? ==> o.endpoint == result.value.value) &&
            (!(result.Success? && result.value.Some?) ==> o.endpoint == endpoint)
  {
  }

  /** `onComplete` is called once with the reported endpoint, unless it is null or the
      exchange threw, in which case nobody is called. */
  lemma CallbackOnce(config: Config, fields: Entries, endpoint: string, link: Link,
                     compress: seq<Byte> -> seq<Byte>, hasCallback: bool)
    requires DistinctKeys(fields) && config.isValid
    ensures var o := PowerOn(config, fields, endpoint, link, compress, hasCallback);
            var result := Exchange(POWER_ON_PATH, PostedBody(config, fields, compress), link);
            (o.calls == [] <==> !hasCallback || result.Failure?) &&
            (o.calls != [] ==> o.calls == [Report(o.endpoint)])
  {
  }

  /** Once connected and written, the server receives the framed request with the
      stamped fields as its body; a failed write leaves at most the header. */
  lemma RequestOnWire(config: Config, fields: Entries, endpoint: string, link: Link,
                      compress: seq<Byte> -> seq<Byte>, hasCallback: bool)
    requires DistinctKeys(fields) && config.isValid && link.connects
    ensures var o := PowerOn(config, fields, endpoint, link, compress, hasCallback);
            var body := PostedBody(config, fields, compress);
            (link.writes == Written || link.writes == FlushFailed ==> o.wire == RequestBytes(POWER_ON_PATH, body)) &&
            (link.writes == BodyWriteFailed ==> o.wire == HeaderBytes(POWER_ON_PATH, body)) &&
            (link.writes == HeaderWriteFailed ==> o.wire == [])
  {
  }

  /** A server that reads what a completed write put on the wire finds the header's end
      at the first blank line, the posted body after it, and a Content-Length that
      counts the body's bytes. */
  lemma WireFramesBody(config: Config, fields: Entries, endpoint: string, link: Link,
                       compress: seq<Byte> -> seq<Byte>, hasCallback: bool)
    requires DistinctKeys(fields) && config.isValid && link.connects
    requires link.writes == Written || link.writes == FlushFailed
    ensures var wire := PowerOn(config, fields, endpoint, link, compress, hasCallback).wire;
            var body := PostedBody(config, fields, compress);
            var i := IndexOf(AsciiDecode(wire), SEPARATOR);
            i >= 0 && wire[i + 4..] == AsciiEncode(body) &&
            ParseNat(NatToString(|AsciiEncode(body)|)) == |wire| - (i + 4)
  {
    RequestOnWire(config, fields, endpoint, link, compress, hasCallback);
    PrintablePath();
    RequestFraming(POWER_ON_PATH, PostedBody(config, fields, compress));
  }

  /** End to end: a valid handshake whose server answers, in any number of chunks, with
      ASCII header lines and a body of percent-encoded entries that holds a `uri` takes the
      trimmed `uri` value as its endpoint and reports it to the callback. */
  lemma EncodedReplyEndpoint(config: Config, fields: Entries, endpoint: string, link: Link,
                             compress: seq<Byte> -> seq<Byte>, hasCallback: bool,
                             ls: seq<string>, kvs: Entries, i: nat)
    requires DistinctKeys(fields) && config.isValid && EncodedReplyLink(link, ls, kvs, i)
    ensures var o := PowerOn(config, fields, endpoint, link, compress, hasCallback);
            var uri := TrimEntries(kvs)[i].1;
            o.endpoint == uri && o.calls == (if hasCallback then [Report(uri)] else [])
  {
    var uri := TrimEntries(kvs)[i].1;
    EncodedExchange(POWER_ON_PATH, PostedBody(config, fields, compress), link, ls, kvs, i);
    ReportedUri(config, fields, endpoint, link, compress, hasCallback, uri);
  }

  /** A valid handshake whose exchange delivers `uri` takes it as its endpoint and reports it. */
  lemma ReportedUri(config: Config, fields: Entries, endpoint: string, link: Link,
                    compress: seq<Byte> -> seq<Byte>, hasCallback: bool, uri: string)
    requires DistinctKeys(fields) && config.isValid
    requires Exchange(POWER_ON_PATH, PostedBody(config, fields, compress), link) == Success(Some(uri))
    ensures var o := PowerOn(config, fields, endpoint, link, compress, hasCallback);
            o.endpoint == uri && o.calls == (if hasCallback then [Report(uri)] else [])
  {
  }

  class Session {
    var serverEndpoint: string

    constructor()
      ensures serverEndpoint == ""
    {
      serverEndpoint := "";
    }

    /** `SendPowerOnRequestCoroutine(onComplete)` run to its end. `calls` are the
        invocations of `onComplete` (none when `hasCallback` is false, as `?.Invoke`
        skips a null callback) and `wire` the bytes the server receives. */
    method SendPowerOnRequest(config: Config, fields: FieldTable, link: Link,
                              compress: seq<Byte> -> seq<Byte>, hasCallback: bool)
      returns (calls: seq<Option<string>>, wire: seq<Byte>)
      requires fields.Valid()
      modifies this, fields
      ensures fields.Valid()
      ensures Outcome(fields.entries, serverEndpoint, calls, wire)
              == PowerOn(config, old(fields.entries), old(serverEndpoint), link, compress, hasCallback)
    {
      if !config.isValid {
        calls := if hasCallback then [None] else [];
        return calls, [];
      }
      var urlPath := POWER_ON_PATH;
      fields.Put("serial", config.keychipId);
      var body := BuildCompressedBase64(fields.entries, compress);
      var result;
      wire, result := SendRawPowerOn(urlPath, body, link);
      if result.Failure? {
        return [], wire;
      }
      if result.value.Some? {
        serverEndpoint := result.value.value;
      }
      calls := if hasCallback then [Report(serverEndpoint)] else [];
    }
  }

  /** A handshake that succeeds and a retry whose connect fails: the retry still reports
      the endpoint of the first, since a failed exchange leaves it as it was. */
  method RetryAfterSuccess(config: Config, initial: Entries, first: Link, second: Link,
                           compress: seq<Byte> -> seq<Byte>, uri: string)
    returns (firstCalls: seq<Option<string>>, secondCalls: seq<Option<string>>)
    requires config.isValid && DistinctKeys(initial) && uri != ""
    requires first.connects && first.writes == Written
    requires Received(first.replies).Some?
    requires ParseResponse(AsciiDecode(Received(first.replies).value)) == Success(Some(uri))
    requires !second.connects
    ensures firstCalls == [Some(uri)] && secondCalls == [Some(uri)]
  {
    var session := new Session();
    var fields := new FieldTable(initial);
    var wire;
    ReportedUri(config, initial, "", first, compress, true, uri);
    firstCalls, wire := session.SendPowerOnRequest(config, fields, first, compress, true);
    assert session.serverEndpoint == uri;
    UnconnectedKeepsEndpoint(config, fields.entries, uri, second, compress);
    secondCalls, wire := session.SendPowerOnRequest(config, fields, second, compress, true);
  }

  /** Without a connection a valid handshake keeps the endpoint and reports it. */
  lemma UnconnectedKeepsEndpoint(config: Config, fields: Entries, endpoint: string, link: Link,
                                 compress: seq<Byte> -> seq<Byte>)
    requires DistinctKeys(fields) && config.isValid && !link.connects
    ensures var o := PowerOn(config, fields, endpoint, link, compress, true);
            o.endpoint == endpoint && o.calls == [Report(endpoint)]
  {
  }
}
