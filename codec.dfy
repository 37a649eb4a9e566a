/** The payload codec of the handshake: the field dictionary written as a query string
    (`BuildCompressedBase64`, Client/Session.cs:19-30) and the reply body read back into a
    dictionary (Client/Session.cs:133-137). */
module Codec {
  import opened Wrappers
  import opened Text
  import opened Percent
  import opened Encoding

  /** A `Dictionary<string, string>` as its entries in enumeration order. */
  type Entries = seq<(string, string)>

  function Keys(es: Entries): seq<string> {
    seq(|es|, i requires 0 <= i < |es| => es[i].0)
  }

  /** A dictionary never holds two entries with the same key. */
  predicate DistinctKeys(es: Entries) {
    forall i, j :: 0 <= i < j < |es| ==> es[i].0 != es[j].0
  }

  /** The indexer `d[key] = value`: an existing entry keeps its place and takes the new
      value; a new key is added after the existing entries. The list is the dictionary's
      enumeration order, on the assumption that no entry was ever removed from it (a
      removal frees a slot that a later insertion reuses). */
  function Assign(es: Entries, key: string, value: string): (r: Entries)
    requires DistinctKeys(es)
    ensures DistinctKeys(r) && (key, value) in r
    ensures key in Keys(es) ==>
              Keys(r) == Keys(es) && forall i :: 0 <= i < |es| && es[i].0 != key ==> r[i] == es[i]
    ensures key !in Keys(es) ==> r == es + [(key, value)]
  {
    if key in Keys(es) then
      var r := seq(|es|, i requires 0 <= i < |es| => if es[i].0 == key then (key, value) else es[i]);
      var j :| 0 <= j < |es| && Keys(es)[j] == key;
      assert r[j] == (key, value);
      assert Keys(r) == Keys(es);
      r
    else
      var r := es + [(key, value)];
      assert forall i :: 0 <= i < |es| ==> es[i].0 != key by {
        assert forall i :: 0 <= i < |es| ==> Keys(es)[i] == es[i].0;
      }
      assert r[|es|] == (key, value);
      r
  }

  // ---------------------------------------------------------------- request side

  /** The `key=value` text of one entry: it splits back at `=` into the key and the value
      when neither holds `=`. */
  function Pair(e: (string, string)): (r: string)
    ensures '=' !in e.0 && '=' !in e.1 ==> Split(r, '=') == [e.0, e.1]
  {
    JoinedTwo(e.0, e.1, '=');
    e.0 + "=" + e.1
  }

  lemma JoinedTwo(a: string, b: string, c: char)
    ensures c !in a && c !in b ==> Split(a + [c] + b, c) == [a, b]
  {
    if c !in a && c !in b {
      assert Join([c], [a, b]) == a + [c] + b;
      SplitJoin([a, b], c);
    }
  }

  function Pairs(es: Entries): (r: seq<string>)
    ensures |r| == |es| && forall i :: 0 <= i < |es| ==> r[i] == Pair(es[i])
  {
    seq(|es|, i requires 0 <= i < |es| => Pair(es[i]))
  }

  /** The query of `BuildCompressedBase64` (Client/Session.cs:21): the `key=value` texts of
      the entries in enumeration order, joined by `&`, with nothing escaped. */
  function Query(es: Entries): (r: string)
    ensures es == [] ==> r == ""
    ensures es != [] && (forall i :: 0 <= i < |es| ==> '&' !in es[i].0 && '&' !in es[i].1) ==>
              Split(r, '&') == Pairs(es)
  {
    PairsSplitBack(es);
    Join("&", Pairs(es))
  }

  lemma PairsSplitBack(es: Entries)
    ensures es != [] && (forall i :: 0 <= i < |es| ==> '&' !in es[i].0 && '&' !in es[i].1) ==>
              Split(Join("&", Pairs(es)), '&') == Pairs(es)
  {
    if es != [] && (forall i :: 0 <= i < |es| ==> '&' !in es[i].0 && '&' !in es[i].1) {
      var ps := Pairs(es);
      assert forall i :: 0 <= i < |ps| ==> '&' !in ps[i] by {
        assert forall i :: 0 <= i < |ps| ==> ps[i] == es[i].0 + "=" + es[i].1;
      }
      SplitJoin(ps, '&');
    }
  }

  /** The request body: the UTF-8 bytes of the query, compressed by `compress` (the zlib
      stream, which this model does not open up), written as base64 text. */
  function BuildCompressedBase64(data: Entries, compress: seq<Byte> -> seq<Byte>): (body: string)
    ensures IsAscii(body) && |body| == 4 * ((|compress(Utf8Encode(Query(data)))| + 2) / 3)
  {
    var packed := compress(Utf8Encode(Query(data)));
    Base64EncodeAlphabet(packed);
    Base64Encode(packed)
  }

  /** The receiver gets the compressed UTF-8 query back by decoding the body. */
  lemma BodyDecodes(data: Entries, compress: seq<Byte> -> seq<Byte>)
    ensures Base64Decode(BuildCompressedBase64(data, compress)) == Some(compress(Utf8Encode(Query(data))))
  {
    Base64RoundTrip(compress(Utf8Encode(Query(data))));
  }

  /** Because nothing is escaped, a value holding `&` and `=` is written exactly as two
      entries would be: one entry `(a, b&c=d)` and the two entries `(a, b)`, `(c, d)` give
      the same query. */
  lemma QueryIsNotEscaped(a: string, b: string, c: string, d: string)
    ensures Query([(a, b + "&" + c + "=" + d)]) == Query([(a, b), (c, d)])
  {
    var e, f, g := (a, b + "&" + c + "=" + d), (a, b), (c, d);
    assert Pair(e) == Pair(f) + "&" + Pair(g);
    QueryJoinsTwo(e, f, g);
  }

  lemma QueryJoinsTwo(e: (string, string), f: (string, string), g: (string, string))
    requires Pair(e) == Pair(f) + "&" + Pair(g)
    ensures Query([e]) == Query([f, g])
  {
    QueryOfOne(e);
    QueryOfTwo(f, g);
  }

  lemma QueryOfOne(e: (string, string))
    ensures Query([e]) == Pair(e)
  {
    var ps := Pairs([e]);
    assert ps == [Pair(e)];
    assert Join("&", ps) == Pair(e);
  }

  lemma QueryOfTwo(e: (string, string), f: (string, string))
    ensures Query([e, f]) == Pair(e) + "&" + Pair(f)
  {
    var ps := Pairs([e, f]);
    assert ps == [Pair(e), Pair(f)];
    assert ps[1..] == [Pair(f)];
    assert Join("&", ps[1..]) == Pair(f);
    assert Join("&", ps) == Pair(e) + "&" + Join("&", ps[1..]);
  }

  // ---------------------------------------------------------------- reply side

  /** `Split('&', StringSplitOptions.RemoveEmptyEntries)`; with `SegmentsConcat` the
      contract fixes the result: the non-empty `&`-parts of the body, in order. */
  function Segments(body: string): (r: seq<string>)
    ensures forall i :: 0 <= i < |r| ==> r[i] != [] && '&' !in r[i]
    ensures forall i, x :: 0 <= i < |r| && x in r[i] ==> x in body
    ensures '&' !in body && body != [] ==> r == [body]
    ensures body == [] ==> r == []
  {
    var parts := Split(body, '&');
    var r := RemoveEmpty(parts);
    assert forall i :: 0 <= i < |r| ==> r[i] in parts;
    if '&' !in body && body != [] then
      SplitNoSeparator(body, '&');
      RemoveEmptyKeeps(parts);
      r
    else
      r
  }

  /** The filter of Client/Session.cs:134-135: each segment is split at every `=`, and it
      yields an entry only when that gives exactly two parts; a segment with no `=` or
      with several is dropped. */
  function KeepPairs(segments: seq<string>): (r: Entries)
    ensures |r| <= |segments|
    ensures forall i :: 0 <= i < |r| ==> '=' !in r[i].0 && '=' !in r[i].1
  {
    if segments == [] then []
    else
      var parts := Split(segments[0], '=');
      (if |parts| == 2 then [(parts[0], parts[1])] else []) + KeepPairs(segments[1..])
  }

  /** A segment splits into the two parts `a` and `b` exactly when it is `a=b` with
      neither part holding `=`. */
  lemma SplitInTwo(segment: string, a: string, b: string)
    ensures Split(segment, '=') == [a, b] <==> (segment == Pair((a, b)) && '=' !in a && '=' !in b)
  {
    if Split(segment, '=') == [a, b] {
      JoinSplit(segment, '=');
      assert Join("=", [a, b]) == a + "=" + b;
    }
    if segment == Pair((a, b)) && '=' !in a && '=' !in b {
      assert Join("=", [a, b]) == segment;
      SplitJoin([a, b], '=');
    }
  }

  /** An entry is kept exactly when some segment is that entry's `key=value` with
      exactly one `=`. */
  lemma {:induction false} KeepPairsMembership(segments: seq<string>, e: (string, string))
    ensures e in KeepPairs(segments) <==> (Pair(e) in segments && '=' !in e.0 && '=' !in e.1)
  {
    if segments != [] {
      KeepPairsMembership(segments[1..], e);
      var parts := Split(segments[0], '=');
      SplitInTwo(segments[0], e.0, e.1);
      if |parts| == 2 {
        assert parts == [parts[0], parts[1]];
        SplitInTwo(segments[0], parts[0], parts[1]);
      }
      assert segments == [segments[0]] + segments[1..];
    }
  }

  /** The segments on either side of an `&` are read one after the other. */
  lemma SegmentsConcat(x: string, y: string)
    ensures Segments(x + "&" + y) == Segments(x) + Segments(y)
  {
    SplitConcat(x, '&', y);
    RemoveEmptyConcat(Split(x, '&'), Split(y, '&'));
  }

  /** Entries come from the segments in order, as many as the segments that qualify. */
  lemma {:induction false} KeepPairsConcat(a: seq<string>, b: seq<string>)
    ensures KeepPairs(a + b) == KeepPairs(a) + KeepPairs(b)
  {
    if a == [] {
      assert a + b == b;
    } else {
      assert (a + b)[0] == a[0] && (a + b)[1..] == a[1..] + b;
      KeepPairsConcat(a[1..], b);
    }
  }

  /** One segment yields its two `=`-parts when there are exactly two, and nothing otherwise. */
  lemma KeepPairsOne(segment: string)
    ensures var parts := Split(segment, '=');
            KeepPairs([segment]) == if |parts| == 2 then [(parts[0], parts[1])] else []
  {
    assert [segment][1..] == [];
  }

  /** Segments that hold no `=` yield no entries. */
  lemma {:induction false} KeepPairsNone(segments: seq<string>)
    requires forall i :: 0 <= i < |segments| ==> '=' !in segments[i]
    ensures KeepPairs(segments) == []
  {
    if segments != [] {
      CountZero(segments[0], '=');
      KeepPairsNone(segments[1..]);
    }
  }

  /** `Uri.UnescapeDataString(x).Trim()`. */
  function Unescape(s: string): (r: string)
    ensures r == [] || (!IsWhiteSpace(r[0]) && !IsWhiteSpace(r[|r| - 1]))
    ensures '%' !in s ==> r == Trim(s)
  {
    Trim(PercentDecode(s))
  }

  function DecodeEntries(pairs: Entries): (r: Entries)
    ensures |r| == |pairs|
    ensures forall i :: 0 <= i < |pairs| ==> r[i].0 == Unescape(pairs[i].0) && r[i].1 == Unescape(pairs[i].1)
  {
    seq(|pairs|, i requires 0 <= i < |pairs| => (Unescape(pairs[i].0), Unescape(pairs[i].1)))
  }

  /** The exception `ToDictionary` throws. */
  datatype Fault = DuplicateKey(key: string)

  /** `ToDictionary`: adds the entries in order and throws at the first key that is
      already present; there is no last-wins overwrite. */
  function ToDictionary(es: Entries): (r: Result<map<string, string>, Fault>)
    ensures r.Success? <==> DistinctKeys(es)
    ensures r.Success? ==> r.value.Keys == set i | 0 <= i < |es| :: es[i].0
    ensures r.Success? ==> forall i :: 0 <= i < |es| ==> r.value[es[i].0] == es[i].1
    ensures r.Failure? ==> exists j :: 0 <= j < |es| && es[j].0 == r.error.key
                                       && DistinctKeys(es[..j]) && r.error.key in Keys(es[..j])
  {
    if es == [] then Success(map[])
    else
      var init, last := es[..|es| - 1], es[|es| - 1];
      assert es == init + [last];
      match ToDictionary(init)
      case Failure(f) =>
        PrefixesOfInit(init, last);
        Failure(f)
      case Success(m) =>
        if last.0 in m then
          DuplicateAtEnd(init, last);
          Failure(DuplicateKey(last.0))
        else
          FreshAtEnd(init, last);
          Success(m[last.0 := last.1])
  }

  lemma PrefixesOfInit(init: Entries, last: (string, string))
    ensures forall j :: 0 <= j <= |init| ==> (init + [last])[..j] == init[..j]
  {
  }

  lemma DuplicateAtEnd(init: Entries, last: (string, string))
    requires DistinctKeys(init) && last.0 in set i | 0 <= i < |init| :: init[i].0
    ensures (init + [last])[..|init|] == init && last.0 in Keys(init)
  {
    var i :| 0 <= i < |init| && init[i].0 == last.0;
    assert Keys(init)[i] == last.0;
  }

  lemma FreshAtEnd(init: Entries, last: (string, string))
    requires DistinctKeys(init) && last.0 !in set i | 0 <= i < |init| :: init[i].0
    ensures DistinctKeys(init + [last])
    ensures (set i | 0 <= i < |init + [last]| :: (init + [last])[i].0)
              == (set i | 0 <= i < |init| :: init[i].0) + {last.0}
  {
    var es := init + [last];
    assert forall i :: 0 <= i < |init| ==> es[i] == init[i];
    var a, b := set i | 0 <= i < |es| :: es[i].0, set i | 0 <= i < |init| :: init[i].0;
    forall k | k in a ensures k in b + {last.0} {
      var i :| 0 <= i < |es| && es[i].0 == k;
      if i < |init| { assert init[i].0 == k; }
    }
    forall k | k in b + {last.0} ensures k in a {
      if k == last.0 { assert es[|init|].0 == k; }
      else { var i :| 0 <= i < |init| && init[i].0 == k; assert es[i].0 == k; }
    }
  }

  /** The reply body as a dictionary, or the fault a duplicate key raises. */
  function ParseBody(body: string): (r: Result<map<string, string>, Fault>)
    ensures '=' !in body ==> r == Success(map[])
  {
    var segments := Segments(body);
    if '=' !in body then
      KeepPairsNone(segments);
      ToDictionary(DecodeEntries(KeepPairs(segments)))
    else
      ToDictionary(DecodeEntries(KeepPairs(segments)))
  }

  /** An empty segment between two `&` changes nothing. */
  lemma ParseBodySkipsEmpty(x: string, y: string)
    ensures ParseBody(x + "&&" + y) == ParseBody(x + "&" + y)
  {
    assert x + "&&" + y == x + "&" + ("" + "&" + y);
    SegmentsConcat(x, "" + "&" + y);
    SegmentsConcat("", y);
    assert "" + "&" + y == "&" + y;
    SegmentsConcat(x, y);
  }

  /** A segment that does not split into exactly two `=`-parts changes nothing: it is
      dropped, not split at its first `=`. */
  lemma ParseBodySkipsMalformed(x: string, segment: string, y: string)
    requires '&' !in segment && |Split(segment, '=')| != 2
    ensures ParseBody(x + "&" + segment + "&" + y) == ParseBody(x + "&" + y)
  {
    if segment == [] {
      assert x + "&" + segment + "&" + y == x + "&&" + y;
      ParseBodySkipsEmpty(x, y);
    } else {
      KeepPairsAround(x, segment, y);
      ParseBodyOfSegments(x + "&" + segment + "&" + y);
      ParseBodyOfSegments(x + "&" + y);
    }
  }

  lemma KeepPairsAround(x: string, segment: string, y: string)
    requires segment != [] && '&' !in segment && |Split(segment, '=')| != 2
    ensures KeepPairs(Segments(x + "&" + segment + "&" + y)) == KeepPairs(Segments(x + "&" + y))
  {
    SegmentsAround(x, segment, y);
    SegmentsConcat(x, y);
    KeepPairsSkips(Segments(x), segment, Segments(y));
  }

  lemma ParseBodyOfSegments(body: string)
    ensures ParseBody(body) == ToDictionary(DecodeEntries(KeepPairs(Segments(body))))
  {
  }

  lemma SegmentsAround(x: string, segment: string, y: string)
    ensures Segments(x + "&" + segment + "&" + y) == Segments(x) + Segments(segment) + Segments(y)
  {
    assert x + "&" + segment + "&" + y == x + "&" + (segment + "&" + y);
    SegmentsConcat(x, segment + "&" + y);
    SegmentsConcat(segment, y);
  }

  /** A segment that is not a pair is dropped wherever it stands. */
  lemma KeepPairsSkips(a: seq<string>, segment: string, b: seq<string>)
    requires |Split(segment, '=')| != 2
    ensures KeepPairs(a + [segment] + b) == KeepPairs(a + b)
  {
    var rest := [segment] + b;
    assert a + [segment] + b == a + rest;
    KeepPairsConcat(a, rest);
    KeepPairsDropsOne(segment, b);
    KeepPairsConcat(a, b);
  }

  lemma KeepPairsDropsOne(segment: string, b: seq<string>)
    requires |Split(segment, '=')| != 2
    ensures KeepPairs([segment] + b) == KeepPairs(b)
  {
    KeepPairsConcat([segment], b);
    KeepPairsOne(segment);
  }

  // ---------------------------------------------------------------- round trips

  /** No key or value holds `&` or `=`, so the query string can be split back. */
  predicate Unambiguous(es: Entries) {
    forall i :: 0 <= i < |es| ==> '&' !in es[i].0 && '&' !in es[i].1 && '=' !in es[i].0 && '=' !in es[i].1
  }

  lemma {:induction false} KeepPairsOfPairs(es: Entries)
    requires Unambiguous(es)
    ensures KeepPairs(Pairs(es)) == es
  {
    if es != [] {
      SplitInTwo(Pair(es[0]), es[0].0, es[0].1);
      KeepPairsOfPairs(es[1..]);
      assert Pairs(es) == [Pair(es[0])] + Pairs(es[1..]);
      assert es == [es[0]] + es[1..];
    }
  }

  /** Reading a query string back recovers every entry in order, each key and value
      unescaped and trimmed, when no key or value holds `&` or `=`. */
  lemma ParseQuery(es: Entries)
    requires Unambiguous(es)
    ensures ParseBody(Query(es)) == ToDictionary(DecodeEntries(es))
  {
    var ps := Pairs(es);
    if es == [] {
      assert Split("", '&') == [""];
    } else {
      forall i | 0 <= i < |ps|
        ensures '&' !in ps[i] && ps[i] != []
      {
        assert ps[i] == es[i].0 + "=" + es[i].1;
      }
      SplitJoin(ps, '&');
      RemoveEmptyKeeps(ps);
      KeepPairsOfPairs(es);
    }
  }

  predicate AsciiEntries(kvs: Entries) {
    forall i :: 0 <= i < |kvs| ==> IsAscii(kvs[i].0) && IsAscii(kvs[i].1)
  }

  lemma EncodedChars(s: string)
    requires IsAscii(s)
    ensures forall x :: x in PercentEncode(s) ==> IsUnreserved(x) || x == '%'
  {
  }

  /** Keys and values percent-encoded, as a server writes its reply. */
  function EncodeEntries(kvs: Entries): (r: Entries)
    requires AsciiEntries(kvs)
    ensures |r| == |kvs| && Unambiguous(r)
    ensures forall i, x :: 0 <= i < |r| && (x in r[i].0 || x in r[i].1) ==> IsUnreserved(x) || x == '%'
  {
    var r := seq(|kvs|, i requires 0 <= i < |kvs| => (PercentEncode(kvs[i].0), PercentEncode(kvs[i].1)));
    assert forall i, x :: 0 <= i < |r| && (x in r[i].0 || x in r[i].1) ==> IsUnreserved(x) || x == '%' by {
      forall i | 0 <= i < |r|
        ensures forall x :: x in r[i].0 || x in r[i].1 ==> IsUnreserved(x) || x == '%'
      {
        EncodedChars(kvs[i].0);
        EncodedChars(kvs[i].1);
      }
    }
    assert Unambiguous(r) by {
      assert !IsUnreserved('&') && !IsUnreserved('=');
    }
    r
  }

  /** Keys and values as `.Trim()` leaves them. */
  function TrimEntries(kvs: Entries): Entries {
    seq(|kvs|, i requires 0 <= i < |kvs| => (Trim(kvs[i].0), Trim(kvs[i].1)))
  }

  /** Every character of a query string is `&`, `=` or a character of some key or value. */
  lemma QueryChars(es: Entries, x: char)
    requires x in Query(es)
    ensures x == '&' || x == '=' || exists i :: 0 <= i < |es| && (x in es[i].0 || x in es[i].1)
  {
    JoinChars("&", Pairs(es), x);
    if x != '&' {
      var i :| 0 <= i < |es| && x in Pairs(es)[i];
      assert x in es[i].0 + "=" + es[i].1;
    }
  }

  /** A query string of percent-encoded entries holds no white space, so trimming leaves it alone. */
  lemma EncodedQueryUntrimmed(kvs: Entries)
    requires AsciiEntries(kvs)
    ensures Trim(Query(EncodeEntries(kvs))) == Query(EncodeEntries(kvs))
  {
    var es := EncodeEntries(kvs);
    var q := Query(es);
    if q != [] {
      EncodedChar(kvs, q[0]);
      EncodedChar(kvs, q[|q| - 1]);
    }
  }

  /** A character of such a query string is printable ASCII other than the space. */
  lemma EncodedChar(kvs: Entries, c: char)
    requires AsciiEntries(kvs)
    requires c in Query(EncodeEntries(kvs))
    ensures !IsWhiteSpace(c) && c as int < 0x80
  {
    var es := EncodeEntries(kvs);
    QueryChars(es, c);
    if c != '&' && c != '=' {
      var i :| 0 <= i < |es| && (c in es[i].0 || c in es[i].1);
      assert IsUnreserved(c) || c == '%';
    }
  }

  lemma EncodedQueryAscii(kvs: Entries)
    requires AsciiEntries(kvs)
    ensures IsAscii(Query(EncodeEntries(kvs)))
  {
    var q := Query(EncodeEntries(kvs));
    forall i | 0 <= i < |q|
      ensures q[i] as int < 0x80
    {
      EncodedChar(kvs, q[i]);
    }
  }

  /** A reply body of percent-encoded ASCII entries reads back as the dictionary of the
      original entries, trimmed. */
  lemma ParseEncodedQuery(kvs: Entries)
    requires AsciiEntries(kvs)
    ensures ParseBody(Trim(Query(EncodeEntries(kvs)))) == ToDictionary(TrimEntries(kvs))
  {
    var es := EncodeEntries(kvs);
    EncodedQueryUntrimmed(kvs);
    ParseQuery(es);
    forall i | 0 <= i < |kvs|
      ensures DecodeEntries(es)[i] == TrimEntries(kvs)[i]
    {
      DecodeEncode(kvs[i].0);
      DecodeEncode(kvs[i].1);
    }
    assert DecodeEntries(es) == TrimEntries(kvs);
  }
}
