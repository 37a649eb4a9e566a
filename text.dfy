/** The string operations of the .NET base library that the handshake relies on
    (`String.Trim`, `String.Split`, `String.Join`, `String.IndexOf` with ordinal
    comparison, `Int32.ToString`), restated over `seq<char>`. */
module Text {

  const CRLF: string := "\r\n"

  /** The characters `Char.IsWhiteSpace` accepts below U+0080: tab, line feed,
      vertical tab, form feed, carriage return and space. */
  predicate IsWhiteSpace(c: char) {
    c == ' ' || ('\t' <= c <= '\r')
  }

  predicate IsAscii(s: string) {
    forall i :: 0 <= i < |s| ==> s[i] as int < 0x80
  }

  // ---------------------------------------------------------------- Trim

  function TrimStart(s: string): (r: string)
    ensures |r| <= |s| && r == s[|s| - |r|..]
    ensures forall i :: 0 <= i < |s| - |r| ==> IsWhiteSpace(s[i])
    ensures r == [] || !IsWhiteSpace(r[0])
  {
    if s != [] && IsWhiteSpace(s[0]) then TrimStart(s[1..]) else s
  }

  function TrimEnd(s: string): (r: string)
    ensures |r| <= |s| && r == s[..|r|]
    ensures forall i :: |r| <= i < |s| ==> IsWhiteSpace(s[i])
    ensures r == [] || !IsWhiteSpace(r[|r| - 1])
  {
    if s != [] && IsWhiteSpace(s[|s| - 1]) then TrimEnd(s[..|s| - 1]) else s
  }

  /** `String.Trim()`: the longest infix that neither starts nor ends with white space,
      obtained by removing only white space from both ends (see `TrimIsInfix`). */
  function Trim(s: string): (r: string)
    ensures r == [] || (!IsWhiteSpace(r[0]) && !IsWhiteSpace(r[|r| - 1]))
    ensures (s == [] || (!IsWhiteSpace(s[0]) && !IsWhiteSpace(s[|s| - 1]))) ==> r == s
    ensures forall x :: x in r ==> x in s
  {
    TrimEnd(TrimStart(s))
  }

  /** `r` occurs in `s` at `i`, and everything before and after it is white space. */
  predicate EnclosedByWhiteSpace(s: string, r: string, i: int) {
    && 0 <= i <= |s| - |r| && r == s[i..][..|r|]
    && (forall j :: 0 <= j < i ==> IsWhiteSpace(s[j]))
    && (forall j :: i + |r| <= j < |s| ==> IsWhiteSpace(s[j]))
  }

  /** `Trim` removes white space, and only white space, from the two ends: what is left
      is the infix that the leading and the trailing white space enclose. */
  lemma TrimIsInfix(s: string)
    ensures exists i :: EnclosedByWhiteSpace(s, Trim(s), i)
  {
    var t := TrimStart(s);
    TrimAt(s, t, TrimEnd(t));
    assert Trim(s) == TrimEnd(t);
  }

  /** The witness: what `TrimEnd` keeps of what `TrimStart` keeps sits where the latter
      starts. */
  lemma TrimAt(s: string, t: string, r: string)
    requires t == TrimStart(s) && r == TrimEnd(t)
    ensures EnclosedByWhiteSpace(s, r, |s| - |t|)
  {
    InfixOfSuffix(s, t, r, |s| - |t|);
  }

  /** A prefix `r` of the suffix `t` of `s` that starts at `i`, with white space before
      `t` and after `r`, is an infix of `s` enclosed by white space. */
  lemma InfixOfSuffix(s: string, t: string, r: string, i: nat)
    requires i <= |s| && t == s[i..] && |r| <= |t| && r == t[..|r|]
    requires forall k :: 0 <= k < i ==> IsWhiteSpace(s[k])
    requires forall k :: |r| <= k < |t| ==> IsWhiteSpace(t[k])
    ensures EnclosedByWhiteSpace(s, r, i)
  {
    forall j | i + |r| <= j < |s|
      ensures IsWhiteSpace(s[j])
    {
      assert s[j] == t[j - i];
    }
    assert r == s[i..i + |r|];
  }

  // ---------------------------------------------------------------- Split and Join

  /** The number of occurrences of `c` in `s`. */
  function Count(s: string, c: char): nat {
    if s == [] then 0 else (if s[0] == c then 1 else 0) + Count(s[1..], c)
  }

  lemma {:induction false} CountZero(s: string, c: char)
    ensures Count(s, c) == 0 <==> c !in s
  {
    if s != [] {
      CountZero(s[1..], c);
      assert s == [s[0]] + s[1..];
    }
  }

  /** `String.Split(c)`: the parts between occurrences of `c`, empty parts included. */
  function Split(s: string, c: char): (parts: seq<string>)
    ensures |parts| == Count(s, c) + 1
    ensures forall i :: 0 <= i < |parts| ==> c !in parts[i]
    ensures forall i, x :: 0 <= i < |parts| && x in parts[i] ==> x in s
  {
    if s == [] then [""]
    else
      var rest := Split(s[1..], c);
      assert forall x :: x in s[1..] ==> x in s;
      if s[0] == c then [""] + rest
      else [[s[0]] + rest[0]] + rest[1..]
  }

  /** Splitting at one separator splits the text on either side of it apart. */
  lemma {:induction false} SplitConcat(x: string, c: char, y: string)
    ensures Split(x + [c] + y, c) == Split(x, c) + Split(y, c)
  {
    var s := x + [c] + y;
    if x == [] {
      assert s[1..] == y;
    } else {
      assert s[1..] == x[1..] + [c] + y;
      SplitConcat(x[1..], c, y);
    }
  }

  /** `String.Join(sep, parts)`. */
  function Join(sep: string, parts: seq<string>): (r: string)
    ensures parts == [] ==> r == ""
    ensures parts != [] ==> parts[0] <= r && |parts[|parts| - 1]| <= |r| &&
                            r[|r| - |parts[|parts| - 1]|..] == parts[|parts| - 1]
  {
    if |parts| == 0 then ""
    else if |parts| == 1 then parts[0]
    else parts[0] + sep + Join(sep, parts[1..])
  }

  /** Every character of a joined text comes from the separator or from one of the parts. */
  lemma {:induction false} JoinChars(sep: string, parts: seq<string>, x: char)
    requires x in Join(sep, parts)
    ensures x in sep || exists i :: 0 <= i < |parts| && x in parts[i]
  {
    if |parts| > 1 {
      var rest := Join(sep, parts[1..]);
      if x !in parts[0] && x !in sep {
        assert x in rest;
        JoinChars(sep, parts[1..], x);
        var i :| 0 <= i < |parts| - 1 && x in parts[1..][i];
        assert x in parts[i + 1];
      }
    }
  }

  /** Splitting and joining again gives back the original text. */
  lemma ConsConcat(x: char, a: string, b: string, d: string)
    ensures ([x] + a) + b + d == [x] + (a + b + d)
  {
  }

  lemma {:induction false} JoinSplit(s: string, c: char)
    ensures Join([c], Split(s, c)) == s
  {
    if s != [] {
      var rest := Split(s[1..], c);
      JoinSplit(s[1..], c);
      if s[0] != c {
        if |rest| > 1 {
          ConsConcat(s[0], rest[0], [c], Join([c], rest[1..]));
        }
      }
    }
  }

  lemma {:induction false} SplitNoSeparator(s: string, c: char)
    requires c !in s
    ensures Split(s, c) == [s]
  {
    if s != [] {
      SplitNoSeparator(s[1..], c);
      assert [s[0]] + s[1..] == s;
    }
  }

  lemma {:induction false} SplitAfterPart(p: string, c: char, t: string)
    requires c !in p
    ensures Split(p + [c] + t, c) == [p] + Split(t, c)
  {
    var s := p + [c] + t;
    if p == [] {
      assert s[1..] == t;
    } else {
      assert s[1..] == p[1..] + [c] + t;
      SplitAfterPart(p[1..], c, t);
      assert [p[0]] + p[1..] == p;
    }
  }

  /** Joining parts that do not contain the separator and splitting again gives back the parts. */
  lemma {:induction false} SplitJoin(parts: seq<string>, c: char)
    requires |parts| >= 1
    requires forall i :: 0 <= i < |parts| ==> c !in parts[i]
    ensures Split(Join([c], parts), c) == parts
  {
    if |parts| == 1 {
      SplitNoSeparator(parts[0], c);
    } else {
      SplitJoin(parts[1..], c);
      SplitAfterPart(parts[0], c, Join([c], parts[1..]));
      assert [parts[0]] + parts[1..] == parts;
    }
  }

  /** `StringSplitOptions.RemoveEmptyEntries`: the non-empty parts, in order. */
  function RemoveEmpty(parts: seq<string>): (r: seq<string>)
    ensures |r| <= |parts|
    ensures forall p :: p in r <==> p in parts && p != []
  {
    if parts == [] then []
    else if parts[0] == [] then RemoveEmpty(parts[1..])
    else [parts[0]] + RemoveEmpty(parts[1..])
  }

  /** Dropping the empty parts of two lists of parts one after the other drops them from both. */
  lemma {:induction false} RemoveEmptyConcat(a: seq<string>, b: seq<string>)
    ensures RemoveEmpty(a + b) == RemoveEmpty(a) + RemoveEmpty(b)
  {
    if a != [] {
      assert (a + b)[0] == a[0] && (a + b)[1..] == a[1..] + b;
      RemoveEmptyConcat(a[1..], b);
      if a[0] != [] {
        assert [a[0]] + (RemoveEmpty(a[1..]) + RemoveEmpty(b)) == ([a[0]] + RemoveEmpty(a[1..])) + RemoveEmpty(b);
      }
    } else {
      assert a + b == b;
    }
  }

  /** A single part is dropped exactly when it is empty. */
  lemma RemoveEmptyOne(p: string)
    ensures RemoveEmpty([p]) == if p == [] then [] else [p]
  {
    assert [p][1..] == [];
  }

  lemma {:induction false} RemoveEmptyKeeps(parts: seq<string>)
    requires forall i :: 0 <= i < |parts| ==> parts[i] != []
    ensures RemoveEmpty(parts) == parts
  {
    if parts != [] {
      RemoveEmptyKeeps(parts[1..]);
      assert [parts[0]] + parts[1..] == parts;
    }
  }

  // ---------------------------------------------------------------- IndexOf

  /** `p` occurs in `s` at position `j`. */
  predicate MatchAt<T(==)>(s: seq<T>, p: seq<T>, j: int) {
    0 <= j && j + |p| <= |s| && s[j..j + |p|] == p
  }

  function IndexOfFrom<T(==)>(s: seq<T>, p: seq<T>, start: nat): (r: int)
    requires start <= |s|
    ensures r == -1 || (start <= r && MatchAt(s, p, r))
    ensures forall j :: start <= j && (r == -1 || j < r) ==> !MatchAt(s, p, j)
    decreases |s| - start
  {
    if start + |p| > |s| then -1
    else if s[start..start + |p|] == p then start
    else IndexOfFrom(s, p, start + 1)
  }

  /** `String.IndexOf(p, StringComparison.Ordinal)`: the first position at which `p`
      occurs in `s`, and -1 if it occurs nowhere. */
  function IndexOf<T(==)>(s: seq<T>, p: seq<T>): (r: int)
    ensures r == -1 <==> forall j :: !MatchAt(s, p, j)
    ensures r != -1 ==> MatchAt(s, p, r) && forall j :: 0 <= j < r ==> !MatchAt(s, p, j)
  {
    IndexOfFrom(s, p, 0)
  }

  /** The first occurrence is the one that occurs and has no occurrence before it. */
  lemma FirstMatch<T>(s: seq<T>, p: seq<T>, i: nat)
    requires MatchAt(s, p, i)
    requires forall j :: 0 <= j < i ==> !MatchAt(s, p, j)
    ensures IndexOf(s, p) == i
  {
  }

  // ---------------------------------------------------------------- CRLF-terminated lines

  /** A header line: non-empty and free of carriage returns and line feeds. */
  predicate IsLine(l: string) {
    l != [] && '\r' !in l && '\n' !in l
  }

  /** Each line followed by CRLF. */
  function Lines(ls: seq<string>): string {
    if ls == [] then "" else ls[0] + CRLF + Lines(ls[1..])
  }

  /** Lines, when there is at least one, end with CRLF. */
  lemma {:induction false} LinesEnd(ls: seq<string>)
    requires |ls| > 0
    ensures |Lines(ls)| >= 2 && Lines(ls)[|Lines(ls)| - 2..] == CRLF
  {
    if |ls| > 1 {
      LinesEnd(ls[1..]);
    }
    assert Lines(ls) == ls[0] + CRLF + Lines(ls[1..]);
  }

  /** Lines start with their first line. */
  lemma LinesStart(ls: seq<string>, n: nat)
    requires |ls| > 0 && n <= |ls[0]|
    ensures |Lines(ls)| >= n && Lines(ls)[..n] == ls[0][..n]
  {
    var rest := CRLF + Lines(ls[1..]);
    assert Lines(ls) == ls[0] + rest;
    assert (ls[0] + rest)[..n] == ls[0][..n];
  }

  lemma {:induction false} LinesShape(ls: seq<string>)
    requires |ls| > 0 && forall i :: 0 <= i < |ls| ==> IsLine(ls[i])
    ensures |Lines(ls)| >= 3
    ensures Lines(ls)[|Lines(ls)| - 2..] == CRLF
    ensures forall j :: 0 <= j < |Lines(ls)| - 1 && Lines(ls)[j] == '\n' ==> Lines(ls)[j + 1] != '\r'
  {
    var l, rest := ls[0], Lines(ls[1..]);
    assert Lines(ls) == l + CRLF + rest;
    if |ls| > 1 {
      LinesShape(ls[1..]);
      assert rest[0] == ls[1][0];
      forall j | 0 <= j < |Lines(ls)| - 1
        ensures Lines(ls)[j] == '\n' ==> Lines(ls)[j + 1] != '\r'
      {
        if j < |l| {
          assert Lines(ls)[j] == l[j];
        } else if j == |l| {
          assert Lines(ls)[j] == '\r';
        } else if j == |l| + 1 {
          assert Lines(ls)[j + 1] == rest[0];
        } else {
          assert j > |l| + 1;
          assert Lines(ls)[j] == rest[j - |l| - 2];
          assert Lines(ls)[j + 1] == rest[j - |l| - 1];
        }
      }
    } else {
      assert Lines(ls) == l + CRLF;
    }
  }

  /** In CRLF-terminated non-empty lines followed by one more CRLF, the first blank line
      (`\r\n\r\n`) is the one that closes the lines, whatever follows it. */
  lemma FirstBlankLine(ls: seq<string>, rest: string)
    requires |ls| > 0 && forall i :: 0 <= i < |ls| ==> IsLine(ls[i])
    ensures IndexOf(Lines(ls) + CRLF + rest, "\r\n\r\n") == |Lines(ls)| - 2
  {
    var L := Lines(ls);
    var s := L + CRLF + rest;
    LinesShape(ls);
    var p := |L| - 2;
    assert s[p..p + 4] == L[p..] + CRLF;
    forall j | 0 <= j < p
      ensures !MatchAt(s, "\r\n\r\n", j)
    {
      assert s[j..j + 4][1] == L[j + 1] && s[j..j + 4][2] == L[j + 2];
    }
    FirstMatch(s, "\r\n\r\n", p);
  }

  // ---------------------------------------------------------------- decimal numbers

  predicate IsDigit(c: char) {
    '0' as int <= c as int <= '9' as int
  }

  function DigitChar(d: nat): (c: char)
    requires d < 10
    ensures IsDigit(c)
  {
    ('0' as int + d) as char
  }

  function DigitValue(c: char): (d: nat)
    requires IsDigit(c)
    ensures d < 10
  {
    c as int - '0' as int
  }

  /** `Int32.ToString()` of a non-negative number: its decimal digits, most significant first. */
  function NatToString(n: nat): (s: string)
    ensures s != [] && forall i :: 0 <= i < |s| ==> IsDigit(s[i])
    ensures |s| > 1 ==> s[0] != '0'
  {
    if n < 10 then [DigitChar(n)] else NatToString(n / 10) + [DigitChar(n % 10)]
  }

  /** The value of a string of decimal digits. */
  function ParseNat(s: string): nat
    requires forall i :: 0 <= i < |s| ==> IsDigit(s[i])
  {
    if s == [] then 0 else ParseNat(s[..|s| - 1]) * 10 + DigitValue(s[|s| - 1])
  }

  /** Reading back the digits that `NatToString` writes gives the number. */
  lemma {:induction false} ParseNatToString(n: nat)
    ensures ParseNat(NatToString(n)) == n
  {
    var s := NatToString(n);
    if n >= 10 {
      ParseNatToString(n / 10);
      assert s[..|s| - 1] == NatToString(n / 10);
    }
  }
}
