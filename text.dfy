/** String helpers the parser and the extractor rely on: Python's str.strip(),
    str.split(sep) with its inverse "sep".join(...), and the decimal rendering
    of a count that the sibling suffixes use. */
module Text {

  /** The characters Python's str.isspace() accepts, which str.strip() removes. */
  predicate IsSpace(c: char) {
    ('\t' <= c <= '\r') || ('\U{1C}' <= c <= ' ') || c == '\U{85}' || c == '\U{A0}' || c == '\U{1680}'
    || ('\U{2000}' <= c <= '\U{200A}') || c == '\U{2028}' || c == '\U{2029}' || c == '\U{202F}'
    || c == '\U{205F}' || c == '\U{3000}'
  }

  /** A string with no surrounding whitespace: what strip() leaves unchanged. */
  predicate Stripped(s: string) {
    s == [] || (!IsSpace(s[0]) && !IsSpace(s[|s| - 1]))
  }

  /** How many whitespace characters open the string. */
  function LeadingSpaces(s: string): (n: nat)
    ensures n <= |s|
    ensures forall i {:trigger IsSpace(s[i])} :: 0 <= i < n ==> IsSpace(s[i])
    ensures n == |s| || !IsSpace(s[n])
    decreases |s|
  {
    if s != [] && IsSpace(s[0]) then 1 + LeadingSpaces(s[1..]) else 0
  }

  /** How many whitespace characters close the string. */
  function TrailingSpaces(s: string): (n: nat)
    ensures n <= |s|
    ensures forall i {:trigger IsSpace(s[i])} :: |s| - n <= i < |s| ==> IsSpace(s[i])
    ensures n == |s| || !IsSpace(s[|s| - n - 1])
    decreases |s|
  {
    if s != [] && IsSpace(s[|s| - 1]) then 1 + TrailingSpaces(s[..|s| - 1]) else 0
  }

  /** Drops leading whitespace (str.lstrip()). */
  function TrimLeft(s: string): (r: string)
    ensures |r| <= |s| && r == s[|s| - |r|..]
    ensures forall i {:trigger IsSpace(s[i])} :: 0 <= i < |s| - |r| ==> IsSpace(s[i])
    ensures r == [] || !IsSpace(r[0])
  {
    s[LeadingSpaces(s)..]
  }

  /** Drops trailing whitespace (str.rstrip()). */
  function TrimRight(s: string): (r: string)
    ensures |r| <= |s| && r == s[..|r|]
    ensures forall i {:trigger IsSpace(s[i])} :: |r| <= i < |s| ==> IsSpace(s[i])
    ensures r == [] || !IsSpace(r[|r| - 1])
  {
    s[..|s| - TrailingSpaces(s)]
  }

  /** str.strip(): drops whitespace at both ends. */
  function Strip(s: string): (r: string)
    ensures Stripped(r)
    ensures |r| <= |s|
  {
    TrimRight(TrimLeft(s))
  }

  /** strip() leaves a string unchanged exactly when it has no surrounding whitespace. */
  lemma {:induction false} StripFixedPoints(s: string)
    ensures Strip(s) == s <==> Stripped(s)
  {
    if Stripped(s) && s != [] {
      assert TrimLeft(s) == s;
      assert TrimRight(s) == s;
    }
  }

  /** strip() removes only whitespace, and only at the ends: the result is
      the slice of the input that starts after the leading whitespace, and
      everything outside that slice is whitespace. */
  lemma {:induction false} StripSpec(s: string)
    ensures var i := |s| - |TrimLeft(s)|;
            && i + |Strip(s)| <= |s|
            && Strip(s) == s[i..i + |Strip(s)|]
            && (forall k :: 0 <= k < i ==> IsSpace(s[k]))
            && (forall k :: i + |Strip(s)| <= k < |s| ==> IsSpace(s[k]))
  {
    var l, r := TrimLeft(s), Strip(s);
    StripSlice(s, l, r);
    StripTrailing(s);
    SliceBetweenSpaces(s, l, r);
  }

  /** The facts of StripSpec, read on the strings themselves. */
  lemma {:induction false} SliceBetweenSpaces(s: string, l: string, r: string)
    requires |l| <= |s| && |s| - |l| + |r| <= |s|
    requires r == s[|s| - |l|..|s| - |l| + |r|]
    requires forall k :: 0 <= k < |s| - |l| ==> IsSpace(s[k])
    requires forall k :: |s| - |l| + |r| <= k < |s| ==> IsSpace(s[k])
    ensures var i := |s| - |l|;
            && i + |r| <= |s|
            && r == s[i..i + |r|]
            && (forall k :: 0 <= k < i ==> IsSpace(s[k]))
            && (forall k :: i + |r| <= k < |s| ==> IsSpace(s[k]))
  { }

  /** What strip() keeps is one slice of its input. */
  lemma {:induction false} StripSlice(s: string, l: string, r: string)
    requires l == TrimLeft(s) && r == TrimRight(l)
    ensures |s| - |l| + |r| <= |s|
    ensures r == s[|s| - |l|..|s| - |l| + |r|]
  {
    PrefixOfSuffix(s, l, r);
  }

  /** A prefix of a suffix is a slice. */
  lemma {:induction false} PrefixOfSuffix(s: string, l: string, r: string)
    requires |l| <= |s| && l == s[|s| - |l|..]
    requires |r| <= |l| && r == l[..|r|]
    ensures r == s[|s| - |l|..|s| - |l| + |r|]
  {
  }

  /** What strip() drops after the slice it keeps is whitespace. */
  lemma {:induction false} StripTrailing(s: string)
    ensures forall k :: |s| - |TrimLeft(s)| + |Strip(s)| <= k < |s| ==> IsSpace(s[k])
  {
    var l := TrimLeft(s);
    var i := |s| - |l|;
    forall k | i + |Strip(s)| <= k < |s|
      ensures IsSpace(s[k])
    {
      assert s[k] == l[k - i];
    }
  }

  /** a is a (not necessarily proper) suffix of b. */
  predicate IsSuffix(a: string, b: string) {
    |a| <= |b| && a == b[|b| - |a|..]
  }

  lemma {:induction false} TailIsSuffix(s: string)
    requires s != []
    ensures IsSuffix(s[1..], s)
  {
  }

  lemma {:induction false} SuffixTransitive(a: string, b: string, c: string)
    requires IsSuffix(a, b) && IsSuffix(b, c)
    ensures IsSuffix(a, c)
  {
    assert forall i :: 0 <= i < |a| ==> a[i] == b[|b| - |a| + i] == c[|c| - |a| + i];
  }

  /** A character absent from a text is absent from every suffix of it. */
  lemma {:induction false} SuffixKeepsOut(a: string, b: string, c: char)
    requires IsSuffix(a, b) && c !in b
    ensures c !in a
  {
    forall i | 0 <= i < |a|
      ensures a[i] != c
    {
      assert a[i] == b[|b| - |a| + i];
    }
  }

  lemma {:induction false} ConcatAssoc(a: string, b: string, c: string)
    ensures a + b + c == a + (b + c)
  {
  }

  /** The empty string is a unit of concatenation. */
  lemma {:induction false} ConcatEmpty(a: string)
    ensures "" + a == a && a + "" == a
  {
  }

  /** A string with one character in front: that character, then the string. */
  lemma {:induction false} ConsParts(c: char, a: string)
    ensures [c] + a != [] && ([c] + a)[0] == c && ([c] + a)[1..] == a
  {
  }

  /** Number of occurrences of c in s. */
  function Occurrences(s: string, c: char): nat
    decreases |s|
  {
    if s == [] then 0 else (if s[0] == c then 1 else 0) + Occurrences(s[1..], c)
  }

  /** "sep".join(fields): the fields with one separator between neighbours. */
  function Join(fields: seq<string>, sep: char): string
    requires |fields| >= 1
    decreases |fields|
  {
    if |fields| == 1 then fields[0] else fields[0] + [sep] + Join(fields[1..], sep)
  }

  /** s.split(sep) for a one-character separator: every occurrence of sep ends
      a field, so empty fields are kept and there is always at least one field. */
  function Split(s: string, sep: char): (r: seq<string>)
    ensures |r| == Occurrences(s, sep) + 1
    ensures forall i :: 0 <= i < |r| ==> sep !in r[i]
    ensures Join(r, sep) == s
    decreases |s|
  {
    if s == [] then [[]]
    else
      var tail := Split(s[1..], sep);
      if s[0] == sep then
        [[]] + tail
      else
        assert Join([[s[0]] + tail[0]] + tail[1..], sep) == [s[0]] + Join(tail, sep) by {
          if |tail| > 1 {
            assert ([[s[0]] + tail[0]] + tail[1..])[1..] == tail[1..];
          }
        }
        [[s[0]] + tail[0]] + tail[1..]
  }

  /** Splitting a join gives the fields back when no field holds the separator. */
  lemma {:induction false} SplitJoin(fields: seq<string>, sep: char)
    requires |fields| >= 1
    requires forall i :: 0 <= i < |fields| ==> sep !in fields[i]
    ensures Split(Join(fields, sep), sep) == fields
    decreases |fields|
  {
    if |fields| == 1 {
      SplitNoSeparator(fields[0], sep);
    } else {
      SplitJoin(fields[1..], sep);
      SplitPrefix(fields[0], Join(fields[1..], sep), sep);
    }
  }

  /** A string without the separator is one field. */
  lemma {:induction false} SplitNoSeparator(s: string, sep: char)
    requires sep !in s
    ensures Split(s, sep) == [s]
    decreases |s|
  {
    if s != [] {
      SplitNoSeparator(s[1..], sep);
      assert [s[0]] + s[1..] == s;
    }
  }

  /** A separator-free prefix followed by the separator becomes the first field. */
  lemma {:induction false} SplitPrefix(a: string, b: string, sep: char)
    requires sep !in a
    ensures Split(a + [sep] + b, sep) == [a] + Split(b, sep)
    decreases |a|
  {
    if a == [] {
      assert a + [sep] + b == [sep] + b;
      assert ([sep] + b)[1..] == b;
    } else {
      var rest := a[1..] + [sep] + b;
      SplitPrefix(a[1..], b, sep);
      assert a + [sep] + b == [a[0]] + rest;
      SplitCons(a[0], rest, sep);
      FirstFieldCons(a, Split(rest, sep), Split(b, sep));
    }
  }

  /** A character other than the separator joins the first field. */
  lemma {:induction false} SplitCons(c: char, rest: string, sep: char)
    requires c != sep
    ensures Split([c] + rest, sep) == [[c] + Split(rest, sep)[0]] + Split(rest, sep)[1..]
  {
    assert ([c] + rest)[1..] == rest;
  }

  /** The fields after the first character of the first one is put back. */
  lemma {:induction false} FirstFieldCons(a: string, fields: seq<string>, more: seq<string>)
    requires a != [] && fields == [a[1..]] + more
    ensures [[a[0]] + fields[0]] + fields[1..] == [a] + more
  {
    assert [a[0]] + a[1..] == a;
    assert fields[1..] == more;
  }

  predicate IsDigit(c: char) {
    '0' <= c <= '9'
  }

  predicate AllDigits(s: string) {
    forall i :: 0 <= i < |s| ==> IsDigit(s[i])
  }

  function DigitChar(d: nat): (c: char)
    requires d < 10
    ensures IsDigit(c)
  {
    (48 + d) as char
  }

  function DigitValue(c: char): (d: nat)
    requires IsDigit(c)
    ensures d < 10
  {
    (c as int) - 48
  }

  /** The value of a string of decimal digits. */
  function DecimalValue(s: string): nat
    requires AllDigits(s)
    decreases |s|
  {
    if s == [] then 0 else DecimalValue(s[..|s| - 1]) * 10 + DigitValue(s[|s| - 1])
  }

  /** str(n) for a natural number: its decimal digits without leading zeros. */
  function NatToString(n: nat): (r: string)
    ensures r != []
    ensures AllDigits(r)
    ensures r[0] == '0' ==> n == 0
    decreases n
  {
    if n < 10 then [DigitChar(n)] else NatToString(n / 10) + [DigitChar(n % 10)]
  }

  /** Reading back the rendered digits gives the number. */
  lemma {:induction false} NatToStringRoundTrip(n: nat)
    ensures DecimalValue(NatToString(n)) == n
    decreases n
  {
    if n >= 10 {
      NatToStringRoundTrip(n / 10);
      var r := NatToString(n);
      assert r[..|r| - 1] == NatToString(n / 10);
    }
  }

  /** Different numbers render differently. */
  lemma {:induction false} NatToStringInjective(m: nat, n: nat)
    requires NatToString(m) == NatToString(n)
    ensures m == n
  {
    NatToStringRoundTrip(m);
    NatToStringRoundTrip(n);
  }
}
