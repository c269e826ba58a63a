/**
 The handful of Python `str` operations the program relies on, written out as
 total functions over `seq<char>`: whitespace stripping, ASCII lower-casing,
 substring search, splitting on a separator, `str.splitlines`, and the
 character-class runs that stand in for the regular expressions.
 */
module Text {
  import opened Outcomes

  // ---------------------------------------------------------------------------
  // Whitespace and stripping
  // ---------------------------------------------------------------------------

  /**
   The characters for which Python's `str.isspace()` holds; the regular-expression
   class `\s` of a `str` pattern matches exactly these.
   */
  predicate IsSpace(c: char) {
    || ('\t' <= c <= '\r')
    || ('\U{1c}' <= c <= ' ')
    || c == '\U{85}' || c == '\U{a0}' || c == '\U{1680}'
    || ('\U{2000}' <= c <= '\U{200a}')
    || c == '\U{2028}' || c == '\U{2029}' || c == '\U{202f}' || c == '\U{205f}' || c == '\U{3000}'
  }

  predicate AllSpace(s: string) {
    forall i :: 0 <= i < |s| ==> IsSpace(s[i])
  }

  /** True when `s` has no whitespace at either end (the empty string included). */
  predicate Trimmed(s: string) {
    s == [] || (!IsSpace(s[0]) && !IsSpace(s[|s| - 1]))
  }

  /** Python's `s.lstrip()`. */
  function TrimLeft(s: string): (r: string)
    ensures |r| <= |s|
  {
    if |s| > 0 && IsSpace(s[0]) then TrimLeft(s[1..]) else s
  }

  /** `lstrip` removes a whitespace prefix and stops at the first non-space. */
  lemma {:induction false} TrimLeftSpec(s: string)
    ensures TrimLeft(s) == s[|s| - |TrimLeft(s)|..]
    ensures AllSpace(s[..|s| - |TrimLeft(s)|])
    ensures TrimLeft(s) == [] || !IsSpace(TrimLeft(s)[0])
    decreases |s|
  {
    if |s| > 0 && IsSpace(s[0]) {
      var r := TrimLeft(s[1..]);
      TrimLeftSpec(s[1..]);
      assert s[1..][|s| - 1 - |r|..] == s[|s| - |r|..];
      assert s[..|s| - |r|] == [s[0]] + s[1..][..|s| - 1 - |r|];
    }
  }

  /** Python's `s.rstrip()`. */
  function TrimRight(s: string): (r: string)
    ensures |r| <= |s|
  {
    if |s| > 0 && IsSpace(s[|s| - 1]) then TrimRight(s[..|s| - 1]) else s
  }

  /** `rstrip` removes a whitespace suffix and stops at the last non-space. */
  lemma {:induction false} TrimRightSpec(s: string)
    ensures TrimRight(s) == s[..|TrimRight(s)|]
    ensures AllSpace(s[|TrimRight(s)|..])
    ensures TrimRight(s) == [] || !IsSpace(TrimRight(s)[|TrimRight(s)| - 1])
    decreases |s|
  {
    if |s| > 0 && IsSpace(s[|s| - 1]) {
      var r := TrimRight(s[..|s| - 1]);
      TrimRightSpec(s[..|s| - 1]);
      assert s[..|s| - 1][..|r|] == s[..|r|];
      assert s[|r|..] == s[..|s| - 1][|r|..] + [s[|s| - 1]];
    }
  }

  /** Python's `s.strip()` with no argument. */
  function Strip(s: string): (r: string)
    ensures Trimmed(r)
    ensures |r| <= |s|
  {
    var l := TrimLeft(s);
    TrimLeftSpec(s);
    TrimRightSpec(l);
    var r := TrimRight(l);
    assert r == [] || r[0] == l[0];
    r
  }

  /** Whitespace in front of a string that starts with a non-space is all `lstrip` removes. */
  lemma {:induction false} TrimLeftPadded(a: string, t: string)
    requires AllSpace(a)
    requires t == [] || !IsSpace(t[0])
    ensures TrimLeft(a + t) == t
    decreases |a|
  {
    if a == [] {
      assert a + t == t;
    } else {
      assert (a + t)[1..] == a[1..] + t;
      TrimLeftPadded(a[1..], t);
    }
  }

  /** Whitespace after a string that ends with a non-space is all `rstrip` removes. */
  lemma {:induction false} TrimRightPadded(t: string, b: string)
    requires AllSpace(b)
    requires t == [] || !IsSpace(t[|t| - 1])
    ensures TrimRight(t + b) == t
    decreases |b|
  {
    if b == [] {
      assert t + b == t;
    } else {
      var b' := b[..|b| - 1];
      assert (t + b)[..|t + b| - 1] == t + b';
      TrimRightPadded(t, b');
    }
  }

  /** `strip` returns exactly the trimmed core of a whitespace-padded string. */
  lemma StripOfPadded(a: string, r: string, b: string)
    requires AllSpace(a) && AllSpace(b)
    requires Trimmed(r)
    ensures Strip(a + r + b) == r
  {
    if r == [] {
      assert a + r + b == a + b;
      assert AllSpace(a + b);
      TrimLeftPadded(a + b, []);
      assert a + b + [] == a + b;
    } else {
      assert a + r + b == a + (r + b);
      TrimLeftPadded(a, r + b);
      TrimRightPadded(r, b);
    }
  }

  /** `strip` removes a whitespace prefix and a whitespace suffix and nothing else. */
  lemma StripBounds(s: string) returns (i: nat, j: nat)
    ensures i <= j <= |s|
    ensures Strip(s) == s[i..j]
    ensures AllSpace(s[..i]) && AllSpace(s[j..])
  {
    var l := TrimLeft(s);
    TrimLeftSpec(s);
    var r := TrimRight(l);
    TrimRightSpec(l);
    assert Strip(s) == r;
    i := |s| - |l|;
    j := i + |r|;
    assert l == s[i..];
    assert r == l[..|r|] == s[i..j];
    assert l[|r|..] == s[j..];
  }

  /** Stripping is insensitive to extra whitespace around its argument. */
  lemma {:induction false} StripPadding(w1: string, s: string, w2: string)
    requires AllSpace(w1) && AllSpace(w2)
    ensures Strip(w1 + s + w2) == Strip(s)
  {
    var i, j := StripBounds(s);
    var a, r, b := s[..i], s[i..j], s[j..];
    assert s == a + r + b;
    AllSpaceAppend(w1, a);
    AllSpaceAppend(b, w2);
    Regroup(w1, a, r, b, w2);
    StripOfPadded(w1 + a, r, b + w2);
  }

  lemma Regroup(w1: string, a: string, r: string, b: string, w2: string)
    ensures w1 + (a + r + b) + w2 == (w1 + a) + r + (b + w2)
  {
  }

  lemma AllSpaceAppend(a: string, b: string)
    requires AllSpace(a) && AllSpace(b)
    ensures AllSpace(a + b)
  {
    assert forall i :: 0 <= i < |a + b| ==> (a + b)[i] == if i < |a| then a[i] else b[i - |a|];
  }

  lemma StripIdempotent(s: string)
    ensures Strip(Strip(s)) == Strip(s)
  {
    assert [] + Strip(s) + [] == Strip(s);
    StripOfPadded([], Strip(s), []);
  }

  /**
   A prefix that begins and ends with non-space characters survives stripping
   intact; only the rest is right-stripped.
   */
  lemma StripKeepsPrefix(p: string, q: string)
    requires p != [] && Trimmed(p)
    ensures Strip(p + q) == p + TrimRight(q)
  {
    var t := TrimRight(q);
    TrimRightSpec(q);
    var u := q[|t|..];
    var c := p + t;
    assert q == t + u;
    assert Trimmed(c) by {
      assert c[0] == p[0];
      if t == [] {
        assert c == p;
      } else {
        assert c[|c| - 1] == t[|t| - 1];
      }
    }
    assert p + q == [] + c + u;
    StripOfPadded([], c, u);
  }

  /** A non-space character of `s` lies between a whitespace prefix and a whitespace suffix. */
  lemma NonSpaceInside(s: string, i: nat, j: nat, m: int)
    requires i <= j <= |s| && AllSpace(s[..i]) && AllSpace(s[j..])
    requires 0 <= m < |s| && !IsSpace(s[m])
    ensures i <= m < j
  {
    assert forall x :: 0 <= x < i ==> IsSpace(s[x]) by {
      forall x | 0 <= x < i ensures IsSpace(s[x]) {
        assert s[..i][x] == s[x];
      }
    }
    assert forall x :: j <= x < |s| ==> IsSpace(s[x]) by {
      forall x | j <= x < |s| ensures IsSpace(s[x]) {
        assert s[j..][x - j] == s[x];
      }
    }
  }

  /**
   Stripping keeps every occurrence of a pattern that has no whitespace at its
   ends: such an occurrence lies inside the stripped part.
   */
  lemma StripKeepsContained(s: string, p: string)
    requires p != [] && Trimmed(p) && Contains(s, p)
    ensures Contains(Strip(s), p)
  {
    var i, j := StripBounds(s);
    var k :| 0 <= k <= |s| - |p| && OccursAt(s, p, k);
    OccurrenceEnds(s, p, k);
    NonSpaceInside(s, i, j, k);
    NonSpaceInside(s, i, j, k + |p| - 1);
    OccursInSlice(s, p, i, j, k);
    assert OccursAt(Strip(s), p, k - i);
  }

  lemma OccurrenceEnds(s: string, p: string, k: int)
    requires p != [] && OccursAt(s, p, k)
    ensures s[k] == p[0] && s[k + |p| - 1] == p[|p| - 1]
  {
    assert s[k..k + |p|][0] == s[k];
    assert s[k..k + |p|][|p| - 1] == s[k + |p| - 1];
  }

  lemma OccursInSlice(s: string, p: string, i: int, j: int, k: int)
    requires 0 <= i <= k && k + |p| <= j <= |s| && OccursAt(s, p, k)
    ensures OccursAt(s[i..j], p, k - i)
  {
    var w := s[i..j][k - i..k - i + |p|];
    forall x | 0 <= x < |p| ensures w[x] == p[x] {
      assert w[x] == s[k + x] == s[k..k + |p|][x];
    }
    assert w == p;
  }

  // ---------------------------------------------------------------------------
  // Lower-casing
  // ---------------------------------------------------------------------------

  /** ASCII lower-casing of one character. */
  function LowerChar(c: char): (r: char)
    ensures IsSpace(r) <==> IsSpace(c)
    ensures 'A' <= c <= 'Z' ==> 'a' <= r <= 'z'
    ensures !('A' <= r <= 'Z')
  {
    if 'A' <= c <= 'Z' then (c as int + 32) as char else c
  }

  /** Python's `s.lower()`, restricted to the ASCII letters. */
  function Lower(s: string): (r: string)
    ensures |r| == |s|
    ensures forall i :: 0 <= i < |s| ==> r[i] == LowerChar(s[i])
  {
    seq(|s|, i requires 0 <= i < |s| => LowerChar(s[i]))
  }

  predicate IsLower(s: string) {
    forall i :: 0 <= i < |s| ==> !('A' <= s[i] <= 'Z')
  }

  lemma LowerIsLower(s: string)
    ensures IsLower(Lower(s))
    ensures Lower(Lower(s)) == Lower(s)
  {
  }

  lemma LowerSlice(s: string, i: int, j: int)
    requires 0 <= i <= j <= |s|
    ensures Lower(s[i..j]) == Lower(s)[i..j]
  {
  }

  lemma LowerAppend(a: string, b: string)
    ensures Lower(a + b) == Lower(a) + Lower(b)
  {
  }

  /** Lower-casing and stripping commute, because lower-casing keeps whitespace where it was. */
  lemma StripLower(s: string)
    ensures Strip(Lower(s)) == Lower(Strip(s))
  {
    var i, j := StripBounds(s);
    assert s == s[..i] + s[i..j] + s[j..];
    LowerAppend(s[..i] + s[i..j], s[j..]);
    LowerAppend(s[..i], s[i..j]);
    StripOfPadded(Lower(s[..i]), Lower(s[i..j]), Lower(s[j..]));
  }

  // ---------------------------------------------------------------------------
  // Prefixes and substrings
  // ---------------------------------------------------------------------------

  /** Python's `s.startswith(p)`. */
  predicate StartsWith(s: string, p: string) {
    |p| <= |s| && s[..|p|] == p
  }

  /** `p` occurs in `s` starting at index `i`. */
  predicate OccursAt(s: string, p: string, i: int) {
    0 <= i && i + |p| <= |s| && s[i..i + |p|] == p
  }

  /** Python's `p in s` for strings. */
  predicate Contains(s: string, p: string) {
    exists i | 0 <= i <= |s| - |p| :: OccursAt(s, p, i)
  }

  lemma StartsWithContains(s: string, p: string)
    requires StartsWith(s, p)
    ensures Contains(s, p)
  {
    assert OccursAt(s, p, 0);
  }

  /** An occurrence stays an occurrence when text is added on either side. */
  lemma ContainsExtend(a: string, s: string, b: string, p: string)
    requires Contains(s, p)
    ensures Contains(a + s + b, p)
  {
    var i :| 0 <= i <= |s| - |p| && OccursAt(s, p, i);
    var t := a + s + b;
    assert t[|a| + i..|a| + i + |p|] == s[i..i + |p|];
    assert OccursAt(t, p, |a| + i);
  }

  /** An occurrence of `p` is an occurrence of `lower(p)` in `lower(s)`. */
  lemma ContainsLower(s: string, p: string)
    requires Contains(s, p)
    ensures Contains(Lower(s), Lower(p))
  {
    var i :| 0 <= i <= |s| - |p| && OccursAt(s, p, i);
    LowerSlice(s, i, i + |p|);
    assert OccursAt(Lower(s), Lower(p), i);
  }

  /** The index of the first occurrence of `c` in `s`. */
  function IndexOf(s: string, c: char): (r: Option<nat>)
    ensures r.None? <==> c !in s
    ensures r.Some? ==> r.value < |s| && s[r.value] == c && c !in s[..r.value]
  {
    if |s| == 0 then None
    else if s[0] == c then Some(0)
    else match IndexOf(s[1..], c)
      case None => None
      case Some(i) => assert s[..i + 1] == [s[0]] + s[1..][..i]; Some(i + 1)
  }

  /** The index of the first occurrence of `p` in `s` (Python's `s.find(p)` when found). */
  function Find(s: string, p: string): (r: Option<nat>)
    ensures r.None? <==> !Contains(s, p)
    ensures r.Some? ==> OccursAt(s, p, r.value)
    ensures r.Some? ==> forall k :: 0 <= k < r.value ==> !OccursAt(s, p, k)
    decreases |s|
  {
    if |p| > |s| then None
    else if s[..|p|] == p then (assert OccursAt(s, p, 0); Some(0))
    else
      assert !OccursAt(s, p, 0);
      assert forall k :: 1 <= k ==> (OccursAt(s, p, k) <==> OccursAt(s[1..], p, k - 1)) by {
        forall k | 1 <= k ensures OccursAt(s, p, k) <==> OccursAt(s[1..], p, k - 1) {
          OccursShift(s, p, k - 1);
        }
      }
      match Find(s[1..], p)
      case None => None
      case Some(i) => assert OccursAt(s, p, i + 1); Some(i + 1)
  }

  lemma OccursShift(s: string, p: string, k: int)
    requires |s| > 0 && 0 <= k
    ensures OccursAt(s, p, k + 1) <==> OccursAt(s[1..], p, k)
  {
    if 0 <= k && k + 1 + |p| <= |s| {
      assert s[k + 1..k + 1 + |p|] == s[1..][k..k + |p|];
    }
  }

  /** The index of the last occurrence of `c` in `s` (Python's `s.rfind(c)` when found). */
  function LastIndexOf(s: string, c: char): (r: Option<nat>)
    ensures r.None? <==> c !in s
    ensures r.Some? ==> r.value < |s| && s[r.value] == c && c !in s[r.value + 1..]
  {
    if |s| == 0 then None
    else if s[|s| - 1] == c then Some(|s| - 1)
    else
      assert s[..|s| - 1] + [s[|s| - 1]] == s;
      match LastIndexOf(s[..|s| - 1], c)
      case None => None
      case Some(i) => assert s[i + 1..] == s[..|s| - 1][i + 1..] + [s[|s| - 1]]; Some(i)
  }

  /** Python's `s.split(p)[0]`: the text before the first occurrence of `p`, or all of `s`. */
  function Before(s: string, p: string): (r: string)
    ensures StartsWith(s, r)
    ensures Contains(s, p) ==> StartsWith(s[|r|..], p)
    ensures !Contains(s, p) ==> r == s
  {
    match Find(s, p)
    case None => s
    case Some(i) => s[..i]
  }

  // ---------------------------------------------------------------------------
  // Splitting and joining on a separator character
  // ---------------------------------------------------------------------------

  /** Python's `s.split(sep)` for a one-character separator. */
  function Split(s: string, sep: char): (r: seq<string>)
    ensures |r| >= 1
    ensures StartsWith(s, r[0])
    ensures forall i :: 0 <= i < |r| ==> sep !in r[i]
    decreases |s|
  {
    match IndexOf(s, sep)
    case None => [s]
    case Some(i) => [s[..i]] + Split(s[i + 1..], sep)
  }

  /** Python's `sep.join(parts)`. */
  function Join(parts: seq<string>, sep: char): string
  {
    if |parts| == 0 then ""
    else if |parts| == 1 then parts[0]
    else parts[0] + [sep] + Join(parts[1..], sep)
  }

  /** Splitting and joining again gives back the original text. */
  lemma {:induction false} JoinSplit(s: string, sep: char)
    ensures Join(Split(s, sep), sep) == s
    decreases |s|
  {
    match IndexOf(s, sep)
    case None =>
    case Some(i) =>
      var rest := Split(s[i + 1..], sep);
      JoinSplit(s[i + 1..], sep);
      assert Split(s, sep) == [s[..i]] + rest;
      assert Split(s, sep)[1..] == rest;
      assert s == s[..i] + [sep] + s[i + 1..];
  }

  /** Joining separator-free parts and splitting again gives back the parts. */
  lemma {:induction false} SplitJoin(parts: seq<string>, sep: char)
    requires |parts| >= 1
    requires forall i :: 0 <= i < |parts| ==> sep !in parts[i]
    ensures Split(Join(parts, sep), sep) == parts
    decreases |parts|
  {
    if |parts| > 1 {
      var p := parts[0];
      var j := Join(parts[1..], sep);
      var s := p + [sep] + j;
      assert s[|p|] == sep && s[..|p|] == p;
      assert IndexOf(s, sep) == Some(|p|);
      assert s[|p| + 1..] == j;
      SplitJoin(parts[1..], sep);
    }
  }

  // ---------------------------------------------------------------------------
  // Lines
  // ---------------------------------------------------------------------------

  /** The line boundaries of Python's `str.splitlines()`. */
  predicate IsLineBreak(c: char) {
    || ('\n' <= c <= '\r')
    || ('\U{1c}' <= c <= '\U{1e}')
    || c == '\U{85}' || c == '\U{2028}' || c == '\U{2029}'
  }

  /** Python's `s.splitlines()`: `"\r\n"` is one boundary and no empty last line is produced. */
  function SplitLines(s: string): (r: seq<string>)
    ensures forall i, j :: 0 <= i < |r| && 0 <= j < |r[i]| ==> !IsLineBreak(r[i][j])
  {
    SplitLinesFrom(s, "")
  }

  function SplitLinesFrom(s: string, cur: string): (r: seq<string>)
    requires forall j :: 0 <= j < |cur| ==> !IsLineBreak(cur[j])
    ensures forall i, j :: 0 <= i < |r| && 0 <= j < |r[i]| ==> !IsLineBreak(r[i][j])
    decreases |s|
  {
    if |s| == 0 then (if |cur| == 0 then [] else [cur])
    else if s[0] == '\r' && |s| >= 2 && s[1] == '\n' then [cur] + SplitLinesFrom(s[2..], "")
    else if IsLineBreak(s[0]) then [cur] + SplitLinesFrom(s[1..], "")
    else SplitLinesFrom(s[1..], cur + [s[0]])
  }

  // ---------------------------------------------------------------------------
  // Character-class runs (the pieces of the regular expressions)
  // ---------------------------------------------------------------------------

  /** `\s`, `[a-zA-Z0-9_]`, `[a-zA-Z0-9_\.]` and `[^/\n]`. */
  datatype CharClass = Space | Ident | Dotted | NoSlash

  predicate IsIdentChar(c: char) {
    ('a' <= c <= 'z') || ('A' <= c <= 'Z') || ('0' <= c <= '9') || c == '_'
  }

  predicate InClass(k: CharClass, c: char) {
    match k
    case Space => IsSpace(c)
    case Ident => IsIdentChar(c)
    case Dotted => IsIdentChar(c) || c == '.'
    case NoSlash => c != '/' && c != '\n'
  }

  /** A run of class `k` followed by a character outside it is consumed exactly. */
  lemma SpanExact(k: CharClass, a: string, b: string)
    requires forall i :: 0 <= i < |a| ==> InClass(k, a[i])
    requires b == [] || !InClass(k, b[0])
    ensures Span(k, a + b) == |a|
  {
    assert forall i :: 0 <= i < |a| ==> (a + b)[i] == a[i];
    assert |b| > 0 ==> (a + b)[|a|] == b[0];
  }

  /** The length of the longest prefix of `s` inside class `k` (what a greedy `k+` consumes). */
  function Span(k: CharClass, s: string): (n: nat)
    ensures n <= |s|
    ensures forall i :: 0 <= i < n ==> InClass(k, s[i])
    ensures n == |s| || !InClass(k, s[n])
  {
    if |s| > 0 && InClass(k, s[0]) then 1 + Span(k, s[1..]) else 0
  }

  // ---------------------------------------------------------------------------
  // Numbers
  // ---------------------------------------------------------------------------

  function DigitChar(d: nat): (c: char)
    requires d < 10
    ensures '0' <= c <= '9'
  {
    ('0' as int + d) as char
  }

  /** Python's `str(n)` for a natural number. */
  function NatToString(n: nat): (r: string)
    ensures |r| >= 1
    ensures forall i :: 0 <= i < |r| ==> '0' <= r[i] <= '9'
  {
    if n < 10 then [DigitChar(n)] else NatToString(n / 10) + [DigitChar(n % 10)]
  }
}
