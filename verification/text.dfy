/** Character classes and string operations with the meaning Python gives them
    in the agent: `str.strip`, `str.lower`, `str.split`, `str.join`, `str(int)`
    and the `\s`, `\d` and `[a-zA-Z0-9\-_]` regular-expression classes. */
module Text {
  import opened Wrappers

  /** Python's `str.isspace` (and the `\s` class of a `str` pattern): the
      ASCII controls 9..13 and 28..31, the space, and the Unicode spaces. */
  predicate IsSpace(c: char) {
    || c == ' '
    || ('\t' <= c <= '\r')
    || ('\U{1C}' <= c <= '\U{1F}')
    || c == '\U{85}' || c == '\U{A0}' || c == '\U{1680}'
    || ('\U{2000}' <= c <= '\U{200A}')
    || c == '\U{2028}' || c == '\U{2029}' || c == '\U{202F}'
    || c == '\U{205F}' || c == '\U{3000}'
  }

  /** The `\d` class, restricted to ASCII digits */
  predicate IsDigit(c: char) {
    '0' <= c <= '9'
  }

  predicate IsUpper(c: char) {
    'A' <= c <= 'Z'
  }

  predicate IsAsciiLetter(c: char) {
    IsUpper(c) || 'a' <= c <= 'z'
  }

  /** The character class `[a-zA-Z0-9\-_]` of a package name */
  predicate IsNameChar(c: char) {
    IsAsciiLetter(c) || IsDigit(c) || c == '-' || c == '_'
  }

  /** `str.lower` on one character; only ASCII letters reach it in the agent */
  function LowerChar(c: char): (d: char)
    ensures !IsUpper(d)
    ensures IsNameChar(c) <==> IsNameChar(d)
    ensures !IsUpper(c) ==> d == c
  {
    if IsUpper(c) then (c as int + 32) as char else c
  }

  predicate IsLowerCase(s: string) {
    forall i :: 0 <= i < |s| ==> !IsUpper(s[i])
  }

  predicate AllNameChars(s: string) {
    forall i :: 0 <= i < |s| ==> IsNameChar(s[i])
  }

  function Lower(s: string): (r: string)
    ensures |r| == |s|
    ensures forall i :: 0 <= i < |s| ==> r[i] == LowerChar(s[i])
    ensures IsLowerCase(r)
    ensures AllNameChars(s) ==> AllNameChars(r)
  {
    seq(|s|, i requires 0 <= i < |s| => LowerChar(s[i]))
  }

  /** Case-insensitive comparison of `s[p..]` against a lower-case literal,
      as `re.IGNORECASE` does for ASCII */
  predicate CiOccursAt(s: string, lit: string, p: nat) {
    p + |lit| <= |s| && Lower(s[p..p + |lit|]) == lit
  }

  predicate OccursAt(s: string, lit: string, p: nat) {
    p + |lit| <= |s| && s[p..p + |lit|] == lit
  }

  predicate IsPrefix(lit: string, s: string) {
    OccursAt(s, lit, 0)
  }

  ghost predicate IsInfix(a: string, b: string) {
    exists i :: 0 <= i <= |b| && OccursAt(b, a, i)
  }

  /** The end of the longest run of characters satisfying `keep` that starts at `p` */
  function SpanEnd(s: string, p: nat, keep: char -> bool): (e: nat)
    requires p <= |s|
    ensures p <= e <= |s|
    ensures forall k :: p <= k < e ==> keep(s[k])
    ensures e == |s| || !keep(s[e])
    decreases |s| - p
  {
    if p == |s| || !keep(s[p]) then p else SpanEnd(s, p + 1, keep)
  }

  /** `SpanEnd` is pinned down by where the run stops */
  lemma SpanEndAt(s: string, p: nat, keep: char -> bool, e: nat)
    requires p <= e <= |s|
    requires forall k :: p <= k < e ==> keep(s[k])
    requires e == |s| || !keep(s[e])
    ensures SpanEnd(s, p, keep) == e
    decreases e - p
  {
    if p < e {
      SpanEndAt(s, p + 1, keep, e);
    }
  }

  /** The end of the maximal `[a-zA-Z0-9\-_]` run starting at `p` */
  function RunEnd(s: string, p: nat): (e: nat)
    requires p <= |s|
    ensures p <= e <= |s|
    ensures forall k :: p <= k < e ==> IsNameChar(s[k])
    ensures e == |s| || !IsNameChar(s[e])
  {
    SpanEnd(s, p, IsNameChar)
  }

  /** The end of the maximal `\s` run starting at `p` */
  function SpaceEnd(s: string, p: nat): (e: nat)
    requires p <= |s|
    ensures p <= e <= |s|
    ensures forall k :: p <= k < e ==> IsSpace(s[k])
    ensures e == |s| || !IsSpace(s[e])
  {
    SpanEnd(s, p, IsSpace)
  }

  /** A whitespace run ended by a non-space character is what `SpaceEnd`
      skips. */
  lemma SpaceEndAt(s: string, a: nat, b: nat)
    requires a <= b < |s|
    requires forall k :: a <= k < b ==> IsSpace(s[k])
    requires !IsSpace(s[b])
    ensures SpaceEnd(s, a) == b
  {
  }

  /** The end of the maximal `\d` run starting at `p` */
  function DigitEnd(s: string, p: nat): (e: nat)
    requires p <= |s|
    ensures p <= e <= |s|
    ensures forall k :: p <= k < e ==> IsDigit(s[k])
    ensures e == |s| || !IsDigit(s[e])
  {
    SpanEnd(s, p, IsDigit)
  }

  /** How many leading characters satisfy `drop` */
  function LeadingCount(s: string, drop: char -> bool): (n: nat)
    ensures n <= |s|
    ensures forall i :: 0 <= i < n ==> drop(s[i])
    ensures n < |s| ==> !drop(s[n])
  {
    SpanEnd(s, 0, drop)
  }

  /** How many trailing characters satisfy `drop` */
  function TrailingCount(s: string, drop: char -> bool): (n: nat)
    ensures n <= |s|
    ensures forall i :: |s| - n <= i < |s| ==> drop(s[i])
    ensures n < |s| ==> !drop(s[|s| - n - 1])
  {
    if |s| == 0 || !drop(s[|s| - 1]) then 0
    else 1 + TrailingCount(s[..|s| - 1], drop)
  }

  /** `str.strip(chars)`: the bounds of the slice that is kept */
  function StripBounds(s: string, drop: char -> bool): (b: (nat, nat))
    ensures b.0 <= b.1 <= |s|
    ensures forall i :: 0 <= i < b.0 ==> drop(s[i])
    ensures forall i :: b.1 <= i < |s| ==> drop(s[i])
    ensures b.0 < b.1 ==> !drop(s[b.0]) && !drop(s[b.1 - 1])
    ensures b.0 == b.1 ==> forall i :: 0 <= i < |s| ==> drop(s[i])
  {
    var lo := LeadingCount(s, drop);
    var t := s[lo..];
    (lo, lo + |t| - TrailingCount(t, drop))
  }

  function StripWith(s: string, drop: char -> bool): (r: string)
  {
    var b := StripBounds(s, drop);
    s[b.0..b.1]
  }

  /** `str.strip()` */
  function Strip(s: string): (r: string)
    ensures |r| > 0 ==> !IsSpace(r[0]) && !IsSpace(r[|r| - 1])
  {
    StripWith(s, IsSpace)
  }

  /** A string that `Strip` leaves alone has no surrounding whitespace */
  predicate IsStripped(s: string) {
    |s| > 0 ==> !IsSpace(s[0]) && !IsSpace(s[|s| - 1])
  }

  /** A string wrapped in whitespace strips back to itself when it has no
      surrounding whitespace of its own. */
  lemma StripSurrounded(w1: string, m: string, w2: string)
    requires forall i :: 0 <= i < |w1| ==> IsSpace(w1[i])
    requires forall i :: 0 <= i < |w2| ==> IsSpace(w2[i])
    requires IsStripped(m)
    ensures Strip(w1 + m + w2) == m
  {
    var s := w1 + m + w2;
    var b := StripBounds(s, IsSpace);
    if |m| == 0 {
      assert s == w1 + w2;
      assert forall i :: 0 <= i < |s| ==> IsSpace(s[i]);
    } else {
      assert s[|w1|] == m[0];
      assert s[|w1| + |m| - 1] == m[|m| - 1];
      assert b.0 == |w1|;
      assert b.1 == |w1| + |m|;
      assert s[b.0..b.1] == m;
    }
  }

  lemma OccursAtChar(s: string, c: char, i: nat)
    ensures OccursAt(s, [c], i) <==> i < |s| && s[i] == c
  {
    if i < |s| {
      assert s[i..i + 1] == [s[i]];
    }
  }

  lemma StripIsInfix(s: string)
    ensures IsInfix(Strip(s), s)
  {
    StripWithIsInfix(s, IsSpace);
  }

  lemma StripWithIsInfix(s: string, drop: char -> bool)
    ensures IsInfix(StripWith(s, drop), s)
  {
    var b := StripBounds(s, drop);
    assert OccursAt(s, s[b.0..b.1], b.0);
  }

  /** Lower-casing works character by character, so it keeps occurrences */
  lemma LowerInfix(a: string, b: string)
    requires IsInfix(a, b)
    ensures IsInfix(Lower(a), Lower(b))
  {
    var i :| 0 <= i <= |b| && OccursAt(b, a, i);
    assert forall k :: 0 <= k < |a| ==> Lower(b)[i + k] == LowerChar(b[i + k]) == LowerChar(a[k]);
    assert Lower(b)[i..i + |a|] == Lower(a);
    assert OccursAt(Lower(b), Lower(a), i);
  }

  lemma SliceIsInfix(s: string, i: nat, j: nat)
    requires i <= j <= |s|
    ensures IsInfix(s[i..j], s)
  {
    assert OccursAt(s, s[i..j], i);
  }

  lemma InfixTrans(a: string, b: string, c: string)
    requires IsInfix(a, b) && IsInfix(b, c)
    ensures IsInfix(a, c)
  {
    var i :| 0 <= i <= |b| && OccursAt(b, a, i);
    var j :| 0 <= j <= |c| && OccursAt(c, b, j);
    assert b == c[j..j + |b|];
    assert forall k :: 0 <= k < |a| ==> c[j + i + k] == b[i + k] == a[k];
    assert OccursAt(c, a, j + i);
  }

  /** The first index `>= k` at which `lit` occurs in `s` */
  function FindFrom(s: string, lit: string, k: nat): (r: Option<nat>)
    requires |lit| > 0
    ensures r.Some? ==> k <= r.value && OccursAt(s, lit, r.value)
    ensures r.Some? ==> forall j :: k <= j < r.value ==> !OccursAt(s, lit, j)
    ensures r.None? ==> forall j :: k <= j ==> !OccursAt(s, lit, j)
    decreases |s| - k
  {
    if k + |lit| > |s| then None
    else if OccursAt(s, lit, k) then Some(k)
    else FindFrom(s, lit, k + 1)
  }

  /** `str.join` */
  function Join(parts: seq<string>, sep: string): string
  {
    if |parts| == 0 then ""
    else if |parts| == 1 then parts[0]
    else parts[0] + sep + Join(parts[1..], sep)
  }

  /** `s.split(sep)` for a non-empty separator: cut at each leftmost
      non-overlapping occurrence. The pieces join back to `s`, no piece
      contains the separator, and every cut but the last is leftmost: the
      separator does not start inside a piece and run into the one cut after
      it. */
  function SplitOn(s: string, sep: string): (parts: seq<string>)
    requires |sep| > 0
    ensures |parts| >= 1
    ensures Join(parts, sep) == s
    ensures forall i, j :: 0 <= i < |parts| && 0 <= j ==> !OccursAt(parts[i], sep, j)
    ensures forall i, j :: 0 <= i < |parts| - 1 && 0 <= j < |parts[i]| ==>
      !OccursAt(parts[i] + sep, sep, j)
    decreases |s|
  {
    var m := FindFrom(s, sep, 0);
    if m.None? then [s]
    else
      var i := m.value;
      var head := s[..i];
      var rest := SplitOn(s[i + |sep|..], sep);
      assert s == head + sep + s[i + |sep|..];
      FirstCut(s, sep, i);
      var parts := [head] + rest;
      assert forall k :: 1 <= k < |parts| ==> parts[k] == rest[k - 1];
      parts
  }

  /** The text before the leftmost occurrence of `sep` holds no occurrence,
      and none starts inside it and runs into the occurrence. */
  lemma FirstCut(s: string, sep: string, i: nat)
    requires |sep| > 0
    requires OccursAt(s, sep, i)
    requires forall j :: 0 <= j < i ==> !OccursAt(s, sep, j)
    ensures forall j :: 0 <= j ==> !OccursAt(s[..i], sep, j)
    ensures forall j :: 0 <= j < i ==> !OccursAt(s[..i] + sep, sep, j)
  {
    var head := s[..i];
    assert head + sep == s[..i + |sep|];
    forall j | 0 <= j
      ensures !OccursAt(head, sep, j)
    {
      if j + |sep| <= |head| {
        assert !OccursAt(s, sep, j);
        assert head[j..j + |sep|] == s[j..j + |sep|];
      }
    }
    forall j | 0 <= j < i
      ensures !OccursAt(head + sep, sep, j)
    {
      assert !OccursAt(s, sep, j);
      assert (head + sep)[j..j + |sep|] == s[..i + |sep|][j..j + |sep|] == s[j..j + |sep|];
    }
  }

  /** Splitting a join on a separator character that no part contains gives
      the parts back. */
  lemma {:induction false} SplitJoinChar(parts: seq<string>, c: char)
    requires |parts| >= 1
    requires forall i :: 0 <= i < |parts| ==> c !in parts[i]
    ensures SplitOn(Join(parts, [c]), [c]) == parts
    decreases |parts|
  {
    var s := Join(parts, [c]);
    if |parts| == 1 {
      assert s == parts[0];
      forall j | 0 <= j
        ensures !OccursAt(s, [c], j)
      {
        if j + 1 <= |s| {
          assert s[j..j + 1] == [s[j]];
        }
      }
      assert FindFrom(s, [c], 0).None?;
    } else {
      var p0 := parts[0];
      assert s == p0 + [c] + Join(parts[1..], [c]);
      assert OccursAt(s, [c], |p0|);
      forall j | 0 <= j < |p0|
        ensures !OccursAt(s, [c], j)
      {
        assert s[j] == p0[j];
      }
      assert FindFrom(s, [c], 0) == Some(|p0|);
      assert s[..|p0|] == p0;
      assert s[|p0| + 1..] == Join(parts[1..], [c]);
      SplitJoinChar(parts[1..], c);
    }
  }

  /** `str(n)` for a natural number */
  function DecimalString(n: nat): (r: string)
    ensures |r| > 0
    ensures forall i :: 0 <= i < |r| ==> IsDigit(r[i])
    decreases n
  {
    if n < 10 then [DigitChar(n)] else DecimalString(n / 10) + [DigitChar(n % 10)]
  }

  function DigitChar(d: nat): (c: char)
    requires d < 10
    ensures IsDigit(c)
  {
    ('0' as int + d) as char
  }

  /** The value a string of decimal digits denotes */
  function DecimalValue(s: string): nat
    requires forall i :: 0 <= i < |s| ==> IsDigit(s[i])
  {
    if |s| == 0 then 0
    else
      assert IsDigit(s[|s| - 1]);
      10 * DecimalValue(s[..|s| - 1]) + (s[|s| - 1] as int - '0' as int)
  }

  /** Reading back the digits `str(n)` prints gives `n` */
  lemma {:induction false} DecimalRoundTrip(n: nat)
    ensures DecimalValue(DecimalString(n)) == n
    decreases n
  {
    var r := DecimalString(n);
    if n >= 10 {
      assert r[..|r| - 1] == DecimalString(n / 10);
      DecimalRoundTrip(n / 10);
    }
  }
}
