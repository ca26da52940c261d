/** The conflict extractor of `ExpertAgent.diagnose_conflict_from_log`: the
    package names a free-form failure log mentions. Each regular-expression
    family is a scanner that mirrors `re.finditer`: it tries a match at each
    position from left to right and, after a match, resumes where the match
    ended, so matches never overlap. */
module Diagnosis {
  import opened Wrappers
  import opened Text

  /** Words that are never reported as package names */
  const Noise: set<string> := {
    "python", "pip", "setuptools", "wheel", "setup", "dependencies",
    "versions", "requirement", "conflict", "between", "and", "the",
    "version", "package", "for"
  }

  /** `_is_valid_package_name`; its emptiness test is implied by the length test */
  predicate IsValidPackageName(name: string) {
    |name| > 1 && name !in Noise
  }

  /** What every reported name looks like */
  predicate IsReportedName(n: string) {
    IsValidPackageName(n) && IsLowerCase(n) && AllNameChars(n) && n != "-"
  }

  /** The three name-then-version families: `name==1.0` (any comparison
      operator), `name 1.0` and `name (1.0)` */
  datatype Family = Operator | Loose | Paren

  /** Length of the comparison operator at `e`, trying `==`, `>=`, `<=`,
      `~=`, `!=`, `<`, `>` in this order; 0 when there is none */
  function OperatorLength(s: string, e: nat): (n: nat)
    requires e <= |s|
    ensures n <= 2 && e + n <= |s|
    ensures forall k :: e <= k < e + n ==> !IsNameChar(s[k])
  {
    if OccursAt(s, "==", e) || OccursAt(s, ">=", e) || OccursAt(s, "<=", e)
       || OccursAt(s, "~=", e) || OccursAt(s, "!=", e)
    then
      assert s[e] == s[e..e + 2][0] && s[e + 1] == s[e..e + 2][1];
      2
    else if OccursAt(s, "<", e) || OccursAt(s, ">", e) then
      assert s[e] == s[e..e + 1][0];
      1
    else 0
  }

  /** A dot at `i` is followed by a digit before `r` */
  predicate DotThenDigit(s: string, i: nat, r: nat)
    requires i < r <= |s|
  {
    s[i] == '.' ==> i + 1 < r && IsDigit(s[i + 1])
  }

  /** End of the greedy `(?:\.\d+)*` that starts at `k`: it stops where no
      further dot-and-digit follows, after a digit unless it is empty */
  function GroupsEnd(s: string, k: nat): (g: nat)
    requires k <= |s|
    ensures k <= g <= |s|
    ensures forall i :: k <= i < g ==> s[i] == '.' || IsDigit(s[i])
    ensures forall i :: k <= i < g ==> DotThenDigit(s, i, g)
    ensures g > k ==> IsDigit(s[g - 1]) && (g == |s| || !IsDigit(s[g]))
    ensures !(g + 1 < |s| && s[g] == '.' && IsDigit(s[g + 1]))
    decreases |s| - k
  {
    if k + 1 < |s| && s[k] == '.' && IsDigit(s[k + 1]) then GroupsEnd(s, DigitEnd(s, k + 1))
    else k
  }

  /** End of a dotted number `\d+(?:\.\d+)+` that starts at `j`, if there
      is one: there is exactly when digits at `j` are followed by a dot and a
      digit, and then it takes every further dot-and-digits group */
  function DottedNumberEnd(s: string, j: nat): (r: Option<nat>)
    requires j <= |s|
    ensures r.Some? <==> (DigitEnd(s, j) > j && DigitEnd(s, j) + 1 < |s|
                          && s[DigitEnd(s, j)] == '.' && IsDigit(s[DigitEnd(s, j) + 1]))
    ensures r.Some? ==> j < r.value <= |s|
    ensures r.Some? ==> forall i :: j <= i < r.value ==> s[i] == '.' || IsDigit(s[i])
    ensures r.Some? ==> forall i :: j <= i < r.value ==> DotThenDigit(s, i, r.value)
    ensures r.Some? ==> IsDigit(s[r.value - 1]) && (r.value == |s| || !IsDigit(s[r.value]))
    ensures r.Some? ==> !(r.value + 1 < |s| && s[r.value] == '.' && IsDigit(s[r.value + 1]))
  {
    var d := DigitEnd(s, j);
    if d == j then None
    else
      var g := GroupsEnd(s, d);
      if g == d then None else Some(g)
  }

  /** `s[j..r]` is what the greedy `\d+(?:\.\d+)+` takes at `j`: it starts
      with a digit, holds only digits and dots, has a dot, every dot is
      followed by a digit, and neither a digit nor a dot-and-digit follows */
  predicate DottedNumberAt(s: string, j: nat, r: nat) {
    && j < r <= |s|
    && IsDigit(s[j])
    && (forall i :: j <= i < r ==> s[i] == '.' || IsDigit(s[i]))
    && (forall i :: j <= i < r ==> DotThenDigit(s, i, r))
    && '.' in s[j..r]
    && (r == |s| || !IsDigit(s[r]))
    && !(r + 1 < |s| && s[r] == '.' && IsDigit(s[r + 1]))
  }

  /** The dotted number found at `j` has that shape */
  lemma DottedNumberEndSound(s: string, j: nat)
    requires j <= |s| && DottedNumberEnd(s, j).Some?
    ensures DottedNumberAt(s, j, DottedNumberEnd(s, j).value)
  {
    var d := DigitEnd(s, j);
    var r := DottedNumberEnd(s, j).value;
    assert r == GroupsEnd(s, d) && d < r;
    assert s[j..r][d - j] == '.';
  }

  /** A dotted number of that shape is the one found at `j`: the shape fixes
      where the number ends */
  lemma DottedNumberEndAt(s: string, j: nat, r: nat)
    requires DottedNumberAt(s, j, r)
    ensures DottedNumberEnd(s, j) == Some(r)
  {
    var d := DigitEnd(s, j);
    var x :| 0 <= x < r - j && s[j..r][x] == '.';
    assert s[j + x] == '.';
    assert d <= j + x;
    assert d < r && DotThenDigit(s, d, r);
    DottedNumberEndSound(s, j);
    DottedNumberUnique(s, j, r, DottedNumberEnd(s, j).value);
  }

  /** Two ends of the shape at the same start coincide */
  lemma DottedNumberUnique(s: string, j: nat, r1: nat, r2: nat)
    requires DottedNumberAt(s, j, r1) && DottedNumberAt(s, j, r2)
    ensures r1 == r2
  {
    assert r1 < r2 ==> DotThenDigit(s, r1, r2);
    assert r2 < r1 ==> DotThenDigit(s, r2, r1);
  }

  /** Where a match of the family ends when its name ends at `e`, if the
      rest of the family's pattern matches there. What follows the name is
      operator characters, spaces, parentheses, dots and digits. */
  function TailEnd(s: string, fam: Family, e: nat): (r: Option<nat>)
    requires e <= |s|
    ensures r.Some? ==> e < r.value <= |s|
    ensures r.Some? ==> forall k :: e <= k < r.value ==>
              !IsNameChar(s[k]) || (fam != Operator && IsDigit(s[k]))
  {
    match fam
    case Operator =>
      var n := OperatorLength(s, e);
      if n == 0 then None else Some(e + n)
    case Loose => LooseTailEnd(s, e)
    case Paren => ParenTailEnd(s, e)
  }

  /** `\s+\d+(?:\.\d+)+` after the name */
  function LooseTailEnd(s: string, e: nat): (r: Option<nat>)
    requires e <= |s|
    ensures r.Some? ==> e < r.value <= |s|
    ensures r.Some? ==> forall k :: e <= k < r.value ==> !IsNameChar(s[k]) || IsDigit(s[k])
  {
    var w := SpaceEnd(s, e);
    assert forall k :: e <= k < w ==> !IsNameChar(s[k]);
    if w == e then None else DottedNumberEnd(s, w)
  }

  /** `\s*\(\d+(?:\.\d+)+\)` after the name */
  function ParenTailEnd(s: string, e: nat): (r: Option<nat>)
    requires e <= |s|
    ensures r.Some? ==> e < r.value <= |s|
    ensures r.Some? ==> forall k :: e <= k < r.value ==> !IsNameChar(s[k]) || IsDigit(s[k])
  {
    var w := SpaceEnd(s, e);
    if w == |s| || s[w] != '(' then None else ParenCloseEnd(s, e, w)
  }

  /** After the `(` at `w`, which only whitespace since `e` precedes: a dotted number and `)` */
  function ParenCloseEnd(s: string, e: nat, w: nat): (r: Option<nat>)
    requires e <= w < |s| && s[w] == '('
    requires forall k :: e <= k < w ==> IsSpace(s[k])
    ensures r.Some? ==> w + 1 < r.value <= |s|
    ensures r.Some? ==> forall k :: e <= k < r.value ==> !IsNameChar(s[k]) || IsDigit(s[k])
  {
    var d := DottedNumberEnd(s, w + 1);
    if d.None? then None
    else
      var g := d.value;
      if g == |s| || s[g] != ')' then None
      else
        ParenTailChars(s, e, w, g);
        Some(g + 1)
  }


  /** Whitespace, `(`, dots and digits, and `)` hold no name character but digits */
  lemma ParenTailChars(s: string, e: nat, w: nat, g: nat)
    requires e <= w < g < |s|
    requires forall k :: e <= k < w ==> IsSpace(s[k])
    requires s[w] == '(' && s[g] == ')'
    requires forall k :: w + 1 <= k < g ==> s[k] == '.' || IsDigit(s[k])
    ensures forall k :: e <= k < g + 1 ==> !IsNameChar(s[k]) || IsDigit(s[k])
  {
    forall k | e <= k < g + 1
      ensures !IsNameChar(s[k]) || IsDigit(s[k])
    {
      if k < w {
        assert IsSpace(s[k]);
      }
    }
  }

  /** The operator family's tail matches after a name ending at `e` exactly
      when one of the comparison operators follows there */
  lemma TailEndMeaning(s: string, e: nat)
    requires e <= |s|
    ensures TailEnd(s, Operator, e).Some? <==> FollowedByOperator(s, e)
  {
  }

  /** When the loose family's tail matches, whitespace and a dotted number
      follow the name, and the match ends with the number */
  lemma LooseTailSound(s: string, e: nat) returns (w: nat)
    requires e <= |s| && TailEnd(s, Loose, e).Some?
    ensures FollowedByLooseVersion(s, e, w, TailEnd(s, Loose, e).value)
  {
    w := SpaceEnd(s, e);
    DottedNumberEndSound(s, w);
  }

  /** Whitespace and a dotted number after the name make the loose family's
      tail match, up to the end of the number */
  lemma LooseTailAt(s: string, e: nat, w: nat, r: nat)
    requires FollowedByLooseVersion(s, e, w, r)
    ensures TailEnd(s, Loose, e) == Some(r)
  {
    SpanEndAt(s, e, IsSpace, w);
    DottedNumberEndAt(s, w, r);
  }

  /** When the parenthesis family's tail matches, optional whitespace and a
      parenthesised dotted number follow the name, and the match ends after
      the closing parenthesis */
  lemma ParenTailSound(s: string, e: nat) returns (w: nat, r: nat)
    requires e <= |s| && TailEnd(s, Paren, e).Some?
    ensures FollowedByParenVersion(s, e, w, r) && TailEnd(s, Paren, e) == Some(r + 1)
  {
    assert TailEnd(s, Paren, e) == ParenTailEnd(s, e);
    w := SpaceEnd(s, e);
    assert w < |s| && s[w] == '(';
    assert ParenTailEnd(s, e) == ParenCloseEnd(s, e, w);
    r := ParenCloseSound(s, e, w);
  }

  /** A `(`, the dotted number ending at `r` and a `)` after the whitespace close the tail at `r + 1` */
  lemma ParenTailEndAt(s: string, e: nat, w: nat, r: nat)
    requires e <= |s| && w == SpaceEnd(s, e) && w < |s| && s[w] == '('
    requires DottedNumberEnd(s, w + 1) == Some(r) && r < |s| && s[r] == ')'
    ensures ParenTailEnd(s, e) == Some(r + 1)
  {
    ParenCloseEndAt(s, e, w, r);
  }

  lemma ParenCloseSound(s: string, e: nat, w: nat) returns (r: nat)
    requires e <= w < |s| && s[w] == '('
    requires forall k :: e <= k < w ==> IsSpace(s[k])
    requires ParenCloseEnd(s, e, w).Some?
    ensures DottedNumberAt(s, w + 1, r) && r < |s| && s[r] == ')'
    ensures ParenCloseEnd(s, e, w) == Some(r + 1)
  {
    r := DottedNumberEnd(s, w + 1).value;
    DottedNumberEndSound(s, w + 1);
  }

  lemma ParenCloseEndAt(s: string, e: nat, w: nat, r: nat)
    requires e <= w < |s| && s[w] == '('
    requires forall k :: e <= k < w ==> IsSpace(s[k])
    requires DottedNumberEnd(s, w + 1) == Some(r) && r < |s| && s[r] == ')'
    ensures ParenCloseEnd(s, e, w) == Some(r + 1)
  {
  }

  /** Optional whitespace and a parenthesised dotted number after the name
      make the parenthesis family's tail match, up to the `)` */
  lemma ParenTailAt(s: string, e: nat, w: nat, r: nat)
    requires FollowedByParenVersion(s, e, w, r)
    ensures TailEnd(s, Paren, e) == Some(r + 1)
  {
    SpanEndAt(s, e, IsSpace, w);
    DottedNumberEndAt(s, w + 1, r);
    ParenTailEndAt(s, e, w, r);
  }

  /** `finditer` of one family from position `q`: each captured name is
      lower-cased and kept when it passes the noise filter */
  function ScanFamily(s: string, fam: Family, q: nat): (names: set<string>)
    requires q <= |s|
    ensures forall n :: n in names ==> IsValidPackageName(n) && IsLowerCase(n) && AllNameChars(n)
    decreases |s| - q
  {
    if q == |s| then {}
    else if !IsNameChar(s[q]) then ScanFamily(s, fam, q + 1)
    else
      var e := RunEnd(s, q);
      var t := TailEnd(s, fam, e);
      if t.Some? then
        var name := Lower(s[q..e]);
        (if IsValidPackageName(name) then {name} else {}) + ScanFamily(s, fam, t.value)
      else ScanFamily(s, fam, q + 1)
  }

  /** Every name a family reports is the lower-cased name run of a match:
      a position at or after `q` where a name character starts a run that
      the family's operator or version follows */
  lemma {:induction false} ScanFamilySound(s: string, fam: Family, q: nat, n: string) returns (a: nat)
    requires q <= |s| && n in ScanFamily(s, fam, q)
    ensures q <= a < |s| && IsNameChar(s[a])
    ensures TailEnd(s, fam, RunEnd(s, a)).Some?
    ensures n == Lower(s[a..RunEnd(s, a)])
    decreases |s| - q
  {
    assert q < |s|;
    if !IsNameChar(s[q]) {
      assert ScanFamily(s, fam, q) == ScanFamily(s, fam, q + 1);
      a := ScanFamilySound(s, fam, q + 1, n);
    } else {
      var e := RunEnd(s, q);
      var t := TailEnd(s, fam, e);
      if t.Some? {
        var name := Lower(s[q..e]);
        assert ScanFamily(s, fam, q) == (if IsValidPackageName(name) then {name} else {}) + ScanFamily(s, fam, t.value);
        if n == name {
          a := q;
        } else {
          a := ScanFamilySound(s, fam, t.value, n);
        }
      } else {
        assert ScanFamily(s, fam, q) == ScanFamily(s, fam, q + 1);
        a := ScanFamilySound(s, fam, q + 1, n);
      }
    }
  }

  /** The two contextual phrases: `conflict(s) between/among/with/in <list>`
      and `requirement <name>`, both matched case-insensitively */
  datatype Phrase = ConflictList | RequirementName

  /** The first keyword of `kws` that occurs at `w` followed by at least one
      space; the result is where the spaces end */
  function KeywordThenSpace(s: string, w: nat, kws: seq<string>): (r: Option<nat>)
    requires w <= |s|
    ensures r.Some? ==> w < r.value <= |s|
  {
    if |kws| == 0 then None
    else if CiOccursAt(s, kws[0], w) && SpaceEnd(s, w + |kws[0]|) > w + |kws[0]|
    then Some(SpaceEnd(s, w + |kws[0]|))
    else KeywordThenSpace(s, w, kws[1..])
  }

  /** Where the alternation matches, some keyword occurs at `w` followed by
      whitespace, and the match ends where that whitespace ends */
  lemma {:induction false} KeywordThenSpaceSound(s: string, w: nat, kws: seq<string>) returns (i: nat)
    requires w <= |s| && KeywordThenSpace(s, w, kws).Some?
    ensures i < |kws| && CiOccursAt(s, kws[i], w)
    ensures w + |kws[i]| < KeywordThenSpace(s, w, kws).value
    ensures KeywordThenSpace(s, w, kws).value == SpaceEnd(s, w + |kws[i]|)
    decreases |kws|
  {
    if CiOccursAt(s, kws[0], w) && SpaceEnd(s, w + |kws[0]|) > w + |kws[0]| {
      i := 0;
    } else {
      var rest := kws[1..];
      KeywordThenSpaceSkip(s, w, kws);
      var j := KeywordThenSpaceSound(s, w, rest);
      i := j + 1;
      assert rest[j] == kws[i];
    }
  }

  lemma KeywordThenSpaceSkip(s: string, w: nat, kws: seq<string>)
    requires w <= |s| && |kws| > 0
    requires !(CiOccursAt(s, kws[0], w) && SpaceEnd(s, w + |kws[0]|) > w + |kws[0]|)
    ensures KeywordThenSpace(s, w, kws) == KeywordThenSpace(s, w, kws[1..])
  {
  }

  /** The `i`-th keyword followed by whitespace up to `g` makes the
      alternation match and end at `g`, when no earlier keyword occurs at `w` */
  lemma {:induction false} KeywordThenSpaceAt(s: string, w: nat, kws: seq<string>, i: nat, g: nat)
    requires w <= |s| && i < |kws| && CiOccursAt(s, kws[i], w)
    requires forall j :: 0 <= j < i ==> !CiOccursAt(s, kws[j], w)
    requires w + |kws[i]| < g <= |s|
    requires forall j :: w + |kws[i]| <= j < g ==> IsSpace(s[j])
    requires g == |s| || !IsSpace(s[g])
    ensures KeywordThenSpace(s, w, kws) == Some(g)
    decreases i
  {
    if i == 0 {
      SpanEndAt(s, w + |kws[0]|, IsSpace, g);
    } else {
      assert !CiOccursAt(s, kws[0], w);
      assert forall j :: 0 <= j < i - 1 ==> kws[1..][j] == kws[j + 1];
      KeywordThenSpaceAt(s, w, kws[1..], i - 1, g);
    }
  }

  /** The alternation `between|among|with|in`, in the order it is tried */
  const ConflictKeywords: seq<string> := ["between", "among", "with", "in"]

  /** `conflict(?:s)?\s+(?:between|among|with|in)\s+` at `p`: where the list begins */
  function ConflictListStart(s: string, p: nat): (r: Option<nat>)
    requires p <= |s|
    ensures r.Some? ==> p < r.value <= |s|
  {
    if !CiOccursAt(s, "conflict", p) then None
    else
      var k := if CiOccursAt(s, "s", p + 8) then p + 9 else p + 8;
      var w := SpaceEnd(s, k);
      if w == k then None
      else KeywordThenSpace(s, w, ConflictKeywords)
  }

  /** The lead-in of the conflict phrase spans `[p, g)`: "conflict" in any
      case, an optional "s" ending at `k`, whitespace up to the keyword at
      `w`, the `i`-th keyword, and whitespace up to `g`, where it stops */
  predicate ConflictLead(s: string, p: nat, k: nat, w: nat, i: nat, g: nat) {
    && CiOccursAt(s, "conflict", p)
    && (k == p + 8 || (k == p + 9 && CiOccursAt(s, "s", p + 8)))
    && k < w <= |s| && (forall j :: k <= j < w ==> IsSpace(s[j]))
    && i < |ConflictKeywords| && CiOccursAt(s, ConflictKeywords[i], w)
    && w + |ConflictKeywords[i]| < g <= |s|
    && (forall j :: w + |ConflictKeywords[i]| <= j < g ==> IsSpace(s[j]))
    && (g == |s| || !IsSpace(s[g]))
  }

  /** Where the conflict lead-in stops, it has the layout of the pattern */
  lemma ConflictListStartSound(s: string, p: nat) returns (k: nat, w: nat, i: nat)
    requires p <= |s| && ConflictListStart(s, p).Some?
    ensures ConflictLead(s, p, k, w, i, ConflictListStart(s, p).value)
  {
    k := if CiOccursAt(s, "s", p + 8) then p + 9 else p + 8;
    w := SpaceEnd(s, k);
    i := KeywordThenSpaceSound(s, w, ConflictKeywords);
  }

  /** The `x`-th character of a case-insensitive occurrence lowers to the
      literal's `x`-th character */
  lemma CiCharAt(s: string, lit: string, p: nat, x: nat)
    requires x < |lit| && CiOccursAt(s, lit, p)
    ensures LowerChar(s[p + x]) == lit[x]
  {
    assert Lower(s[p..p + |lit|])[x] == LowerChar(s[p + x]);
  }

  /** A literal whose `x`-th character differs from the lower-cased
      character at `p + x` does not occur at `p` */
  lemma CiMismatchAt(s: string, lit: string, p: nat, x: nat)
    requires x < |lit| && p + x < |s| && LowerChar(s[p + x]) != lit[x]
    ensures !CiOccursAt(s, lit, p)
  {
    if p + |lit| <= |s| {
      assert Lower(s[p..p + |lit|])[x] == LowerChar(s[p + x]);
    }
  }

  /** Wherever the lead-in of the pattern is laid out, the conflict list
      starts where it stops */
  lemma ConflictListStartAt(s: string, p: nat, k: nat, w: nat, i: nat, g: nat)
    requires ConflictLead(s, p, k, w, i, g)
    ensures ConflictListStart(s, p) == Some(g)
  {
    var kw := ConflictKeywords[i];
    if CiOccursAt(s, "s", p + 8) {
      CiCharAt(s, "s", p + 8, 0);
      assert !IsSpace(s[p + 8]);
    }
    CiCharAt(s, kw, w, 0);
    assert !IsSpace(s[w]);
    SpanEndAt(s, k, IsSpace, w);
    EarlierKeywordsAbsent(s, w, i);
    KeywordThenSpaceAt(s, w, ConflictKeywords, i, g);
    assert ConflictListStart(s, p) == KeywordThenSpace(s, w, ConflictKeywords);
  }

  /** The keywords have distinct first letters, so where one occurs, none
      tried before it does */
  lemma EarlierKeywordsAbsent(s: string, w: nat, i: nat)
    requires i < |ConflictKeywords| && CiOccursAt(s, ConflictKeywords[i], w)
    ensures forall j :: 0 <= j < i ==> !CiOccursAt(s, ConflictKeywords[j], w)
  {
    CiCharAt(s, ConflictKeywords[i], w, 0);
    forall j | 0 <= j < i
      ensures !CiOccursAt(s, ConflictKeywords[j], w)
    {
      assert ConflictKeywords[j][0] != ConflictKeywords[i][0];
      CiMismatchAt(s, ConflictKeywords[j], w, 0);
    }
  }

  predicate IsListSeparator(c: char) {
    c == ',' || IsSpace(c)
  }

  /** Characters of a captured list: names, commas and spaces */
  predicate IsListChar(c: char) {
    IsNameChar(c) || IsListSeparator(c)
  }

  /** Where a conflict list can go on at `k`: a name character, whitespace,
      or a comma right after a name character. The greedy list pattern
      `(?:NAME(?:,?\s+and\s+|,?\s*)?)+` runs on exactly through such
      positions: a comma is only taken straight after a name. */
  predicate ListContinues(s: string, k: nat)
    requires k < |s|
  {
    IsNameChar(s[k]) || IsSpace(s[k]) || (s[k] == ',' && k > 0 && IsNameChar(s[k - 1]))
  }

  /** The separator after a list item: `,?\s+and\s+` when it matches, otherwise `,?\s*` */
  function SeparatorEnd(s: string, e: nat): (r: nat)
    requires e <= |s|
    ensures e <= r <= |s|
    ensures forall k :: e <= k < r ==> IsListChar(s[k])
    ensures e > 0 && IsNameChar(s[e - 1]) ==> forall k :: e <= k < r ==> ListContinues(s, k)
    ensures r == |s| || IsNameChar(s[r]) || !ListContinues(s, r)
  {
    var c := if e < |s| && s[e] == ',' then e + 1 else e;
    var w := SpaceEnd(s, c);
    CommaSpacesContinue(s, e, c, w);
    if w > c && CiOccursAt(s, "and", w) && SpaceEnd(s, w + 3) > w + 3 then
      CiOccurrenceIsName(s, "and", w);
      AndSpacesContinue(s, w, SpaceEnd(s, w + 3));
      SpaceEnd(s, w + 3)
    else w
  }

  /** An optional comma and whitespace after a name go on with the list,
      and the list cannot go on with a comma after them */
  lemma CommaSpacesContinue(s: string, e: nat, c: nat, w: nat)
    requires e <= c <= w <= |s|
    requires (c == e + 1 && s[e] == ',') || (c == e && (e == |s| || s[e] != ','))
    requires forall k :: c <= k < w ==> IsSpace(s[k])
    requires w == |s| || !IsSpace(s[w])
    ensures forall k :: e <= k < w ==> IsListChar(s[k])
    ensures e > 0 && IsNameChar(s[e - 1]) ==> forall k :: e <= k < w ==> ListContinues(s, k)
    ensures w == |s| || IsNameChar(s[w]) || !ListContinues(s, w)
  {
  }

  /** `and` and the whitespace after it go on with the list */
  lemma AndSpacesContinue(s: string, w: nat, r: nat)
    requires w + 3 < r <= |s|
    requires forall k :: w <= k < w + 3 ==> IsNameChar(s[k])
    requires forall k :: w + 3 <= k < r ==> IsSpace(s[k])
    requires r == |s| || !IsSpace(s[r])
    ensures forall k :: w <= k < r ==> IsListChar(s[k]) && ListContinues(s, k)
    ensures r == |s| || IsNameChar(s[r]) || !ListContinues(s, r)
  {
  }

  /** A case-insensitive occurrence of a name literal consists of name characters */
  lemma CiOccurrenceIsName(s: string, lit: string, p: nat)
    requires AllNameChars(lit) && CiOccursAt(s, lit, p)
    ensures forall k :: p <= k < p + |lit| ==> IsNameChar(s[k])
  {
    forall k | p <= k < p + |lit|
      ensures IsNameChar(s[k])
    {
      var t := s[p..p + |lit|];
      assert t[k - p] == s[k];
      assert Lower(t)[k - p] == LowerChar(s[k]);
    }
  }

  /** End of the greedy `(?:NAME(?:SEP)?)+` that starts at a name character:
      the first position from `i` where the list cannot go on */
  function ListEnd(s: string, i: nat): (g: nat)
    requires i < |s| && IsNameChar(s[i])
    ensures i < g <= |s|
    ensures forall k :: i <= k < g ==> IsListChar(s[k])
    ensures forall k :: i <= k < g ==> ListContinues(s, k)
    ensures g == |s| || !ListContinues(s, g)
    decreases |s| - i
  {
    var e := RunEnd(s, i);
    var n := SeparatorEnd(s, e);
    if n < |s| && IsNameChar(s[n]) then ListEnd(s, n) else n
  }

  /** The span of the captured group when the phrase matches at `p`. The
      conflict phrase captures, from where its lead-in stops, everything up
      to where the list cannot go on; the requirement phrase captures the
      whole name run after "requirement" and whitespace. */
  function PhraseMatch(s: string, ph: Phrase, p: nat): (r: Option<(nat, nat)>)
    requires p <= |s|
    ensures r.Some? ==> p < r.value.0 < r.value.1 <= |s|
    ensures r.Some? ==> forall k :: r.value.0 <= k < r.value.1 ==> IsListChar(s[k])
    ensures r.Some? ==> IsNameChar(s[r.value.0])
    ensures ph == ConflictList && r.Some? ==>
              && ConflictListStart(s, p) == Some(r.value.0)
              && (forall k :: r.value.0 <= k < r.value.1 ==> ListContinues(s, k))
              && (r.value.1 == |s| || !ListContinues(s, r.value.1))
    ensures ph == RequirementName && r.Some? ==>
              && CiOccursAt(s, "requirement", p) && p + 11 < r.value.0
              && (forall k :: p + 11 <= k < r.value.0 ==> IsSpace(s[k]))
              && (forall k :: r.value.0 <= k < r.value.1 ==> IsNameChar(s[k]))
              && (r.value.1 == |s| || !IsNameChar(s[r.value.1]))
  {
    match ph
    case ConflictList =>
      var c := ConflictListStart(s, p);
      if c.Some? && c.value < |s| && IsNameChar(s[c.value]) then Some((c.value, ListEnd(s, c.value)))
      else None
    case RequirementName =>
      if !CiOccursAt(s, "requirement", p) then None
      else
        var w := SpaceEnd(s, p + 11);
        if w > p + 11 && w < |s| && IsNameChar(s[w]) then Some((w, RunEnd(s, w))) else None
  }

  /** When each phrase matches: the conflict phrase wherever its lead-in
      stops at a name character, the requirement phrase wherever
      "requirement" and whitespace are followed by a name character */
  lemma PhraseMatchMeaning(s: string, ph: Phrase, p: nat)
    requires p <= |s|
    ensures var r := PhraseMatch(s, ph, p);
      && (ph == ConflictList ==>
            (r.Some? <==> ConflictListStart(s, p).Some? && ConflictListStart(s, p).value < |s|
                          && IsNameChar(s[ConflictListStart(s, p).value])))
      && ((&& ph == RequirementName && CiOccursAt(s, "requirement", p)
           && p + 11 < |s| && IsSpace(s[p + 11])
           && SpaceEnd(s, p + 11) < |s| && IsNameChar(s[SpaceEnd(s, p + 11)])) ==> r.Some?)
  {
  }

  /** `ListEnd` is pinned down by the first position where the list cannot go on */
  lemma ListEndAt(s: string, i: nat, g: nat)
    requires i < g <= |s| && IsNameChar(s[i])
    requires forall k :: i <= k < g ==> ListContinues(s, k)
    requires g == |s| || !ListContinues(s, g)
    ensures ListEnd(s, i) == g
  {
  }

  /** The lead-in of the conflict phrase followed by a name character and a
      list running on up to `e` matches, and the group is exactly `[g, e)` */
  lemma ConflictMatchAt(s: string, p: nat, k: nat, w: nat, i: nat, g: nat, e: nat)
    requires ConflictLead(s, p, k, w, i, g)
    requires g < e <= |s| && IsNameChar(s[g])
    requires forall j :: g <= j < e ==> ListContinues(s, j)
    requires e == |s| || !ListContinues(s, e)
    ensures PhraseMatch(s, ConflictList, p) == Some((g, e))
  {
    ConflictListStartAt(s, p, k, w, i, g);
    ListEndAt(s, g, e);
  }

  predicate IsTokenChar(c: char) {
    !IsListSeparator(c)
  }

  /** `re.split(r'[,\s]+', t)`: the pieces between maximal runs of commas
      and whitespace. Only the first and the last piece can be empty. */
  function SplitOnSeparators(t: string): (parts: seq<string>)
    ensures |parts| >= 1
    ensures forall i, k :: 0 <= i < |parts| && 0 <= k < |parts[i]| ==> IsTokenChar(parts[i][k])
    ensures forall i :: 0 < i < |parts| - 1 ==> |parts[i]| > 0
    ensures |t| == 0 ==> parts == [t]
    ensures |t| > 0 && IsTokenChar(t[0]) ==> |parts[0]| > 0
    ensures (forall k :: 0 <= k < |t| ==> IsListChar(t[k])) ==>
              forall i :: 0 <= i < |parts| ==> AllNameChars(parts[i])
    decreases |t|
  {
    var i := SpanEnd(t, 0, IsTokenChar);
    if i == |t| then [t]
    else
      var j := SpanEnd(t, i, IsListSeparator);
      var u := t[j..];
      assert forall k :: 0 <= k < |u| ==> u[k] == t[j + k];
      assert |u| > 0 ==> IsTokenChar(u[0]);
      var rest := SplitOnSeparators(u);
      [t[..i]] + rest
  }

  /** Pieces separated by runs of separators: the string `re.split` cuts */
  function Interleave(parts: seq<string>, seps: seq<string>): string
    requires |parts| == |seps| + 1
    decreases |seps|
  {
    if |seps| == 0 then parts[0] else parts[0] + seps[0] + Interleave(parts[1..], seps[1..])
  }

  /** Splitting pieces joined by non-empty separator runs gives the pieces
      back, when no piece holds a separator and only the first and last may
      be empty */
  lemma {:induction false} SplitInterleave(parts: seq<string>, seps: seq<string>)
    requires |parts| == |seps| + 1
    requires forall i, k :: 0 <= i < |parts| && 0 <= k < |parts[i]| ==> IsTokenChar(parts[i][k])
    requires forall i :: 0 < i < |parts| - 1 ==> |parts[i]| > 0
    requires forall i, k :: 0 <= i < |seps| && 0 <= k < |seps[i]| ==> IsListSeparator(seps[i][k])
    requires forall i :: 0 <= i < |seps| ==> |seps[i]| > 0
    ensures SplitOnSeparators(Interleave(parts, seps)) == parts
    decreases |seps|
  {
    var t := Interleave(parts, seps);
    if |seps| == 0 {
      SpanEndAt(t, 0, IsTokenChar, |t|);
    } else {
      var p0, s0 := parts[0], seps[0];
      var rest := Interleave(parts[1..], seps[1..]);
      assert t == p0 + s0 + rest;
      assert t[|p0|] == s0[0];
      SpanEndAt(t, 0, IsTokenChar, |p0|);
      var j := |p0| + |s0|;
      if |rest| > 0 {
        InterleaveHead(parts[1..], seps[1..]);
        assert |parts[1]| > 0;
        assert t[j] == rest[0] == parts[1][0];
      }
      SpanEndAt(t, |p0|, IsListSeparator, j);
      assert t[..|p0|] == p0;
      assert t[j..] == rest;
      SplitInterleave(parts[1..], seps[1..]);
    }
  }

  /** An interleaving starts with the first piece */
  lemma InterleaveHead(parts: seq<string>, seps: seq<string>)
    requires |parts| == |seps| + 1
    requires |Interleave(parts, seps)| > 0
    ensures |parts[0]| > 0 ==> Interleave(parts, seps)[0] == parts[0][0]
  {
  }

  predicate IsQuote(c: char) {
    c == '`' || c == '\''
  }

  /** A token with its quotes stripped, lower-cased */
  function TokenName(t: string): string {
    Lower(StripWith(t, IsQuote))
  }

  /** The valid names among the tokens of a captured list */
  function ListNames(raw: string): (names: set<string>)
    ensures forall n :: n in names ==> IsValidPackageName(n) && IsLowerCase(n)
    ensures (forall k :: 0 <= k < |raw| ==> IsListChar(raw[k])) ==>
              forall n :: n in names ==> AllNameChars(n)
  {
    var toks := SplitOnSeparators(raw);
    set t | t in toks && IsValidPackageName(TokenName(t)) :: TokenName(t)
  }

  /** `finditer` of one contextual phrase from position `p` */
  function ScanPhrase(s: string, ph: Phrase, p: nat): (names: set<string>)
    requires p <= |s|
    ensures forall n :: n in names ==> IsValidPackageName(n) && IsLowerCase(n) && AllNameChars(n)
    decreases |s| - p
  {
    if p == |s| then {}
    else
      var m := PhraseMatch(s, ph, p);
      if m.Some? then
        var raw := s[m.value.0..m.value.1];
        assert forall k :: 0 <= k < |raw| ==> IsListChar(raw[k]) by {
          forall k | 0 <= k < |raw|
            ensures IsListChar(raw[k])
          {
            assert raw[k] == s[m.value.0 + k];
          }
        }
        ListNames(raw) + ScanPhrase(s, ph, m.value.1)
      else ScanPhrase(s, ph, p + 1)
  }

  lemma ScanPhraseHit(s: string, ph: Phrase, p: nat)
    requires p < |s| && PhraseMatch(s, ph, p).Some?
    ensures var g := PhraseMatch(s, ph, p).value;
      ScanPhrase(s, ph, p) == ListNames(s[g.0..g.1]) + ScanPhrase(s, ph, g.1)
  {
  }

  lemma ScanPhraseMiss(s: string, ph: Phrase, p: nat)
    requires p < |s| && PhraseMatch(s, ph, p).None?
    ensures ScanPhrase(s, ph, p) == ScanPhrase(s, ph, p + 1)
  {
  }

  /** The `x`-th piece of the split of `t` is `piece` */
  predicate PieceAt(t: string, x: nat, piece: string) {
    x < |SplitOnSeparators(t)| && SplitOnSeparators(t)[x] == piece
  }

  /** A maximal run of token characters is one of the split's pieces: the
      `x`-th */
  lemma {:induction false} SplitHasRun(t: string, a: nat, b: nat) returns (x: nat)
    requires a < b <= |t|
    requires forall k :: a <= k < b ==> IsTokenChar(t[k])
    requires a == 0 || IsListSeparator(t[a - 1])
    requires b == |t| || IsListSeparator(t[b])
    ensures PieceAt(t, x, t[a..b])
    decreases |t|
  {
    if a == 0 {
      x := SplitFirstPiece(t, a, b);
    } else {
      var j := SplitSkip(t, a);
      var u := t[j..];
      SplitRunShift(t, j, a, b);
      var a1, b1 := a - j, b - j;
      var y := SplitHasRun(u, a1, b1);
      x := SplitLater(t, j, u, y, a, b, a1, b1);
    }
  }

  /** A run of token characters between separators, seen from `j` on */
  lemma SplitRunShift(t: string, j: nat, a: nat, b: nat)
    requires 0 < j <= a < b <= |t|
    requires forall k :: a <= k < b ==> IsTokenChar(t[k])
    requires IsListSeparator(t[a - 1])
    requires b == |t| || IsListSeparator(t[b])
    ensures a - j < b - j <= |t[j..]|
    ensures forall k :: a - j <= k < b - j ==> IsTokenChar(t[j..][k])
    ensures a - j == 0 || IsListSeparator(t[j..][a - j - 1])
    ensures b - j == |t[j..]| || IsListSeparator(t[j..][b - j])
    ensures t[j..][a - j..b - j] == t[a..b]
  {
    var u := t[j..];
    assert forall k :: 0 <= k < |u| ==> u[k] == t[j + k];
  }

  /** The first piece is the leading run of token characters */
  lemma SplitFirstPiece(t: string, a: nat, b: nat) returns (x: nat)
    requires a == 0 < b <= |t|
    requires forall k :: a <= k < b ==> IsTokenChar(t[k])
    requires b == |t| || IsListSeparator(t[b])
    ensures x == 0 && PieceAt(t, x, t[a..b])
  {
    x := 0;
    SpanEndAt(t, 0, IsTokenChar, b);
    if b < |t| {
      SplitStep(t);
    }
  }

  /** A piece that does not start the text starts after the first
      separator run */
  lemma SplitSkip(t: string, a: nat) returns (j: nat)
    requires 0 < a < |t|
    requires IsListSeparator(t[a - 1]) && IsTokenChar(t[a])
    ensures SpanEnd(t, 0, IsTokenChar) < |t|
    ensures j == SpanEnd(t, SpanEnd(t, 0, IsTokenChar), IsListSeparator)
    ensures 0 < j <= a
  {
    var i := SpanEnd(t, 0, IsTokenChar);
    assert i < a;
    j := SpanEnd(t, i, IsListSeparator);
  }

  /** The pieces after the first are those of the text after the first
      separator run */
  lemma SplitLater(t: string, j: nat, u: string, y: nat, a: nat, b: nat, a1: nat, b1: nat) returns (x: nat)
    requires SpanEnd(t, 0, IsTokenChar) < |t|
    requires j == SpanEnd(t, SpanEnd(t, 0, IsTokenChar), IsListSeparator) && u == t[j..]
    requires j <= a <= b <= |t| && a1 == a - j && b1 == b - j
    requires PieceAt(u, y, u[a1..b1])
    ensures x == y + 1 && PieceAt(t, x, t[a..b])
  {
    SplitStep(t);
    x := y + 1;
    DropSlice(t, j, u, a, b, a1, b1);
  }

  /** Stripping quotes leaves a name alone */
  lemma NameStripNoop(t: string)
    requires AllNameChars(t)
    ensures StripWith(t, IsQuote) == t
  {
    if |t| > 0 {
      assert !IsQuote(t[0]) && !IsQuote(t[|t| - 1]);
    }
  }

  /** The `strip("`'")` at expert_agent.py:84 never changes a token of a
      captured list: the groups hold no quotes */
  lemma QuoteStripRedundant(s: string, ph: Phrase, p: nat)
    requires p <= |s| && PhraseMatch(s, ph, p).Some?
    ensures var m := PhraseMatch(s, ph, p).value;
      var parts := SplitOnSeparators(s[m.0..m.1]);
      forall x :: 0 <= x < |parts| ==> StripWith(parts[x], IsQuote) == parts[x]
  {
    var m := PhraseMatch(s, ph, p).value;
    SliceListChars(s, m.0, m.1);
    ListQuoteFree(s[m.0..m.1]);
  }

  /** A slice of list characters is a text of list characters */
  lemma SliceListChars(s: string, g: nat, e: nat)
    requires g <= e <= |s|
    requires forall k :: g <= k < e ==> IsListChar(s[k])
    ensures forall k :: 0 <= k < |s[g..e]| ==> IsListChar(s[g..e][k])
  {
    assert forall k :: 0 <= k < |s[g..e]| ==> s[g..e][k] == s[g + k];
  }

  /** Every piece of a text of list characters is left alone by the quote
      strip */
  lemma ListQuoteFree(raw: string)
    requires forall k :: 0 <= k < |raw| ==> IsListChar(raw[k])
    ensures var parts := SplitOnSeparators(raw);
      forall x :: 0 <= x < |parts| ==> StripWith(parts[x], IsQuote) == parts[x]
  {
    var parts := SplitOnSeparators(raw);
    forall x | 0 <= x < |parts|
      ensures StripWith(parts[x], IsQuote) == parts[x]
    {
      NameStripNoop(parts[x]);
    }
  }

  /** A captured list that is a single name lists that name, lower-cased,
      unless it is noise */
  lemma WholeNameListed(raw: string)
    requires |raw| > 0 && AllNameChars(raw)
    requires IsValidPackageName(Lower(raw))
    ensures Lower(raw) in ListNames(raw)
  {
    assert raw[0..|raw|] == raw;
    NameRunListed(raw, 0, |raw|);
  }

  /** A maximal valid name run of a captured list is one of its names */
  lemma NameRunListed(raw: string, a: nat, b: nat)
    requires a < b <= |raw|
    requires forall k :: a <= k < b ==> IsNameChar(raw[k])
    requires a == 0 || IsListSeparator(raw[a - 1])
    requires b == |raw| || IsListSeparator(raw[b])
    requires IsValidPackageName(Lower(raw[a..b]))
    ensures Lower(raw[a..b]) in ListNames(raw)
  {
    var t := raw[a..b];
    var x := SplitHasRun(raw, a, b);
    assert t in SplitOnSeparators(raw);
    NameStripNoop(t);
    assert TokenName(t) == Lower(t);
  }

  /** `requirement`, whitespace and a whole name run match the requirement
      phrase, and the group is exactly the name run */
  lemma RequirementMatchAt(s: string, p: nat, w: nat, e: nat)
    requires CiOccursAt(s, "requirement", p)
    requires p + 11 < w < e <= |s|
    requires forall k :: p + 11 <= k < w ==> IsSpace(s[k])
    requires forall k :: w <= k < e ==> IsNameChar(s[k])
    requires e == |s| || !IsNameChar(s[e])
    ensures PhraseMatch(s, RequirementName, p) == Some((w, e))
  {
    SpanEndAt(s, p + 11, IsSpace, w);
    RunEndAt(s, w, e);
  }

  /** `requirement <name>`: a case-insensitive "requirement" of the log,
      followed by whitespace and a whole name run, reports the lower-cased
      name unless it is noise, provided no earlier match of the phrase runs
      past it. One that does has swallowed it: in
      `requirement x-requirement foo` the first match captures
      `x-requirement`, and the scan resumes after the second
      "requirement", so `foo` is never captured. */
  lemma RequirementNameReported(log: string, p: nat, w: nat, e: nat)
    requires CiOccursAt(log, "requirement", p)
    requires forall j :: 0 <= j < p && PhraseMatch(log, RequirementName, j).Some? ==>
               PhraseMatch(log, RequirementName, j).value.1 <= p
    requires p + 11 < w < e <= |log|
    requires forall k :: p + 11 <= k < w ==> IsSpace(log[k])
    requires forall k :: w <= k < e ==> IsNameChar(log[k])
    requires e == |log| || !IsNameChar(log[e])
    requires IsValidPackageName(Lower(log[w..e]))
    ensures Lower(log[w..e]) in DiagnoseConflict(log)
  {
    RequirementReachedFrom(log, 0, p, w, e);
  }

  /** "requirement" at `p`, whitespace, and a whole valid name run `[w, e)` */
  predicate RequirementNameAt(log: string, p: nat, w: nat, e: nat) {
    && CiOccursAt(log, "requirement", p)
    && p + 11 < w < e <= |log|
    && (forall k :: p + 11 <= k < w ==> IsSpace(log[k]))
    && (forall k :: w <= k < e ==> IsNameChar(log[k]))
    && (e == |log| || !IsNameChar(log[e]))
    && IsValidPackageName(Lower(log[w..e]))
  }

  /** No match of the requirement phrase from `q` up to `p` runs past `p` */
  predicate NoRequirementPast(log: string, q: nat, p: nat)
    requires p <= |log|
  {
    forall j :: q <= j < p && PhraseMatch(log, RequirementName, j).Some? ==>
      PhraseMatch(log, RequirementName, j).value.1 <= p
  }

  /** The requirement scan from any `q` up to `p` reaches the match at `p`
      when no match in between runs past `p`, and reports its name */
  lemma {:induction false} RequirementReachedFrom(log: string, q: nat, p: nat, w: nat, e: nat)
    requires q <= p && RequirementNameAt(log, p, w, e) && NoRequirementPast(log, q, p)
    ensures Lower(log[w..e]) in ScanPhrase(log, RequirementName, q)
    decreases p - q
  {
    if q == p {
      RequirementReported(log, p, w, e);
    } else {
      var m := PhraseMatch(log, RequirementName, q);
      if m.None? {
        ScanPhraseMiss(log, RequirementName, q);
        RequirementReachedFrom(log, q + 1, p, w, e);
      } else {
        ScanPhraseHit(log, RequirementName, q);
        RequirementReachedFrom(log, m.value.1, p, w, e);
      }
    }
  }

  /** The requirement scan started at the match itself reports its name */
  lemma RequirementReported(log: string, p: nat, w: nat, e: nat)
    requires RequirementNameAt(log, p, w, e)
    ensures Lower(log[w..e]) in ScanPhrase(log, RequirementName, p)
  {
    RequirementMatchAt(log, p, w, e);
    ScanPhraseHit(log, RequirementName, p);
    WholeNameListed(log[w..e]);
  }

  /** `conflict(s) between|among|with|in <list>`: at every
      case-insensitive "conflict" of the log that leads a list, every whole
      name of the list (names joined by runs of commas and whitespace) is
      reported lower-cased, unless it is noise. An earlier match whose list
      runs on into this one captures the whole of it. */
  lemma ConflictNamesReported(log: string, p: nat, k: nat, w: nat, i: nat, g: nat, e: nat, a: nat, b: nat)
    requires ConflictLead(log, p, k, w, i, g)
    requires g < e <= |log| && IsNameChar(log[g])
    requires forall j :: g <= j < e ==> ListContinues(log, j)
    requires e == |log| || !ListContinues(log, e)
    requires g <= a < b <= e
    requires forall j :: a <= j < b ==> IsNameChar(log[j])
    requires a == g || !IsNameChar(log[a - 1])
    requires b == e || !IsNameChar(log[b])
    requires IsValidPackageName(Lower(log[a..b]))
    ensures Lower(log[a..b]) in DiagnoseConflict(log)
  {
    ConflictReachedFrom(log, 0, p, k, w, i, g, e, a, b);
  }

  /** None of the keywords after "conflict" holds a `c` */
  lemma KeywordLacksC(i: nat, x: nat)
    requires i < |ConflictKeywords| && x < |ConflictKeywords[i]|
    ensures ConflictKeywords[i][x] != 'c'
  {
  }

  /** A "conflict" cannot begin strictly inside the lead-in of an earlier one */
  lemma NoConflictInsideLead(s: string, q: nat, k: nat, w: nat, i: nat, g: nat, p: nat)
    requires ConflictLead(s, q, k, w, i, g) && q < p
    ensures p < g ==> !CiOccursAt(s, "conflict", p)
  {
    if p < g {
      if p < q + 8 {
        NoConflictInsideWord(s, q, p);
      } else {
        LeadCharNotC(s, q, k, w, i, g, p);
        CiMismatchAt(s, "conflict", p, 0);
      }
    }
  }

  /** "conflict" does not overlap itself */
  lemma NoConflictInsideWord(s: string, q: nat, p: nat)
    requires CiOccursAt(s, "conflict", q) && q < p < q + 8
    ensures !CiOccursAt(s, "conflict", p)
  {
    if p == q + 6 {
      CiCharAt(s, "conflict", q, 7);
      CiMismatchAt(s, "conflict", p, 1);
    } else {
      CiCharAt(s, "conflict", q, p - q);
      CiMismatchAt(s, "conflict", p, 0);
    }
  }

  /** Past the word "conflict", nothing in its lead-in lowers to `c` */
  lemma LeadCharNotC(s: string, q: nat, k: nat, w: nat, i: nat, g: nat, p: nat)
    requires ConflictLead(s, q, k, w, i, g) && q + 8 <= p < g
    ensures LowerChar(s[p]) != 'c'
  {
    var kw := ConflictKeywords[i];
    if p < k {
      CiCharAt(s, "s", q + 8, 0);
    } else if p < w || w + |kw| <= p {
      assert IsSpace(s[p]);
    } else {
      CiCharAt(s, kw, w, p - w);
      KeywordLacksC(i, p - w);
    }
  }

  /** The lead-in of the conflict phrase is name characters and whitespace
      throughout, so a list can run through it */
  lemma LeadContinues(s: string, p: nat, k: nat, w: nat, i: nat, g: nat)
    requires ConflictLead(s, p, k, w, i, g)
    ensures forall j :: p <= j < g ==> ListContinues(s, j)
  {
    CiOccurrenceIsName(s, "conflict", p);
    if k == p + 9 {
      CiOccurrenceIsName(s, "s", p + 8);
    }
    CiOccurrenceIsName(s, ConflictKeywords[i], w);
  }

  /** A maximal list run from `g` has one end */
  lemma ListRunUnique(s: string, g: nat, e1: nat, e2: nat)
    requires g <= e1 <= |s| && g <= e2 <= |s|
    requires forall j :: g <= j < e1 ==> ListContinues(s, j)
    requires forall j :: g <= j < e2 ==> ListContinues(s, j)
    requires e1 == |s| || !ListContinues(s, e1)
    requires e2 == |s| || !ListContinues(s, e2)
    ensures e1 == e2
  {
    if e1 < |s| {
      var c1 := ListContinues(s, e1);
    }
    if e2 < |s| {
      var c2 := ListContinues(s, e2);
    }
  }

  /** A conflict phrase matched at `q` whose list runs past a later
      "conflict" at `p` has swallowed that phrase: its list ends where the
      later list ends, and holds every whole name of it */
  lemma SwallowedListListed(log: string, q: nat, p: nat, k: nat, w: nat, i: nat, g: nat, e: nat, a: nat, b: nat)
    requires ConflictNameAt(log, p, k, w, i, g, e, a, b)
    requires q < p && PhraseMatch(log, ConflictList, q).Some?
    requires p < PhraseMatch(log, ConflictList, q).value.1
    ensures var m := PhraseMatch(log, ConflictList, q).value;
      Lower(log[a..b]) in ListNames(log[m.0..m.1])
  {
    var m := PhraseMatch(log, ConflictList, q).value;
    var kq, wq, iq := ConflictListStartSound(log, q);
    NoConflictInsideLead(log, q, kq, wq, iq, m.0, p);
    assert m.0 <= p;
    assert forall j :: m.0 <= j < p ==> ListContinues(log, j);
    ListThroughLead(log, m.0, p, k, w, i, g, e, a, b);
    ListRunUnique(log, m.0, m.1, e);
  }

  /** A list already running from `h` up to the lead-in at `p` runs on
      through it to `e`, and holds every whole name after the lead-in */
  lemma ListThroughLead(log: string, h: nat, p: nat, k: nat, w: nat, i: nat, g: nat, e: nat, a: nat, b: nat)
    requires ConflictLead(log, p, k, w, i, g)
    requires h <= p && forall j :: h <= j < p ==> ListContinues(log, j)
    requires g < e <= |log|
    requires forall j :: g <= j < e ==> ListContinues(log, j)
    requires g <= a < b <= e
    requires forall j :: a <= j < b ==> IsNameChar(log[j])
    requires a == g || !IsNameChar(log[a - 1])
    requires b == e || !IsNameChar(log[b])
    requires IsValidPackageName(Lower(log[a..b]))
    ensures forall j :: h <= j < e ==> ListContinues(log, j)
    ensures Lower(log[a..b]) in ListNames(log[h..e])
  {
    LeadContinues(log, p, k, w, i, g);
    assert a == g ==> IsSpace(log[a - 1]);
    ListRunListed(log, h, e, a, b);
  }

  /** The lead-in of the conflict phrase at `p` stops at `g`, a maximal list
      runs from the name character at `g` to `e`, and `[a, b)` is a whole
      valid name inside it */
  predicate ConflictNameAt(log: string, p: nat, k: nat, w: nat, i: nat, g: nat, e: nat, a: nat, b: nat) {
    && ConflictLead(log, p, k, w, i, g)
    && g < e <= |log| && IsNameChar(log[g])
    && (forall j :: g <= j < e ==> ListContinues(log, j))
    && (e == |log| || !ListContinues(log, e))
    && g <= a < b <= e
    && (forall j :: a <= j < b ==> IsNameChar(log[j]))
    && (a == g || !IsNameChar(log[a - 1]))
    && (b == e || !IsNameChar(log[b]))
    && IsValidPackageName(Lower(log[a..b]))
  }

  /** The conflict scan from any `q` up to `p` reports every whole name of
      the list led by the "conflict" at `p`: either it reaches `p`, or an
      earlier match swallowed that list whole */
  lemma {:induction false} ConflictReachedFrom(log: string, q: nat, p: nat, k: nat, w: nat, i: nat, g: nat, e: nat, a: nat, b: nat)
    requires q <= p && ConflictNameAt(log, p, k, w, i, g, e, a, b)
    ensures Lower(log[a..b]) in ScanPhrase(log, ConflictList, q)
    decreases p - q
  {
    if q == p {
      ConflictMatchAt(log, p, k, w, i, g, e);
      ScanPhraseHit(log, ConflictList, p);
      ListRunListed(log, g, e, a, b);
    } else {
      var m := PhraseMatch(log, ConflictList, q);
      if m.None? {
        ScanPhraseMiss(log, ConflictList, q);
        ConflictReachedFrom(log, q + 1, p, k, w, i, g, e, a, b);
      } else if m.value.1 <= p {
        ScanPhraseHit(log, ConflictList, q);
        ConflictReachedFrom(log, m.value.1, p, k, w, i, g, e, a, b);
      } else {
        ScanPhraseHit(log, ConflictList, q);
        SwallowedListListed(log, q, p, k, w, i, g, e, a, b);
      }
    }
  }

  /** A whole valid name inside a maximal conflict list is one of the
      list's names */
  lemma ListRunListed(s: string, g: nat, e: nat, a: nat, b: nat)
    requires g <= a < b <= e <= |s|
    requires forall j :: g <= j < e ==> ListContinues(s, j)
    requires forall j :: a <= j < b ==> IsNameChar(s[j])
    requires a == g || !IsNameChar(s[a - 1])
    requires b == e || !IsNameChar(s[b])
    requires IsValidPackageName(Lower(s[a..b]))
    ensures Lower(s[a..b]) in ListNames(s[g..e])
  {
    var raw := s[g..e];
    SliceOfSlice(s, g, e, a, b);
    SliceIndex(s, g, e);
    assert a == g || ListContinues(s, a - 1);
    assert b == e || ListContinues(s, b);
    NameRunListed(raw, a - g, b - g);
  }

  /** Indexing a slice */
  lemma SliceIndex(s: string, g: nat, e: nat)
    requires g <= e <= |s|
    ensures forall j :: g <= j < e ==> s[g..e][j - g] == s[j]
  {
  }

  /** A slice of a slice is a slice of the whole */
  lemma SliceOfSlice(s: string, g: nat, e: nat, a: nat, b: nat)
    requires g <= a <= b <= e <= |s|
    ensures s[g..e][a - g..b - g] == s[a..b]
  {
    var raw := s[g..e];
    assert forall j :: 0 <= j < |raw| ==> raw[j] == s[g + j];
  }

  /** A slice of the suffix from `j`, at offsets shifted by `j` */
  lemma DropSlice(t: string, j: nat, u: string, a: nat, b: nat, a1: nat, b1: nat)
    requires j <= a <= b <= |t| && u == t[j..] && a1 == a - j && b1 == b - j
    ensures u[a1..b1] == t[a..b]
  {
    assert forall k :: 0 <= k < |u| ==> u[k] == t[j + k];
  }

  /** One step of the split: the first piece runs up to the first
      separator, the others are the pieces of what follows the separators */
  lemma SplitStep(t: string)
    requires SpanEnd(t, 0, IsTokenChar) < |t|
    ensures var i := SpanEnd(t, 0, IsTokenChar);
      var u := t[SpanEnd(t, i, IsListSeparator)..];
      && |SplitOnSeparators(t)| == |SplitOnSeparators(u)| + 1
      && SplitOnSeparators(t)[0] == t[..i]
      && forall k :: 1 <= k < |SplitOnSeparators(t)| ==>
           SplitOnSeparators(t)[k] == SplitOnSeparators(u)[k - 1]
  {
  }

  /** The `k`-th piece `re.split` returns is a piece of the split text */
  lemma {:induction false} SplitPartOccurs(t: string, k: nat)
    requires k < |SplitOnSeparators(t)|
    ensures IsInfix(SplitOnSeparators(t)[k], t)
    decreases |t|
  {
    var i := SpanEnd(t, 0, IsTokenChar);
    if i == |t| {
      assert SplitOnSeparators(t)[k] == t[0..|t|];
      SliceIsInfix(t, 0, |t|);
    } else {
      SplitStep(t);
      var j := SpanEnd(t, i, IsListSeparator);
      var u := t[j..];
      if k == 0 {
        SliceIsInfix(t, 0, i);
      } else {
        SplitPartOccurs(u, k - 1);
        SliceIsInfix(t, j, |t|);
        assert t[j..|t|] == u;
        InfixTrans(SplitOnSeparators(u)[k - 1], u, t);
      }
    }
  }

  /** Every name of a captured list occurs, lower-cased, in the list */
  lemma ListNamesOccur(raw: string)
    ensures forall n :: n in ListNames(raw) ==> IsInfix(n, Lower(raw))
  {
    var toks := SplitOnSeparators(raw);
    forall n | n in ListNames(raw)
      ensures IsInfix(n, Lower(raw))
    {
      var t :| t in toks && IsValidPackageName(TokenName(t)) && n == TokenName(t);
      var k :| 0 <= k < |toks| && toks[k] == t;
      SplitPartOccurs(raw, k);
      StripWithIsInfix(t, IsQuote);
      InfixTrans(StripWith(t, IsQuote), t, raw);
      LowerInfix(StripWith(t, IsQuote), raw);
    }
  }

  /** Every name a family reports occurs, lower-cased, in the log */
  lemma {:induction false} ScanFamilyOccurs(s: string, fam: Family, q: nat)
    requires q <= |s|
    ensures forall n :: n in ScanFamily(s, fam, q) ==> IsInfix(n, Lower(s))
    decreases |s| - q
  {
    if q < |s| {
      if !IsNameChar(s[q]) {
        ScanFamilyOccurs(s, fam, q + 1);
      } else {
        var e := RunEnd(s, q);
        var t := TailEnd(s, fam, e);
        if t.Some? {
          ScanFamilyOccurs(s, fam, t.value);
          SliceIsInfix(s, q, e);
          LowerInfix(s[q..e], s);
        } else {
          ScanFamilyOccurs(s, fam, q + 1);
        }
      }
    }
  }

  /** Every name of one captured list occurs, lower-cased, in the log */
  lemma MatchNamesOccur(s: string, ph: Phrase, q: nat)
    requires q <= |s| && PhraseMatch(s, ph, q).Some?
    ensures var g := PhraseMatch(s, ph, q).value;
      forall n :: n in ListNames(s[g.0..g.1]) ==> IsInfix(n, Lower(s))
  {
    var g := PhraseMatch(s, ph, q).value;
    var raw := s[g.0..g.1];
    ListNamesOccur(raw);
    SliceIsInfix(s, g.0, g.1);
    LowerInfix(raw, s);
    forall n | n in ListNames(raw)
      ensures IsInfix(n, Lower(s))
    {
      InfixTrans(n, Lower(raw), Lower(s));
    }
  }

  /** Every name a contextual phrase reports occurs, lower-cased, in the log */
  lemma {:induction false} ScanPhraseOccurs(s: string, ph: Phrase, q: nat)
    requires q <= |s|
    ensures forall n :: n in ScanPhrase(s, ph, q) ==> IsInfix(n, Lower(s))
    decreases |s| - q
  {
    if q < |s| {
      var m := PhraseMatch(s, ph, q);
      if m.Some? {
        var e := m.value.1;
        ScanPhraseOccurs(s, ph, e);
        HitOccurs(s, ph, q);
      } else {
        ScanPhraseMiss(s, ph, q);
        var q1 := q + 1;
        ScanPhraseOccurs(s, ph, q1);
      }
    }
  }

  /** A match keeps occurrence: its names occur, and so do those the scan
      finds after it */
  lemma HitOccurs(s: string, ph: Phrase, q: nat)
    requires q < |s| && PhraseMatch(s, ph, q).Some?
    requires forall n :: n in ScanPhrase(s, ph, PhraseMatch(s, ph, q).value.1) ==> IsInfix(n, Lower(s))
    ensures forall n :: n in ScanPhrase(s, ph, q) ==> IsInfix(n, Lower(s))
  {
    var g := PhraseMatch(s, ph, q).value;
    ScanPhraseHit(s, ph, q);
    MatchNamesOccur(s, ph, q);
    UnionOccurs(ListNames(s[g.0..g.1]), ScanPhrase(s, ph, g.1), Lower(s));
  }

  lemma UnionOccurs(a: set<string>, b: set<string>, t: string)
    requires forall n :: n in a ==> IsInfix(n, t)
    requires forall n :: n in b ==> IsInfix(n, t)
    ensures forall n :: n in a + b ==> IsInfix(n, t)
  {
  }

  /** Every reported name occurs, lower-cased, in the log: the extractor
      invents nothing */
  lemma DiagnosedNamesOccur(log: string)
    ensures forall n :: n in DiagnoseConflict(log) ==> IsInfix(n, Lower(log))
  {
    ScanFamilyOccurs(log, Operator, 0);
    ScanFamilyOccurs(log, Loose, 0);
    ScanFamilyOccurs(log, Paren, 0);
    ScanPhraseOccurs(log, ConflictList, 0);
    ScanPhraseOccurs(log, RequirementName, 0);
  }

  /** All five families, before the final removal of `"-"` */
  function CandidateNames(log: string): set<string> {
    ScanFamily(log, Operator, 0) + ScanFamily(log, Loose, 0) + ScanFamily(log, Paren, 0)
    + ScanPhrase(log, ConflictList, 0) + ScanPhrase(log, RequirementName, 0)
  }

  /** `diagnose_conflict_from_log`; the list it returns is in no particular
      order, so the model returns the set of names */
  function DiagnoseConflict(log: string): (found: set<string>)
    ensures forall n :: n in found ==> IsReportedName(n)
  {
    CandidateNames(log) - {"-"}
  }

  /** The explicit removal of `"-"` never changes the result: the length
      filter has already rejected it. */
  lemma HyphenRemovalRedundant(log: string)
    ensures "-" !in CandidateNames(log)
    ensures DiagnoseConflict(log) == CandidateNames(log)
  {
    assert |"-"| == 1;
    assert !IsValidPackageName("-");
  }

  /** `p` begins a maximal `[a-zA-Z0-9\-_]` run */
  predicate IsRunStart(s: string, p: nat) {
    p < |s| && IsNameChar(s[p]) && (p == 0 || !IsNameChar(s[p - 1]))
  }

  /** The scanner visits every maximal run whose start no earlier match can
      cover: for the operator family every run, for the others every run
      that does not begin with a digit (a digit-led run may lie inside the
      version of an earlier match). */
  lemma {:induction false} ScanFindsRun(s: string, fam: Family, q: nat, p: nat)
    requires q <= p && IsRunStart(s, p)
    requires fam == Operator || !IsDigit(s[p])
    requires TailEnd(s, fam, RunEnd(s, p)).Some?
    requires IsValidPackageName(Lower(s[p..RunEnd(s, p)]))
    ensures Lower(s[p..RunEnd(s, p)]) in ScanFamily(s, fam, q)
    decreases p - q
  {
    if q < p {
      if !IsNameChar(s[q]) {
        ScanFindsRun(s, fam, q + 1, p);
      } else {
        var e := RunEnd(s, q);
        assert e < p;
        var t := TailEnd(s, fam, e);
        if t.Some? {
          var m := t.value;
          assert m <= p;
          ScanFindsRun(s, fam, m, p);
        } else {
          ScanFindsRun(s, fam, q + 1, p);
        }
      }
    }
  }

  /** The name ends at `e` and one of the comparison operators follows */
  predicate FollowedByOperator(s: string, e: nat) {
    OccursAt(s, "==", e) || OccursAt(s, ">=", e) || OccursAt(s, "<=", e)
    || OccursAt(s, "~=", e) || OccursAt(s, "!=", e) || OccursAt(s, "<", e) || OccursAt(s, ">", e)
  }

  /** Operator-family completeness: every maximal name run directly followed
      by a comparison operator is reported, lower-cased, unless it is noise. */
  lemma OperatorFamilyComplete(log: string, p: nat)
    requires IsRunStart(log, p)
    requires FollowedByOperator(log, RunEnd(log, p))
    requires IsValidPackageName(Lower(log[p..RunEnd(log, p)]))
    ensures Lower(log[p..RunEnd(log, p)]) in DiagnoseConflict(log)
  {
    ScanFindsRun(log, Operator, 0, p);
  }

  /** The name ends at `e`, whitespace runs to `w`, and a dotted number
      runs from `w` to `r` */
  predicate FollowedByLooseVersion(s: string, e: nat, w: nat, r: nat) {
    && e < w < |s|
    && (forall k :: e <= k < w ==> IsSpace(s[k]))
    && DottedNumberAt(s, w, r)
  }

  /** Loose-family completeness for names that do not begin with a digit */
  lemma LooseFamilyComplete(log: string, p: nat, w: nat, r: nat)
    requires IsRunStart(log, p) && !IsDigit(log[p])
    requires FollowedByLooseVersion(log, RunEnd(log, p), w, r)
    requires IsValidPackageName(Lower(log[p..RunEnd(log, p)]))
    ensures Lower(log[p..RunEnd(log, p)]) in DiagnoseConflict(log)
  {
    LooseTailAt(log, RunEnd(log, p), w, r);
    ScanFindsRun(log, Loose, 0, p);
  }

  /** The name ends at `e`, optional whitespace runs to `w`, `(` stands at
      `w`, a dotted number runs from `w + 1` to `r`, and `)` stands at `r` */
  predicate FollowedByParenVersion(s: string, e: nat, w: nat, r: nat) {
    && e <= w < |s|
    && (forall k :: e <= k < w ==> IsSpace(s[k]))
    && s[w] == '('
    && DottedNumberAt(s, w + 1, r)
    && r < |s| && s[r] == ')'
  }

  /** Parenthesis-family completeness for names that do not begin with a digit */
  lemma ParenFamilyComplete(log: string, p: nat, w: nat, r: nat)
    requires IsRunStart(log, p) && !IsDigit(log[p])
    requires FollowedByParenVersion(log, RunEnd(log, p), w, r)
    requires IsValidPackageName(Lower(log[p..RunEnd(log, p)]))
    ensures Lower(log[p..RunEnd(log, p)]) in DiagnoseConflict(log)
  {
    ParenTailAt(log, RunEnd(log, p), w, r);
    ScanFindsRun(log, Paren, 0, p);
  }

  /** `RunEnd` is pinned down by where the run stops */
  lemma RunEndAt(s: string, p: nat, e: nat)
    requires p <= e <= |s|
    requires forall k :: p <= k < e ==> IsNameChar(s[k])
    requires e == |s| || !IsNameChar(s[e])
    ensures RunEnd(s, p) == e
  {
  }

  /** The comparison operators the operator family accepts */
  const Operators: seq<string> := ["==", ">=", "<=", "~=", "!=", "<", ">"]

  /** Any log containing `name<op>`, where the name is not glued to a
      preceding name character, reports the lower-cased name. */
  lemma OperatorPinReported(pre: string, name: string, op: string, post: string)
    requires |pre| == 0 || !IsNameChar(pre[|pre| - 1])
    requires |name| > 0 && AllNameChars(name)
    requires op in Operators
    requires IsValidPackageName(Lower(name))
    ensures Lower(name) in DiagnoseConflict(pre + name + op + post)
  {
    var log := pre + name + op + post;
    var p, e := |pre|, |pre| + |name|;
    assert log[p..e] == name;
    assert log[e] == op[0];
    assert log[e..e + |op|] == op;
    if p > 0 {
      assert log[p - 1] == pre[|pre| - 1];
    }
    RunEndAt(log, p, e);
    OperatorFamilyComplete(log, p);
  }

  /** The worked example of the agent's own prompt, `pkgA==1.2 requires
      pkgB<2.0`: both constrained packages are reported. */
  lemma OperatorExample(log: string)
    requires log == "pkgA" + "==1.2 requires " + "pkgB" + "<2.0"
    ensures "pkga" in DiagnoseConflict(log) && "pkgb" in DiagnoseConflict(log)
  {
    OperatorExampleFirst(log);
    OperatorExampleSecond(log);
  }

  lemma OperatorExampleFirst(log: string)
    requires log == "pkgA" + "==1.2 requires " + "pkgB" + "<2.0"
    ensures "pkga" in DiagnoseConflict(log)
  {
    var post := "1.2 requires " + "pkgB" + "<2.0";
    assert "==1.2 requires " == "==" + "1.2 requires ";
    assert log == "" + "pkgA" + "==" + post;
    assert Lower("pkgA") == "pkga";
    OperatorPinReported("", "pkgA", "==", post);
  }

  lemma OperatorExampleSecond(log: string)
    requires log == "pkgA" + "==1.2 requires " + "pkgB" + "<2.0"
    ensures "pkgb" in DiagnoseConflict(log)
  {
    var pre := "pkgA" + "==1.2 requires ";
    assert pre[|pre| - 1] == ' ';
    assert "<2.0" == "<" + "2.0";
    assert log == pre + "pkgB" + "<" + "2.0";
    assert Lower("pkgB") == "pkgb";
    OperatorPinReported(pre, "pkgB", "<", "2.0");
  }
}
