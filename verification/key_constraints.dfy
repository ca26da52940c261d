/** The constraint-line compressor of `ExpertAgent._extract_key_constraints`
    and the error summary of `summarize_error` that uses it. */
module KeyConstraints {
  import opened Wrappers
  import opened Text
  import opened Oracle

  /** The five sentence shapes, one per `re.MULTILINE` pattern */
  datatype Shape = Requires | DependsOn | UserRequested | IncompatibleVersions | ConflictLine

  predicate HasNoNewline(t: string) {
    forall i :: 0 <= i < |t| ==> t[i] != '\n'
  }

  /** The captured group `g` (the rest of a line, from its first non-space
      character) has the shape */
  predicate HasShape(g: string, sh: Shape) {
    match sh
    case Requires => |g| > 0 && IsNameChar(g[0]) && FindFrom(g, " requires ", 1).Some?
    case DependsOn => |g| > 0 && IsNameChar(g[0]) && FindFrom(g, " depends on ", 1).Some?
    case UserRequested => IsPrefix("The user requested ", g)
    case IncompatibleVersions => IsPrefix("Incompatible versions: ", g)
    case ConflictLine => IsPrefix("Conflict: ", g)
  }

  predicate IsLineStart(s: string, p: nat) {
    p == 0 || (p <= |s| && s[p - 1] == '\n')
  }

  predicate IsNotNewline(c: char) {
    c != '\n'
  }

  /** Where the line containing position `q` ends: `$` in multi-line mode */
  function LineEnd(s: string, q: nat): (l: nat)
    requires q <= |s|
    ensures q <= l <= |s|
    ensures forall k :: q <= k < l ==> s[k] != '\n'
    ensures l == |s| || s[l] == '\n'
  {
    SpanEnd(s, q, IsNotNewline)
  }

  /** `^\s*(<shape>)$` tried at `p`: the span of the group when it matches.
      The leading `\s*` may cross blank lines; the group then runs to the end
      of the line on which it starts. */
  function ShapeMatchAt(s: string, sh: Shape, p: nat): (r: Option<(nat, nat)>)
    requires p <= |s|
    ensures r.Some? ==> p <= r.value.0 < r.value.1 <= |s|
  {
    if !IsLineStart(s, p) then None
    else
      var q := SpaceEnd(s, p);
      var l := LineEnd(s, q);
      if q < l && HasShape(s[q..l], sh) then Some((q, l)) else None
  }

  /** A matched group starts on a non-space character, has the shape and
      stays on one line */
  lemma ShapeMatchGroup(s: string, sh: Shape, p: nat)
    requires p <= |s| && ShapeMatchAt(s, sh, p).Some?
    ensures var (lo, hi) := ShapeMatchAt(s, sh, p).value;
      !IsSpace(s[lo]) && HasShape(s[lo..hi], sh) && HasNoNewline(s[lo..hi])
  {
  }

  /** An entry is a stripped group. Every shape's literal ends in a single
      space after a non-space character, so the strip can take at most that
      one space from the shape: the entry followed by a space has the shape. */
  predicate IsShapedEntry(e: string, sh: Shape) {
    HasShape(e + " ", sh)
  }

  /** What every collected entry looks like */
  predicate IsKeyLine(e: string) {
    && |e| > 0 && IsStripped(e) && HasNoNewline(e)
    && (|| IsShapedEntry(e, Requires) || IsShapedEntry(e, DependsOn)
        || IsShapedEntry(e, UserRequested) || IsShapedEntry(e, IncompatibleVersions)
        || IsShapedEntry(e, ConflictLine))
  }

  /** An occurrence of a literal ending in "non-space, space" survives
      cutting off trailing whitespace and appending one space. */
  lemma OccursBeforeSpaces(g: string, k: nat, lit: string, i: nat)
    requires k <= |g| && forall j :: k <= j < |g| ==> IsSpace(g[j])
    requires |lit| >= 2 && lit[|lit| - 1] == ' ' && !IsSpace(lit[|lit| - 2])
    requires OccursAt(g, lit, i)
    ensures OccursAt(g[..k] + " ", lit, i)
  {
    assert g[i + |lit| - 2] == lit[|lit| - 2];
    var t := g[..k] + " ";
    forall j | 0 <= j < |lit|
      ensures t[i + j] == lit[j]
    {
      assert g[i + j] == lit[j];
    }
  }

  /** The shape of a group survives the strip in the form `IsShapedEntry`
      states. */
  lemma ShapeSurvivesStrip(g: string, k: nat, sh: Shape)
    requires 0 < k <= |g| && forall j :: k <= j < |g| ==> IsSpace(g[j])
    requires HasShape(g, sh)
    ensures HasShape(g[..k] + " ", sh)
  {
    var t := g[..k] + " ";
    match sh
    case Requires =>
      var i := FindFrom(g, " requires ", 1).value;
      OccursBeforeSpaces(g, k, " requires ", i);
      assert t[0] == g[0];
    case DependsOn =>
      var i := FindFrom(g, " depends on ", 1).value;
      OccursBeforeSpaces(g, k, " depends on ", i);
      assert t[0] == g[0];
    case UserRequested =>
      OccursBeforeSpaces(g, k, "The user requested ", 0);
    case IncompatibleVersions =>
      OccursBeforeSpaces(g, k, "Incompatible versions: ", 0);
    case ConflictLine =>
      OccursBeforeSpaces(g, k, "Conflict: ", 0);
  }

  /** Stripping a group that starts with a non-space character only drops
      trailing whitespace */
  lemma StripGroup(g: string, sh: Shape)
    requires |g| > 0 && !IsSpace(g[0]) && HasShape(g, sh) && HasNoNewline(g)
    ensures IsKeyLine(Strip(g)) && IsShapedEntry(Strip(g), sh)
  {
    var b := StripBounds(g, IsSpace);
    assert b.0 == 0;
    var e := Strip(g);
    assert e == g[..b.1];
    ShapeSurvivesStrip(g, b.1, sh);
    assert forall k :: 0 <= k < |e| ==> e[k] == g[k];
  }

  /** The stripped group of a match is a key line */
  lemma MatchedEntry(s: string, sh: Shape, p: nat)
    requires p <= |s| && ShapeMatchAt(s, sh, p).Some?
    ensures var g := ShapeMatchAt(s, sh, p).value;
      IsKeyLine(Strip(s[g.0..g.1])) && IsShapedEntry(Strip(s[g.0..g.1]), sh)
  {
    var g := ShapeMatchAt(s, sh, p).value;
    ShapeMatchGroup(s, sh, p);
    StripGroup(s[g.0..g.1], sh);
  }

  /** `re.finditer` of one shape from position `p`, each group stripped.
      The matches cannot overlap: the scan resumes where a match ends. */
  function ScanShape(s: string, sh: Shape, p: nat): (lines: seq<string>)
    requires p <= |s|
    ensures |lines| <= |s| - p
    decreases |s| - p
  {
    if p == |s| then []
    else
      var m := ShapeMatchAt(s, sh, p);
      if m.Some? then [Strip(s[m.value.0..m.value.1])] + ScanShape(s, sh, m.value.1)
      else ScanShape(s, sh, p + 1)
  }

  ghost predicate AllShaped(lines: seq<string>, sh: Shape) {
    forall e :: e in lines ==> IsKeyLine(e) && IsShapedEntry(e, sh)
  }

  /** Every entry the scan collects is a stripped line of the shape */
  lemma {:induction false} ScanShapeKeyLines(s: string, sh: Shape, p: nat)
    requires p <= |s|
    ensures AllShaped(ScanShape(s, sh, p), sh)
    decreases |s| - p
  {
    if p < |s| {
      var m := ShapeMatchAt(s, sh, p);
      if m.Some? {
        var g := m.value;
        var entry := Strip(s[g.0..g.1]);
        var rest := ScanShape(s, sh, g.1);
        assert ScanShape(s, sh, p) == [entry] + rest;
        MatchedEntry(s, sh, p);
        ScanShapeKeyLines(s, sh, g.1);
        ConsShaped(entry, rest, sh);
      } else {
        ScanShapeKeyLines(s, sh, p + 1);
      }
    }
  }

  lemma ConsShaped(entry: string, rest: seq<string>, sh: Shape)
    requires IsKeyLine(entry) && IsShapedEntry(entry, sh)
    requires AllShaped(rest, sh)
    ensures AllShaped([entry] + rest, sh)
  {
    forall e | e in [entry] + rest
      ensures IsKeyLine(e) && IsShapedEntry(e, sh)
    {
      if e != entry {
        assert e in rest;
      }
    }
  }

  /** A scan that finds a match at `q` lists its entry first and then the
      scan from where the match ends */
  lemma ScanShapeHit(s: string, sh: Shape, q: nat)
    requires q < |s| && ShapeMatchAt(s, sh, q).Some?
    ensures var g := ShapeMatchAt(s, sh, q).value;
      && |ScanShape(s, sh, q)| == 1 + |ScanShape(s, sh, g.1)|
      && ScanShape(s, sh, q)[0] == Strip(s[g.0..g.1])
      && forall k :: 0 < k < |ScanShape(s, sh, q)| ==> ScanShape(s, sh, q)[k] == ScanShape(s, sh, g.1)[k - 1]
  {
  }

  /** A scan that finds no match at `q` is the scan from `q + 1` */
  lemma ScanShapeMiss(s: string, sh: Shape, q: nat)
    requires q < |s| && ShapeMatchAt(s, sh, q).None?
    ensures ScanShape(s, sh, q) == ScanShape(s, sh, q + 1)
  {
  }

  /** Every entry of the scan from `q` is the stripped group of a match at
      some position at or after `q` */
  lemma {:induction false} ScanShapeSound(s: string, sh: Shape, q: nat, i: nat) returns (p: nat)
    requires q <= |s|
    requires i < |ScanShape(s, sh, q)|
    ensures q <= p <= |s| && ShapeMatchAt(s, sh, p).Some?
    ensures var g := ShapeMatchAt(s, sh, p).value; Strip(s[g.0..g.1]) == ScanShape(s, sh, q)[i]
    decreases |s| - q
  {
    assert q < |s|;
    var m := ShapeMatchAt(s, sh, q);
    if m.Some? {
      ScanShapeHit(s, sh, q);
      var rest := ScanShape(s, sh, m.value.1);
      if i == 0 {
        p := q;
      } else {
        assert ScanShape(s, sh, q)[i] == rest[i - 1];
        p := ScanShapeSound(s, sh, m.value.1, i - 1);
      }
    } else {
      ScanShapeMiss(s, sh, q);
      p := ScanShapeSound(s, sh, q + 1, i);
    }
  }

  /** A line start inside the leading whitespace of a match has the same
      group */
  lemma SkippedMatchSameGroup(s: string, sh: Shape, q: nat, p: nat)
    requires q <= p <= |s| && ShapeMatchAt(s, sh, q).Some?
    requires IsLineStart(s, p) && p <= ShapeMatchAt(s, sh, q).value.0
    ensures ShapeMatchAt(s, sh, p) == ShapeMatchAt(s, sh, q)
  {
    ShapeMatchGroup(s, sh, q);
    SpaceEndAt(s, p, ShapeMatchAt(s, sh, q).value.0);
  }

  /** A line start past the start of a match's group lies past its end:
      the group holds no newline */
  lemma NextLineAfterGroup(s: string, sh: Shape, q: nat, p: nat)
    requires q < p <= |s| && ShapeMatchAt(s, sh, q).Some?
    requires IsLineStart(s, p) && ShapeMatchAt(s, sh, q).value.0 < p
    ensures ShapeMatchAt(s, sh, q).value.1 < p
  {
    assert s[p - 1] == '\n';
  }

  /** Every match at or after `q` has its stripped group among the entries of
      the scan from `q`. A match the scan skips starts on a line inside the
      leading whitespace of an earlier match, and so has the same group. */
  lemma {:induction false} ScanShapeComplete(s: string, sh: Shape, q: nat, p: nat)
    requires q <= p <= |s|
    requires ShapeMatchAt(s, sh, p).Some?
    ensures var g := ShapeMatchAt(s, sh, p).value; Strip(s[g.0..g.1]) in ScanShape(s, sh, q)
    decreases |s| - q
  {
    assert q < |s|;
    var m := ShapeMatchAt(s, sh, q);
    if m.None? {
      ScanShapeMiss(s, sh, q);
      ScanShapeComplete(s, sh, q + 1, p);
    } else {
      ScanShapeHit(s, sh, q);
      var (lo, hi) := m.value;
      if p == q {
        assert ScanShape(s, sh, q)[0] == Strip(s[lo..hi]);
      } else if p <= lo {
        SkippedMatchSameGroup(s, sh, q, p);
        assert ScanShape(s, sh, q)[0] == Strip(s[lo..hi]);
      } else {
        NextLineAfterGroup(s, sh, q, p);
        ScanShapeComplete(s, sh, hi, p);
        var g := ShapeMatchAt(s, sh, p).value;
        var k :| 0 <= k < |ScanShape(s, sh, hi)| && ScanShape(s, sh, hi)[k] == Strip(s[g.0..g.1]);
        assert ScanShape(s, sh, q)[k + 1] == Strip(s[g.0..g.1]);
      }
    }
  }

  /** `key_lines` before deduplication: the patterns in order, each in log order */
  function Candidates(log: string): (c: seq<string>)
    ensures forall e :: e in c ==> IsKeyLine(e)
  {
    ScanShapeKeyLines(log, Requires, 0);
    ScanShapeKeyLines(log, DependsOn, 0);
    ScanShapeKeyLines(log, UserRequested, 0);
    ScanShapeKeyLines(log, IncompatibleVersions, 0);
    ScanShapeKeyLines(log, ConflictLine, 0);
    ScanShape(log, Requires, 0) + ScanShape(log, DependsOn, 0) + ScanShape(log, UserRequested, 0)
    + ScanShape(log, IncompatibleVersions, 0) + ScanShape(log, ConflictLine, 0)
  }

  function Elems<T>(xs: seq<T>): set<T> {
    set x | x in xs
  }

  predicate NoDuplicates<T(==)>(xs: seq<T>) {
    forall i, j :: 0 <= i < j < |xs| ==> xs[i] != xs[j]
  }

  /** The distinct elements of `xs`, in order of first occurrence */
  function Dedup<T(==)>(xs: seq<T>): (r: seq<T>)
    ensures NoDuplicates(r)
    ensures Elems(r) == Elems(xs)
    ensures |r| == |Elems(xs)|
    decreases |xs|
  {
    if |xs| == 0 then []
    else
      var init := xs[..|xs| - 1];
      var x := xs[|xs| - 1];
      var r := Dedup(init);
      assert Elems(xs) == Elems(init) + {x} by {
        assert xs == init + [x];
      }
      if x in r then r
      else
        assert Elems(r + [x]) == Elems(r) + {x};
        r + [x]
  }

  /** Whatever a prefix of the deduplicated sequence keeps comes from the original */
  lemma KeptAreElements<T>(xs: seq<T>, k: nat)
    requires k <= |Dedup(xs)|
    ensures forall x :: x in Dedup(xs)[..k] ==> x in xs
  {
    forall x | x in Dedup(xs)[..k]
      ensures x in xs
    {
      assert x in Elems(Dedup(xs));
    }
  }

  function Min(a: nat, b: nat): nat {
    if a <= b then a else b
  }

  /** How many constraint lines are kept */
  const MaxKeyLines := 15

  /** `list(set(xs))[:n]`: at most `n` distinct elements of `xs`, as many
      as there are up to `n`. Python's set order is unspecified; this model
      keeps first occurrences, and its contract says nothing that depends on
      the order. */
  function TakeDistinct<T(==)>(xs: seq<T>, n: nat): (r: seq<T>)
    ensures |r| == Min(n, |Elems(xs)|)
    ensures NoDuplicates(r)
    ensures forall x :: x in r ==> x in xs
    ensures n > 0 ==> (|r| == 0 <==> |xs| == 0)
    ensures |Elems(xs)| <= n ==> Elems(r) == Elems(xs)
  {
    var d := Dedup(xs);
    assert |xs| > 0 ==> xs[0] in Elems(xs);
    KeptAreElements(xs, Min(n, |d|));
    assert |d| <= n ==> d[..Min(n, |d|)] == d;
    d[..Min(n, |d|)]
  }

  /** `_extract_key_constraints`: at most fifteen distinct constraint lines */
  function ExtractKeyConstraints(log: string): (r: seq<string>)
    ensures |r| == Min(MaxKeyLines, |Elems(Candidates(log))|)
    ensures NoDuplicates(r)
    ensures forall e :: e in r ==> e in Candidates(log) && IsKeyLine(e)
    ensures |r| == 0 <==> |Candidates(log)| == 0
    ensures |Elems(Candidates(log))| <= MaxKeyLines ==> Elems(r) == Elems(Candidates(log))
  {
    TakeDistinct(Candidates(log), MaxKeyLines)
  }

  /** Every match of every shape anywhere in the log has its stripped group
      among the candidates */
  lemma CandidatesComplete(log: string, sh: Shape, p: nat)
    requires p <= |log| && ShapeMatchAt(log, sh, p).Some?
    ensures var g := ShapeMatchAt(log, sh, p).value; Strip(log[g.0..g.1]) in Candidates(log)
  {
    ScanShapeComplete(log, sh, 0, p);
  }

  /** Every candidate is the stripped group of a match in the log, and so a
      piece of the log's text */
  lemma CandidateOrigin(log: string, e: string) returns (sh: Shape, p: nat)
    requires e in Candidates(log)
    ensures p <= |log| && ShapeMatchAt(log, sh, p).Some?
    ensures var g := ShapeMatchAt(log, sh, p).value; Strip(log[g.0..g.1]) == e
    ensures IsInfix(e, log)
  {
    if e in ScanShape(log, Requires, 0) {
      sh := Requires;
    } else if e in ScanShape(log, DependsOn, 0) {
      sh := DependsOn;
    } else if e in ScanShape(log, UserRequested, 0) {
      sh := UserRequested;
    } else if e in ScanShape(log, IncompatibleVersions, 0) {
      sh := IncompatibleVersions;
    } else {
      sh := ConflictLine;
    }
    var lines := ScanShape(log, sh, 0);
    var i :| 0 <= i < |lines| && lines[i] == e;
    p := ScanShapeSound(log, sh, 0, i);
    var g := ShapeMatchAt(log, sh, p).value;
    StripIsInfix(log[g.0..g.1]);
    SliceIsInfix(log, g.0, g.1);
    InfixTrans(e, log[g.0..g.1], log);
  }

  /** Every kept constraint line is the stripped group of a match in the
      log, and a piece of the log's text */
  lemma ExtractedFromLog(log: string, e: string) returns (sh: Shape, p: nat)
    requires e in ExtractKeyConstraints(log)
    ensures p <= |log| && ShapeMatchAt(log, sh, p).Some?
    ensures var g := ShapeMatchAt(log, sh, p).value; Strip(log[g.0..g.1]) == e
    ensures IsInfix(e, log)
  {
    sh, p := CandidateOrigin(log, e);
  }

  /** With at most fifteen distinct candidate lines, nothing is cut: every
      match's stripped group is kept */
  lemma FewMatchesAllKept(log: string, sh: Shape, p: nat)
    requires |Elems(Candidates(log))| <= MaxKeyLines
    requires p <= |log| && ShapeMatchAt(log, sh, p).Some?
    ensures var g := ShapeMatchAt(log, sh, p).value; Strip(log[g.0..g.1]) in ExtractKeyConstraints(log)
  {
    CandidatesComplete(log, sh, p);
    var g := ShapeMatchAt(log, sh, p).value;
    assert Strip(log[g.0..g.1]) in Elems(Candidates(log));
  }

  /** Some line start `p` has one of the shapes after its leading whitespace */
  ghost predicate HasShapedLine(log: string) {
    exists sh: Shape, p: nat :: p <= |log| && ShapeMatchAt(log, sh, p).Some?
  }

  /** A non-empty scan from `q` comes from a match at or after `q` */
  lemma {:induction false} ScanShapeWitness(s: string, sh: Shape, q: nat) returns (p: nat)
    requires q <= |s|
    requires |ScanShape(s, sh, q)| > 0
    ensures q <= p <= |s| && ShapeMatchAt(s, sh, p).Some?
    decreases |s| - q
  {
    if ShapeMatchAt(s, sh, q).Some? {
      p := q;
    } else {
      p := ScanShapeWitness(s, sh, q + 1);
    }
  }

  /** A match at or after `q` makes the scan from `q` non-empty */
  lemma {:induction false} ScanShapeReaches(s: string, sh: Shape, q: nat, p: nat)
    requires q <= p <= |s|
    requires ShapeMatchAt(s, sh, p).Some?
    ensures |ScanShape(s, sh, q)| > 0
    decreases p - q
  {
    if ShapeMatchAt(s, sh, q).None? {
      ScanShapeReaches(s, sh, q + 1, p);
    }
  }

  /** The scan from `q` finds something exactly when a match starts at or after `q` */
  lemma ScanShapeNonEmpty(s: string, sh: Shape, q: nat)
    requires q <= |s|
    ensures |ScanShape(s, sh, q)| > 0 <==> exists p: nat :: q <= p <= |s| && ShapeMatchAt(s, sh, p).Some?
  {
    if |ScanShape(s, sh, q)| > 0 {
      var p := ScanShapeWitness(s, sh, q);
    }
    if exists p: nat :: q <= p <= |s| && ShapeMatchAt(s, sh, p).Some? {
      var p: nat :| q <= p <= |s| && ShapeMatchAt(s, sh, p).Some?;
      ScanShapeReaches(s, sh, q, p);
    }
  }

  /** Key constraints are found exactly when some line has one of the shapes */
  lemma KeyConstraintsFoundIff(log: string)
    ensures |ExtractKeyConstraints(log)| > 0 <==> HasShapedLine(log)
  {
    ScanShapeNonEmpty(log, Requires, 0);
    ScanShapeNonEmpty(log, DependsOn, 0);
    ScanShapeNonEmpty(log, UserRequested, 0);
    ScanShapeNonEmpty(log, IncompatibleVersions, 0);
    ScanShapeNonEmpty(log, ConflictLine, 0);
    if HasShapedLine(log) {
      var sh: Shape, p: nat :| p <= |log| && ShapeMatchAt(log, sh, p).Some?;
      match sh
      case Requires =>
      case DependsOn =>
      case UserRequested =>
      case IncompatibleVersions =>
      case ConflictLine =>
    }
  }

  lemma NoNewlineEntries(kc: seq<string>)
    requires forall e :: e in kc ==> IsKeyLine(e)
    ensures forall i :: 0 <= i < |kc| ==> '\n' !in kc[i]
  {
    forall i | 0 <= i < |kc|
      ensures '\n' !in kc[i]
    {
      assert kc[i] in kc;
      assert HasNoNewline(kc[i]);
    }
  }

  /** How much of the raw log stands in for key constraints when none are found */
  const FallbackContextLength := 2500

  /** The context of `summarize_error`: the key constraints, one per line,
      or else the head of the raw log. */
  function SummaryContext(log: string): (c: string)
    ensures var kc := ExtractKeyConstraints(log);
      && (|kc| > 0 ==> SplitOn(c, "\n") == kc)
      && (|kc| == 0 ==> |c| <= FallbackContextLength && IsPrefix(c, log)
                        && |c| == Min(FallbackContextLength, |log|))
  {
    var kc := ExtractKeyConstraints(log);
    if |kc| > 0 then
      NoNewlineEntries(kc);
      SplitJoinChar(kc, '\n');
      Join(kc, "\n")
    else log[..Min(FallbackContextLength, |log|)]
  }

  const SummaryUnavailable := "(LLM summary unavailable)"
  const SummaryFailed := "Failed to get summary from LLM."

  /** `.replace('\n', ' ')` */
  function ReplaceNewlines(t: string): (r: string)
    ensures |r| == |t| && HasNoNewline(r)
    ensures forall i :: 0 <= i < |t| && t[i] != '\n' ==> r[i] == t[i]
    ensures forall i :: 0 <= i < |t| && t[i] == '\n' ==> r[i] == ' '
  {
    seq(|t|, i requires 0 <= i < |t| => if t[i] == '\n' then ' ' else t[i])
  }

  /** The language model's reply to the summary prompt */
  function SummaryReply(agent: Agent, log: string): Option<string> {
    agent.generate(SummaryPrompt(SummaryContext(log)))
  }

  /** `summarize_error`: never fails, always one stripped line. */
  function SummarizeError(agent: Agent, log: string): (r: string)
    ensures HasNoNewline(r) && IsStripped(r)
    ensures !agent.llmAvailable ==> r == SummaryUnavailable
    ensures agent.llmAvailable && SummaryReply(agent, log).None? ==> r == SummaryFailed
    ensures agent.llmAvailable && SummaryReply(agent, log).Some? ==>
              |r| == |Strip(SummaryReply(agent, log).value)|
    ensures agent.llmAvailable && SummaryReply(agent, log).Some? ==>
              var t := Strip(SummaryReply(agent, log).value);
              && (forall i :: 0 <= i < |t| && t[i] != '\n' ==> r[i] == t[i])
              && (forall i :: 0 <= i < |t| && t[i] == '\n' ==> r[i] == ' ')
  {
    if !agent.llmAvailable then
      FixedRepliesAreLines();
      SummaryUnavailable
    else
      match SummaryReply(agent, log)
      case None =>
        FixedRepliesAreLines();
        SummaryFailed
      case Some(text) =>
        ReplaceKeepsStripped(Strip(text));
        ReplaceNewlines(Strip(text))
  }

  lemma FixedRepliesAreLines()
    ensures HasNoNewline(SummaryUnavailable) && IsStripped(SummaryUnavailable)
    ensures HasNoNewline(SummaryFailed) && IsStripped(SummaryFailed)
  {
  }

  /** Replacing inner newlines keeps a stripped text stripped: its ends are not spaces, so not newlines */
  lemma ReplaceKeepsStripped(t: string)
    requires IsStripped(t)
    ensures IsStripped(ReplaceNewlines(t))
  {
    var r := ReplaceNewlines(t);
    if |t| > 0 {
      assert t[0] != '\n' && t[|t| - 1] != '\n';
      assert r[0] == t[0] && r[|r| - 1] == t[|t| - 1];
    }
  }
}
