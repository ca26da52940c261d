/** Post-processing of a model reply: the fence cleaner and the search for
    the JSON object inside the reply. */
module Reply {
  import opened Wrappers
  import opened Text

  const Fence := "```"
  const JsonFence := "```json"

  predicate AllSpaces(w: string) {
    forall i :: 0 <= i < |w| ==> IsSpace(w[i])
  }

  predicate AllLetters(w: string) {
    forall i :: 0 <= i < |w| ==> IsAsciiLetter(w[i])
  }

  /** `re.sub(r"^```[a-zA-Z]*\n", "", s)`: without MULTILINE the anchor only
      matches at index 0, and the letter run must be followed by a newline
      (giving back letters cannot expose one), so at most one cut happens. */
  function RemoveOpeningFence(s: string): (r: string)
    ensures |r| <= |s| && r == s[|s| - |r|..]
    ensures |r| < |s| ==>
      IsPrefix(Fence, s) && s[|s| - |r| - 1] == '\n' && AllLetters(s[3..|s| - |r| - 1])
  {
    if !IsPrefix(Fence, s) then s
    else
      var e := SpanEnd(s, 3, IsAsciiLetter);
      if e < |s| && s[e] == '\n' then s[e + 1..] else s
  }

  /** `re.sub(r"\n```$", "", s)`: without MULTILINE, `$` matches at the end
      or just before a final newline. Both places cannot match in the same
      string, so at most one cut happens. */
  function RemoveClosingFence(s: string): (r: string)
    ensures |s| >= 4 && OccursAt(s, "\n```", |s| - 4) ==> r == s[..|s| - 4]
    ensures |s| >= 5 && s[|s| - 1] == '\n' && OccursAt(s, "\n```", |s| - 5) ==> r == s[..|s| - 5] + "\n"
    ensures |s| > 0 && s[|s| - 1] != '\n' ==> IsPrefix(r, s)
    ensures (!(|s| >= 4 && OccursAt(s, "\n```", |s| - 4))
             && !(|s| >= 5 && s[|s| - 1] == '\n' && OccursAt(s, "\n```", |s| - 5))) ==> r == s
  {
    if |s| >= 4 && OccursAt(s, "\n```", |s| - 4) then s[..|s| - 4]
    else if |s| >= 5 && s[|s| - 1] == '\n' && OccursAt(s, "\n```", |s| - 5) then s[..|s| - 5] + "\n"
    else s
  }

  /** `_clean_json_response`: strip, drop an opening fence with its language
      tag and a closing fence, strip again. */
  function CleanJsonResponse(text: string): (r: string)
    ensures IsStripped(r)
    ensures !IsPrefix(Fence, Strip(text)) ==> r == Strip(text)
    ensures IsInfix(r, text)
  {
    var c := Strip(text);
    var d := if IsPrefix(Fence, c) then RemoveClosingFence(RemoveOpeningFence(c)) else c;
    CleanIsInfix(text, c, d);
    Strip(d)
  }

  lemma CleanIsInfix(text: string, c: string, d: string)
    requires c == Strip(text)
    requires d == (if IsPrefix(Fence, c) then RemoveClosingFence(RemoveOpeningFence(c)) else c)
    ensures IsInfix(Strip(d), text)
  {
    StripIsInfix(text);
    StripIsInfix(d);
    if IsPrefix(Fence, c) {
      FencesRemovedIsInfix(c);
      InfixTrans(d, c, text);
    }
    InfixTrans(Strip(d), d, text);
  }

  /** On a stripped string the fence removal keeps a contiguous slice. */
  lemma FencesRemovedIsInfix(c: string)
    requires IsStripped(c)
    ensures IsInfix(RemoveClosingFence(RemoveOpeningFence(c)), c)
  {
    var o := RemoveOpeningFence(c);
    assert IsInfix(o, c) by {
      SliceIsInfix(c, |c| - |o|, |c|);
      assert c[|c| - |o|..|c|] == o;
    }
    ClosingFenceIsInfix(o, c);
    InfixTrans(RemoveClosingFence(o), o, c);
  }

  /** A suffix of a stripped text does not end in a newline, so removing a
      closing fence keeps a prefix of it. */
  lemma ClosingFenceIsInfix(o: string, c: string)
    requires IsStripped(c)
    requires |o| <= |c| && o == c[|c| - |o|..]
    ensures IsInfix(RemoveClosingFence(o), o)
  {
    var d := RemoveClosingFence(o);
    if |o| > 0 {
      assert o[|o| - 1] == c[|c| - 1];
      assert IsSpace('\n');
      SliceIsInfix(o, 0, |d|);
      assert o[0..|d|] == d;
    } else {
      assert OccursAt(o, d, 0);
    }
  }

  lemma OpeningFenceOf(tag: string, rest: string)
    requires AllLetters(tag)
    ensures RemoveOpeningFence(Fence + tag + "\n" + rest) == rest
  {
    var m := Fence + tag + "\n" + rest;
    assert IsPrefix(Fence, m);
    assert forall k :: 3 <= k < 3 + |tag| ==> m[k] == tag[k - 3];
    assert m[3 + |tag|] == '\n';
    assert SpanEnd(m, 3, IsAsciiLetter) == 3 + |tag|;
    assert m[3 + |tag| + 1..] == rest;
  }

  lemma ClosingFenceOf(body: string)
    ensures RemoveClosingFence(body + "\n```") == body
  {
    var o := body + "\n```";
    assert o[|o| - 4..] == "\n```";
    assert o[..|o| - 4] == body;
  }

  lemma StripFenced(w1: string, tag: string, body: string, w2: string)
    requires AllSpaces(w1) && AllSpaces(w2)
    ensures Strip(w1 + Fence + tag + "\n" + body + "\n```" + w2)
      == Fence + tag + "\n" + (body + "\n```")
  {
    var m := Fence + tag + "\n" + (body + "\n```");
    assert w1 + Fence + tag + "\n" + body + "\n```" + w2 == w1 + m + w2;
    assert m[0] == '`' && m[|m| - 1] == '`';
    StripSurrounded(w1, m, w2);
  }

  lemma FencesOff(tag: string, body: string)
    requires AllLetters(tag)
    ensures var m := Fence + tag + "\n" + (body + "\n```");
      IsPrefix(Fence, m) && RemoveClosingFence(RemoveOpeningFence(m)) == body
  {
    OpeningFenceOf(tag, body + "\n```");
    ClosingFenceOf(body);
  }

  /** A reply fenced as the prompt asks, with any language tag and any
      surrounding whitespace, cleans back to its stripped body. */
  lemma CleanFencedRoundTrip(w1: string, tag: string, body: string, w2: string)
    requires AllSpaces(w1) && AllSpaces(w2) && AllLetters(tag)
    requires IsStripped(body)
    ensures CleanJsonResponse(w1 + Fence + tag + "\n" + body + "\n```" + w2) == body
  {
    StripFenced(w1, tag, body, w2);
    FencesOff(tag, body);
    StripSurrounded("", body, "");
    assert "" + body + "" == body;
  }

  /** `\s*` followed by a fence, from `j`: the greedy run cannot give back,
      since a backtick is not whitespace. */
  predicate FenceAfterSpaces(s: string, j: nat)
    decreases |s| - j
  {
    j < |s| && (OccursAt(s, Fence, j) || (IsSpace(s[j]) && FenceAfterSpaces(s, j + 1)))
  }

  lemma {:induction false} FenceAfterSpacesAt(s: string, j: nat, f: nat)
    requires j <= f <= |s|
    requires forall i :: j <= i < f ==> IsSpace(s[i])
    requires OccursAt(s, Fence, f)
    ensures FenceAfterSpaces(s, j)
    decreases f - j
  {
    if j < f {
      FenceAfterSpacesAt(s, j + 1, f);
    }
  }

  /** Inside a backtick-free stretch that ends on a non-space character, no
      fence follows the whitespace. */
  lemma {:induction false} NoFenceAfterSpaces(s: string, j: nat, hi: nat)
    requires j < hi <= |s|
    requires forall i :: j <= i < hi ==> s[i] != '`'
    requires !IsSpace(s[hi - 1])
    ensures !FenceAfterSpaces(s, j)
    decreases hi - j
  {
    assert !OccursAt(s, Fence, j) by {
      if j + 3 <= |s| {
        assert s[j..j + 3][0] == s[j];
      }
    }
    if IsSpace(s[j]) {
      NoFenceAfterSpaces(s, j + 1, hi);
    }
  }

  /** `}` at `k` can end the fenced group: it is followed by optional
      whitespace and a closing fence. */
  predicate ClosesFence(s: string, k: nat) {
    k < |s| && s[k] == '}' && FenceAfterSpaces(s, k + 1)
  }

  /** The lazy `.*?\}` followed by `\s*```` settles on the first `}` that
      can end the group (see `LazyCloseFirst`). */
  function LazyClose(s: string, k: nat): (r: Option<nat>)
    requires k <= |s|
    ensures r.Some? ==> k <= r.value && ClosesFence(s, r.value)
    decreases |s| - k
  {
    if k == |s| then None
    else if ClosesFence(s, k) then Some(k)
    else LazyClose(s, k + 1)
  }

  /** No `}` between `k` and the one the lazy match takes can end the
      group. */
  lemma {:induction false} LazyCloseFirst(s: string, k: nat)
    requires k <= |s|
    requires LazyClose(s, k).Some?
    ensures forall j :: k <= j < LazyClose(s, k).value ==> !ClosesFence(s, j)
    decreases |s| - k
  {
    if !ClosesFence(s, k) {
      LazyCloseFirst(s, k + 1);
    }
  }

  /** The first closing `}` from `k` on is the one the lazy match takes. */
  lemma {:induction false} LazyCloseAt(s: string, k: nat, c: nat)
    requires k <= c
    requires ClosesFence(s, c)
    requires forall j :: k <= j < c ==> !ClosesFence(s, j)
    ensures LazyClose(s, k) == Some(c)
    decreases c - k
  {
    if k < c {
      LazyCloseAt(s, k + 1, c);
    }
  }

  /** `\s*\{` from `j`: where the opening brace sits, if only whitespace
      comes before it. */
  function BraceAfterSpaces(s: string, j: nat): (r: Option<nat>)
    ensures r.Some? ==> j <= r.value < |s| && s[r.value] == '{'
    decreases |s| - j
  {
    if j >= |s| then None
    else if s[j] == '{' then Some(j)
    else if IsSpace(s[j]) then BraceAfterSpaces(s, j + 1)
    else None
  }

  lemma {:induction false} BraceAfterSpacesSkips(s: string, j: nat)
    requires BraceAfterSpaces(s, j).Some?
    ensures AllSpaces(s[j..BraceAfterSpaces(s, j).value])
    decreases |s| - j
  {
    if s[j] != '{' {
      BraceAfterSpacesSkips(s, j + 1);
      assert s[j..BraceAfterSpaces(s, j).value] == [s[j]] + s[j + 1..BraceAfterSpaces(s, j).value];
    }
  }

  lemma {:induction false} BraceAfterSpacesAt(s: string, j: nat, q: nat)
    requires j <= q < |s|
    requires forall i :: j <= i < q ==> IsSpace(s[i])
    requires s[q] == '{'
    ensures BraceAfterSpaces(s, j) == Some(q)
    decreases q - j
  {
    if j < q {
      assert s[j] != '{' by {
        assert IsSpace(s[j]) && !IsSpace('{');
      }
      BraceAfterSpacesAt(s, j + 1, q);
    }
  }

  /** Bounds of the group of `r'```json\s*(\{.*?\})\s*```'` when the match
      starts at `p`. The `\s*` runs are greedy and cannot give back (the next
      required character is not whitespace), so the only choice left is the
      lazy close. */
  function FencedAt(s: string, p: nat): (r: Option<(nat, nat)>)
    ensures r.Some? ==> p + 7 <= r.value.0 < r.value.1 <= |s|
  {
    if !OccursAt(s, JsonFence, p) then None
    else
      match BraceAfterSpaces(s, p + 7)
      case None => None
      case Some(q) =>
        match LazyClose(s, q + 1)
        case None => None
        case Some(k) => Some((q, k + 1))
  }

  /** A fenced group: after the `json` fence and whitespace, a `{`, then
      everything up to the first `}` that whitespace and a fence follow. */
  lemma FencedGroupShape(s: string, p: nat)
    requires FencedAt(s, p).Some?
    ensures var (lo, hi) := FencedAt(s, p).value;
      OccursAt(s, JsonFence, p) && AllSpaces(s[p + 7..lo]) && s[lo] == '{'
      && lo < hi - 1 && ClosesFence(s, hi - 1)
      && forall j :: lo < j < hi - 1 ==> !ClosesFence(s, j)
  {
    BraceAfterSpacesSkips(s, p + 7);
    LazyCloseFirst(s, BraceAfterSpaces(s, p + 7).value + 1);
  }

  /** `re.search` for the fenced pattern from index `p` on: the leftmost
      start that matches (see `FencedFromLeftmost`). */
  function FencedFrom(s: string, p: nat): (r: Option<nat>)
    requires p <= |s|
    ensures r.Some? ==> p <= r.value <= |s| && FencedAt(s, r.value).Some?
    decreases |s| - p
  {
    if FencedAt(s, p).Some? then Some(p)
    else if p == |s| then None
    else FencedFrom(s, p + 1)
  }

  /** The search reports the leftmost matching start. */
  lemma {:induction false} FencedFromLeftmost(s: string, p: nat)
    requires p <= |s|
    requires FencedFrom(s, p).Some?
    ensures forall i :: p <= i < FencedFrom(s, p).value ==> FencedAt(s, i).None?
    decreases |s| - p
  {
    if FencedAt(s, p).None? {
      FencedFromLeftmost(s, p + 1);
    }
  }

  /** The search reports nothing only when no start matches. */
  lemma {:induction false} FencedFromNone(s: string, p: nat)
    requires p <= |s|
    requires FencedFrom(s, p).None?
    ensures forall i :: p <= i <= |s| ==> FencedAt(s, i).None?
    decreases |s| - p
  {
    if p < |s| {
      FencedFromNone(s, p + 1);
    }
  }

  /** What both searches hand over: a brace-delimited text */
  predicate IsBlock(b: string) {
    |b| >= 2 && b[0] == '{' && b[|b| - 1] == '}'
  }

  /** The group of the fenced search over the raw reply */
  function FencedBlock(raw: string): (r: Option<string>)
    ensures r.Some? ==> IsBlock(r.value)
    ensures r.Some? ==> IsInfix(r.value, raw)
  {
    match FencedFrom(raw, 0)
    case None => None
    case Some(at) =>
      var (lo, hi) := FencedAt(raw, at).value;
      SliceIsInfix(raw, lo, hi);
      FencedGroupShape(raw, at);
      Some(raw[lo..hi])
  }

  /** The last index holding `c`, searching below `k` */
  function LastIndexBelow(s: string, c: char, k: nat): (r: Option<nat>)
    requires k <= |s|
    ensures r.Some? ==> r.value < k && s[r.value] == c
    ensures r.Some? ==> forall j :: r.value < j < k ==> s[j] != c
    ensures r.None? ==> forall j :: 0 <= j < k ==> s[j] != c
  {
    if k == 0 then None
    else if s[k - 1] == c then Some(k - 1)
    else LastIndexBelow(s, c, k - 1)
  }

  /** Some `{` comes before some `}` */
  ghost predicate HasBracePair(s: string) {
    exists i, j :: 0 <= i < j < |s| && s[i] == '{' && s[j] == '}'
  }

  /** Bounds of the group of `r'(\{.*\})'` with DOTALL: the leftmost `{`
      and, by the greedy `.*`, the last `}`. */
  function BraceBounds(s: string): (r: Option<(nat, nat)>)
    ensures r.Some? <==> HasBracePair(s)
    ensures r.Some? ==> r.value.0 < r.value.1 - 1 && r.value.1 <= |s|
    ensures r.Some? ==> s[r.value.0] == '{' && s[r.value.1 - 1] == '}'
    ensures r.Some? ==> forall i :: 0 <= i < r.value.0 ==> s[i] != '{'
    ensures r.Some? ==> forall j :: r.value.1 <= j < |s| ==> s[j] != '}'
  {
    var open := FindFrom(s, "{", 0);
    var close := LastIndexBelow(s, '}', |s|);
    if open.Some? && close.Some? && open.value < close.value then
      assert s[open.value] == "{"[0];
      assert forall i :: 0 <= i < open.value ==> s[i] != '{' by {
        forall i | 0 <= i < open.value
          ensures s[i] != '{'
        {
          OccursAtChar(s, '{', i);
        }
      }
      Some((open.value, close.value + 1))
    else
      assert !HasBracePair(s) by {
        forall i, j | 0 <= i < j < |s| && s[i] == '{'
          ensures s[j] != '}'
        {
          OccursAtChar(s, '{', i);
        }
      }
      None
  }

  function BraceBlock(s: string): (r: Option<string>)
    ensures r.Some? <==> HasBracePair(s)
    ensures r.Some? ==> IsBlock(r.value)
    ensures r.Some? ==> IsInfix(r.value, s)
  {
    match BraceBounds(s)
    case None => None
    case Some(b) =>
      SliceIsInfix(s, b.0, b.1);
      Some(s[b.0..b.1])
  }

  /** The second search: the brace group of the cleaned reply */
  function BraceBlockOfCleaned(raw: string): (r: Option<string>)
    ensures r.Some? <==> HasBracePair(CleanJsonResponse(raw))
    ensures r.Some? ==> IsBlock(r.value)
    ensures r.Some? ==> IsInfix(r.value, raw)
  {
    var clean := CleanJsonResponse(raw);
    var r := BraceBlock(clean);
    if r.Some? then InfixTrans(r.value, clean, raw); r else r
  }

  /** The block handed to `json.loads`: the fenced group of the raw reply
      when there is one, otherwise the brace group of the cleaned reply. */
  function FindBlock(raw: string): (r: Option<string>)
    ensures r.Some? ==> IsBlock(r.value)
    ensures r.Some? ==> IsInfix(r.value, raw)
    ensures FencedBlock(raw).Some? ==> r == FencedBlock(raw)
    ensures r.None? <==> FencedBlock(raw).None? && !HasBracePair(CleanJsonResponse(raw))
  {
    var fenced := FencedBlock(raw);
    if fenced.Some? then fenced else BraceBlockOfCleaned(raw)
  }

  /** A reply with no `{` at all yields no block. */
  lemma NoBraceNoBlock(raw: string)
    requires '{' !in raw
    ensures FindBlock(raw).None?
  {
    assert FencedBlock(raw).None? by {
      forall i | 0 <= i <= |raw|
        ensures FencedAt(raw, i).None?
      {
        NoBraceNotFenced(raw, i);
      }
    }
    var clean := CleanJsonResponse(raw);
    assert !HasBracePair(clean) by {
      NoBraceInInfix(clean, raw);
    }
  }

  lemma NoBraceNotFenced(s: string, p: nat)
    requires '{' !in s
    ensures FencedAt(s, p).None?
  {
    assert forall q :: 0 <= q < |s| ==> s[q] in s;
  }

  lemma NoBraceInInfix(a: string, s: string)
    requires '{' !in s
    requires IsInfix(a, s)
    ensures forall k :: 0 <= k < |a| ==> a[k] != '{'
  {
    var i :| 0 <= i <= |s| && OccursAt(s, a, i);
    forall k | 0 <= k < |a|
      ensures a[k] != '{'
    {
      assert a[k] == s[i + k];
      assert s[i + k] in s;
    }
  }

  /** Everything before `k` lacks a backtick, so no fence starts there. */
  lemma NoFenceBefore(s: string, k: nat)
    requires k <= |s|
    requires forall i :: 0 <= i < k ==> s[i] != '`'
    ensures forall i :: 0 <= i < k ==> FencedAt(s, i).None?
  {
    forall i | 0 <= i < k
      ensures FencedAt(s, i).None?
    {
      assert !OccursAt(s, JsonFence, i) by {
        if i + 7 <= |s| {
          assert s[i..i + 7][0] == s[i];
        }
      }
    }
  }

  /** A `}` inside a backtick-free block, other than its last character,
      cannot close the fence. */
  lemma NoCloseInside(s: string, lo: nat, hi: nat)
    requires lo < hi <= |s|
    requires forall i :: lo <= i < hi ==> s[i] != '`'
    requires s[hi - 1] == '}'
    ensures forall j :: lo <= j < hi - 1 ==> !ClosesFence(s, j)
  {
    forall j | lo <= j < hi - 1
      ensures !ClosesFence(s, j)
    {
      if s[j] == '}' {
        NoFenceAfterSpaces(s, j + 1, hi);
      }
    }
  }

  lemma FencedAtIs(s: string, p: nat, q: nat, k: nat)
    requires OccursAt(s, JsonFence, p)
    requires BraceAfterSpaces(s, p + 7) == Some(q)
    requires LazyClose(s, q + 1) == Some(k)
    ensures FencedAt(s, p) == Some((q, k + 1))
  {
  }

  lemma LeftmostFenced(s: string, p: nat)
    requires p <= |s|
    requires forall i :: 0 <= i < p ==> FencedAt(s, i).None?
    requires FencedAt(s, p).Some?
    ensures FencedFrom(s, 0) == Some(p)
  {
    var r := FencedFrom(s, 0);
    if r.None? {
      FencedFromNone(s, 0);
    } else {
      FencedFromLeftmost(s, 0);
    }
    assert r.value == p;
  }

  /** In a backtick-free block followed by whitespace and a fence, the
      lazy match closes on the block's last character. */
  lemma LazyCloseInBlock(s: string, q: nat, e: nat, f: nat)
    requires q + 1 < e <= f && f + 3 <= |s|
    requires forall i :: q <= i < e ==> s[i] != '`'
    requires s[e - 1] == '}'
    requires forall i :: e <= i < f ==> IsSpace(s[i])
    requires OccursAt(s, Fence, f)
    ensures LazyClose(s, q + 1) == Some(e - 1)
  {
    FenceAfterSpacesAt(s, e, f);
    NoCloseInside(s, q, e);
    LazyCloseAt(s, q + 1, e - 1);
  }

  /** The fenced search, stated on positions: the first fence at `p`,
      whitespace up to `q`, a backtick-free block `s[q..e]`, whitespace up
      to `f`, and a closing fence at `f`. */
  lemma FencedFoundAt(s: string, p: nat, q: nat, e: nat, f: nat)
    requires p + 7 <= q && q + 1 < e <= f && f + 3 <= |s|
    requires forall i :: 0 <= i < p ==> s[i] != '`'
    requires OccursAt(s, JsonFence, p)
    requires forall i :: p + 7 <= i < q ==> IsSpace(s[i])
    requires s[q] == '{'
    requires forall i :: q <= i < e ==> s[i] != '`'
    requires s[e - 1] == '}'
    requires forall i :: e <= i < f ==> IsSpace(s[i])
    requires OccursAt(s, Fence, f)
    ensures FencedBlock(s) == Some(s[q..e])
  {
    assert FencedAt(s, p) == Some((q, e)) by {
      BraceAfterSpacesAt(s, p + 7, q);
      LazyCloseInBlock(s, q, e, f);
      FencedAtIs(s, p, q, e - 1);
    }
    assert FencedFrom(s, 0) == Some(p) by {
      NoFenceBefore(s, p);
      LeftmostFenced(s, p);
    }
  }

  /** Positions of the pieces of a reply laid out as the planning prompt
      asks */
  lemma FencedLayout(s: string, pre: string, w1: string, b: string, w2: string, post: string,
                     p: nat, q: nat, e: nat, f: nat)
    requires forall i :: 0 <= i < |pre| ==> pre[i] != '`'
    requires AllSpaces(w1) && AllSpaces(w2)
    requires IsBlock(b)
    requires forall i :: 0 <= i < |b| ==> b[i] != '`'
    requires s == pre + JsonFence + w1 + b + w2 + Fence + post
    requires p == |pre| && q == p + 7 + |w1| && e == q + |b| && f == e + |w2|
    ensures p + 7 <= q && q + 1 < e <= f && f + 3 <= |s|
    ensures forall i :: 0 <= i < p ==> s[i] != '`'
    ensures OccursAt(s, JsonFence, p)
    ensures forall i :: p + 7 <= i < q ==> IsSpace(s[i])
    ensures s[q] == '{'
    ensures forall i :: q <= i < e ==> s[i] != '`'
    ensures s[e - 1] == '}'
    ensures forall i :: e <= i < f ==> IsSpace(s[i])
    ensures OccursAt(s, Fence, f)
    ensures s[q..e] == b
  {
    assert s[p..p + 7] == JsonFence;
    assert s[q..e] == b;
    assert s[f..f + 3] == Fence;
  }

  /** A reply in the format the planning prompt asks for — free text
      without backticks, then a `json` fence around a backtick-free object —
      yields exactly that object, whatever braces the free text holds. */
  lemma FencedReplyRoundTrip(pre: string, w1: string, b: string, w2: string, post: string)
    requires forall i :: 0 <= i < |pre| ==> pre[i] != '`'
    requires AllSpaces(w1) && AllSpaces(w2)
    requires IsBlock(b)
    requires forall i :: 0 <= i < |b| ==> b[i] != '`'
    ensures FindBlock(pre + JsonFence + w1 + b + w2 + Fence + post) == Some(b)
  {
    var s := pre + JsonFence + w1 + b + w2 + Fence + post;
    var p := |pre|;
    var q := p + 7 + |w1|;
    var e := q + |b|;
    assert FencedBlock(s) == Some(b) by {
      FencedLayout(s, pre, w1, b, w2, post, p, q, e, e + |w2|);
      FencedFoundAt(s, p, q, e, e + |w2|);
    }
    FencedBlockWins(s);
  }

  lemma FencedBlockWins(s: string)
    requires FencedBlock(s).Some?
    ensures FindBlock(s) == FencedBlock(s)
  {
  }

  lemma NoFencedBlock(s: string)
    requires forall i :: 0 <= i < |s| ==> s[i] != '`'
    ensures FencedBlock(s).None?
  {
    NoFenceBefore(s, |s|);
    assert FencedAt(s, |s|).None?;
  }

  /** The brace search over a block alone returns the whole block. */
  lemma WholeBlock(b: string)
    requires IsBlock(b)
    ensures BraceBlock(b) == Some(b)
  {
    assert HasBracePair(b) by {
      assert b[0] == '{' && b[|b| - 1] == '}';
    }
    var bb := BraceBounds(b);
    assert bb.value == (0, |b|);
    assert b[0..|b|] == b;
  }

  lemma CleanPlain(w1: string, b: string, w2: string)
    requires AllSpaces(w1) && AllSpaces(w2)
    requires IsBlock(b)
    ensures CleanJsonResponse(w1 + b + w2) == b
  {
    StripSurrounded(w1, b, w2);
    assert !IsPrefix(Fence, b) by {
      assert b[0] != Fence[0];
    }
  }

  lemma NoBacktickWrapped(w1: string, b: string, w2: string)
    requires AllSpaces(w1) && AllSpaces(w2)
    requires forall i :: 0 <= i < |b| ==> b[i] != '`'
    ensures forall i :: 0 <= i < |w1 + b + w2| ==> (w1 + b + w2)[i] != '`'
  {
    var s := w1 + b + w2;
    forall i | 0 <= i < |s|
      ensures s[i] != '`'
    {
      if i < |w1| {
        assert IsSpace(s[i]);
      } else if i >= |w1| + |b| {
        assert IsSpace(w2[i - |w1| - |b|]);
      }
    }
  }

  /** A bare backtick-free object, surrounded by whitespace at most, is found
      by the second search and comes back whole. */
  lemma PlainReplyRoundTrip(w1: string, b: string, w2: string)
    requires AllSpaces(w1) && AllSpaces(w2)
    requires IsBlock(b)
    requires forall i :: 0 <= i < |b| ==> b[i] != '`'
    ensures FindBlock(w1 + b + w2) == Some(b)
  {
    var s := w1 + b + w2;
    assert FencedBlock(s).None? by {
      NoBacktickWrapped(w1, b, w2);
      NoFencedBlock(s);
    }
    assert BraceBlockOfCleaned(s) == Some(b) by {
      CleanPlain(w1, b, w2);
      WholeBlock(b);
    }
  }
}
