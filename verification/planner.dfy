/** One planning cycle of `ExpertAgent.propose_co_resolution`: the history
    transcript embedded in the request, the block taken from the reply, and
    the validation of the proposed pins against the floor (the installed
    versions) and the ceiling (the newest available versions). */
module Planner {
  import opened Wrappers
  import opened Text
  import opened Oracle
  import opened Reply

  /** A rejected attempt: the plan as it was rendered, and why it failed */
  datatype Attempt = Attempt(plan: string, reason: string)

  /** The heading of a non-empty transcript */
  const HistoryHeader := "--- PREVIOUS FAILED ATTEMPTS (DO NOT REPEAT) ---\n"

  /** The transcript entry of the attempt numbered `n` (counting from 1) */
  function AttemptEntry(n: nat, a: Attempt): string {
    "Attempt " + DecimalString(n) + " Plan: " + a.plan + "\nResult: FAILED. Reason: " + a.reason + "\n\n"
  }

  /** The entries of all attempts, numbered 1..|h| in order */
  function Entries(h: seq<Attempt>): string
    decreases |h|
  {
    if |h| == 0 then "" else Entries(h[..|h| - 1]) + AttemptEntry(|h|, h[|h| - 1])
  }

  /** The "do not repeat" transcript: nothing for an empty history, else the
      heading followed by the entries */
  function HistoryText(h: seq<Attempt>): (t: string)
    ensures |h| == 0 <==> t == ""
  {
    if |h| == 0 then "" else HistoryHeader + Entries(h)
  }

  /** A non-empty transcript opens with the heading */
  lemma HistoryOpensWithHeader(h: seq<Attempt>)
    requires |h| > 0
    ensures IsPrefix(HistoryHeader, HistoryText(h))
  {
    AppendPrefix(HistoryHeader, Entries(h));
  }

  lemma EntriesExtend(h: seq<Attempt>, a: Attempt)
    ensures Entries(h + [a]) == Entries(h) + AttemptEntry(|h| + 1, a)
  {
    assert (h + [a])[..|h|] == h;
  }

  /** Appending an attempt to the history appends its entry, numbered one
      past the previous attempts, to the transcript */
  lemma HistoryExtends(h: seq<Attempt>, a: Attempt)
    ensures HistoryText(h + [a]) ==
      (if |h| == 0 then HistoryHeader else HistoryText(h)) + AttemptEntry(|h| + 1, a)
  {
    var e := AttemptEntry(|h| + 1, a);
    EntriesExtend(h, a);
    if |h| == 0 {
      assert Entries(h) == [];
      assert Entries(h + [a]) == e;
    } else {
      assert HistoryText(h + [a]) == HistoryHeader + (Entries(h) + e);
      assert HistoryHeader + (Entries(h) + e) == (HistoryHeader + Entries(h)) + e;
    }
  }

  lemma AppendPrefix(x: string, y: string)
    ensures IsPrefix(x, x + y)
  {
    assert (x + y)[..|x|] == x;
  }

  lemma PrefixTrans(x: string, y: string, z: string)
    requires IsPrefix(x, y) && IsPrefix(y, z)
    ensures IsPrefix(x, z)
  {
    assert z[..|x|] == y[..|x|];
  }

  /** A later transcript starts with every earlier one: entries are only ever
      added behind the previous ones */
  lemma {:induction false} HistoryPrefix(h: seq<Attempt>, more: seq<Attempt>)
    ensures IsPrefix(HistoryText(h), HistoryText(h + more))
    decreases |more|
  {
    if |more| == 0 {
      assert h + more == h;
      AppendPrefix(HistoryText(h), "");
      assert HistoryText(h) + "" == HistoryText(h);
    } else {
      var init := more[..|more| - 1];
      var a := more[|more| - 1];
      assert h + more == (h + init) + [a];
      HistoryPrefix(h, init);
      HistoryExtends(h + init, a);
      var mid := HistoryText(h + init);
      var e := AttemptEntry(|h + init| + 1, a);
      if |h + init| == 0 {
        assert HistoryText(h) == "";
        assert IsPrefix(HistoryText(h), HistoryText(h + more));
      } else {
        AppendPrefix(mid, e);
        PrefixTrans(HistoryText(h), mid, HistoryText(h + more));
      }
    }
  }

  lemma TailOfPrefixIsInfix(t: string, upto: string, head: string, e: string)
    requires upto == head + e && IsPrefix(upto, t)
    ensures IsInfix(e, t)
  {
    assert t[|head|..|head| + |e|] == upto[|head|..];
    assert OccursAt(t, e, |head|);
  }

  /** The transcript of the first `k` attempts starts the whole transcript */
  lemma HistoryPrefixAt(h: seq<Attempt>, k: nat)
    requires k <= |h|
    ensures IsPrefix(HistoryText(h[..k]), HistoryText(h))
  {
    HistoryPrefix(h[..k], h[k..]);
    assert h[..k] + h[k..] == h;
  }

  /** The transcript of the first `i + 1` attempts ends with the entry of attempt `i` */
  lemma HistoryEndsWith(h: seq<Attempt>, i: nat)
    requires i < |h|
    ensures HistoryText(h[..i + 1]) ==
      (if i == 0 then HistoryHeader else HistoryText(h[..i])) + AttemptEntry(i + 1, h[i])
  {
    HistoryExtends(h[..i], h[i]);
    assert h[..i] + [h[i]] == h[..i + 1];
  }

  /** Every attempt of the history appears in the transcript under its number */
  lemma AttemptListed(h: seq<Attempt>, i: nat)
    requires i < |h|
    ensures IsInfix(AttemptEntry(i + 1, h[i]), HistoryText(h))
  {
    HistoryPrefixAt(h, i + 1);
    HistoryEndsWith(h, i);
    TailOfPrefixIsInfix(HistoryText(h), HistoryText(h[..i + 1]),
                        if i == 0 then HistoryHeader else HistoryText(h[..i]), AttemptEntry(i + 1, h[i]));
  }

  /** The floor as the request shows it: `"{}"` when there is no floor or
      it is empty */
  function FloorText(agent: Agent, floor: Option<map<string, string>>): (t: string)
    ensures floor.None? || |floor.value| == 0 ==> t == "{}"
    ensures floor.Some? && |floor.value| > 0 ==> t == agent.dumps(floor.value)
  {
    if floor.Some? && |floor.value| > 0 then agent.dumps(floor.value) else "{}"
  }

  /** The request of one cycle */
  function PlanRequest(agent: Agent, target: string, log: string, ceiling: map<string, string>,
                       floor: Option<map<string, string>>, history: seq<Attempt>): Prompt
  {
    PlanPrompt(target, FloorText(agent, floor), agent.dumps(ceiling), log, HistoryText(history))
  }

  /** A cycle after a rejected attempt asks with a transcript that keeps the
      previous one and adds the rejected attempt */
  lemma NextRequestRecordsAttempt(agent: Agent, target: string, log: string, ceiling: map<string, string>,
                                  floor: Option<map<string, string>>, history: seq<Attempt>, a: Attempt)
    ensures var before := PlanRequest(agent, target, log, ceiling, floor, history).transcript;
            var after := PlanRequest(agent, target, log, ceiling, floor, history + [a]).transcript;
      && IsPrefix(before, after)
      && IsInfix(AttemptEntry(|history| + 1, a), after)
      && |before| < |after|
  {
    HistoryPrefix(history, [a]);
    HistoryExtends(history, a);
    var e := AttemptEntry(|history| + 1, a);
    var head := if |history| == 0 then HistoryHeader else HistoryText(history);
    AppendPrefix(head, e);
    TailOfPrefixIsInfix(HistoryText(history + [a]), HistoryText(history + [a]), head, e);
  }

  /** A pin `pkg==ver` is known when the ceiling or the floor holds exactly
      that version for exactly that name; there is no case folding */
  predicate Admits(pkg: string, ver: string, ceiling: map<string, string>, floor: Option<map<string, string>>) {
    || (pkg in ceiling && ceiling[pkg] == ver)
    || (floor.Some? && pkg in floor.value && floor.value[pkg] == ver)
  }

  const PinSeparator := "=="

  /** A requirement is kept when it splits on `==` into exactly two pieces
      (any other count is the skipped `ValueError`) and the ceiling or the
      floor admits them */
  predicate AcceptPin(req: string, ceiling: map<string, string>, floor: Option<map<string, string>>) {
    var parts := SplitOn(req, PinSeparator);
    |parts| == 2 && Admits(parts[0], parts[1], ceiling, floor)
  }

  /** A kept requirement is `pkg==ver` for an admitted pair, neither half
      holding the separator */
  lemma AcceptedPinShape(req: string, ceiling: map<string, string>, floor: Option<map<string, string>>)
    requires AcceptPin(req, ceiling, floor)
    ensures exists pkg: string, ver: string ::
      && req == pkg + PinSeparator + ver
      && Admits(pkg, ver, ceiling, floor)
      && (forall j :: !OccursAt(pkg, PinSeparator, j))
      && (forall j :: !OccursAt(ver, PinSeparator, j))
  {
    var parts := SplitOn(req, PinSeparator);
    assert Join(parts, PinSeparator) == parts[0] + PinSeparator + parts[1];
    assert parts[0] + PinSeparator + parts[1] == req;
  }

  /** Names and versions without `=` split back into themselves */
  lemma SplitPin(pkg: string, ver: string)
    requires '=' !in pkg && '=' !in ver
    ensures SplitOn(pkg + PinSeparator + ver, PinSeparator) == [pkg, ver]
  {
    var s := pkg + PinSeparator + ver;
    forall j | 0 <= j < |pkg|
      ensures !OccursAt(s, PinSeparator, j)
    {
      assert s[j] == pkg[j];
    }
    assert OccursAt(s, PinSeparator, |pkg|);
    assert FindFrom(s, PinSeparator, 0) == Some(|pkg|);
    assert s[..|pkg|] == pkg;
    assert s[|pkg| + 2..] == ver;
    forall j | 0 <= j
      ensures !OccursAt(ver, PinSeparator, j)
    {
      if j + 2 <= |ver| {
        assert ver[j] in ver;
      }
    }
    assert FindFrom(ver, PinSeparator, 0).None?;
  }

  /** For a name and version without `=`, the pin is kept exactly when the
      ceiling or the floor holds that version under that exact name */
  lemma PinAcceptedIff(pkg: string, ver: string, ceiling: map<string, string>, floor: Option<map<string, string>>)
    requires '=' !in pkg && '=' !in ver
    ensures AcceptPin(pkg + PinSeparator + ver, ceiling, floor) <==> Admits(pkg, ver, ceiling, floor)
  {
    SplitPin(pkg, ver);
  }

  /** A requirement without the separator is skipped */
  lemma UnpinnedSkipped(req: string, ceiling: map<string, string>, floor: Option<map<string, string>>)
    requires forall j :: !OccursAt(req, PinSeparator, j)
    ensures !AcceptPin(req, ceiling, floor)
  {
    assert FindFrom(req, PinSeparator, 0).None?;
  }

  /** The loop over `proposed_plan`: the kept requirements, in order */
  function FilterPins(reqs: seq<string>, ceiling: map<string, string>, floor: Option<map<string, string>>): (kept: seq<string>)
    ensures |kept| <= |reqs|
    ensures forall x :: x in kept <==> x in reqs && AcceptPin(x, ceiling, floor)
    decreases |reqs|
  {
    if |reqs| == 0 then []
    else
      var rest := FilterPins(reqs[1..], ceiling, floor);
      assert forall x :: x in reqs <==> x == reqs[0] || x in reqs[1..];
      if AcceptPin(reqs[0], ceiling, floor) then [reqs[0]] + rest else rest
  }

  /** Filtering works entry by entry: filtering a concatenation concatenates
      the filtered halves, so the kept entries stay in their order */
  lemma {:induction false} FilterAppend(a: seq<string>, b: seq<string>, ceiling: map<string, string>,
                                        floor: Option<map<string, string>>)
    ensures FilterPins(a + b, ceiling, floor) == FilterPins(a, ceiling, floor) + FilterPins(b, ceiling, floor)
    decreases |a|
  {
    if |a| > 0 {
      var ab := a + b;
      assert ab[0] == a[0];
      assert ab[1..] == a[1..] + b;
      FilterAppend(a[1..], b, ceiling, floor);
      var tail := FilterPins(a[1..], ceiling, floor);
      var fb := FilterPins(b, ceiling, floor);
      if AcceptPin(a[0], ceiling, floor) {
        assert FilterPins(ab, ceiling, floor) == [a[0]] + (tail + fb);
        assert [a[0]] + (tail + fb) == ([a[0]] + tail) + fb;
      } else {
        assert FilterPins(ab, ceiling, floor) == tail + fb;
      }
    } else {
      assert a + b == b;
    }
  }

  /** A list whose every entry is kept passes unchanged; in particular
      filtering twice is filtering once */
  lemma {:induction false} FilterKeepsAccepted(reqs: seq<string>, ceiling: map<string, string>,
                                               floor: Option<map<string, string>>)
    requires forall i :: 0 <= i < |reqs| ==> AcceptPin(reqs[i], ceiling, floor)
    ensures FilterPins(reqs, ceiling, floor) == reqs
    decreases |reqs|
  {
    if |reqs| > 0 {
      FilterKeepsAccepted(reqs[1..], ceiling, floor);
      assert [reqs[0]] + reqs[1..] == reqs;
    }
  }

  lemma FilterIdempotent(reqs: seq<string>, ceiling: map<string, string>, floor: Option<map<string, string>>)
    ensures var once := FilterPins(reqs, ceiling, floor);
      FilterPins(once, ceiling, floor) == once
  {
    var once := FilterPins(reqs, ceiling, floor);
    assert forall i :: 0 <= i < |once| ==> once[i] in once;
    FilterKeepsAccepted(once, ceiling, floor);
  }

  /** Python truthiness of a parsed value */
  predicate Truthy(j: Json) {
    match j
    case JNull => false
    case JBool(b) => b
    case JNumber(nonzero) => nonzero
    case JString(s) => |s| > 0
    case JArray(items) => |items| > 0
    case JObject(fields) => |fields| > 0
  }

  /** `plan.get("plausible")` is truthy */
  predicate IsPlausible(obj: JsonObject) {
    "plausible" in obj && Truthy(obj["plausible"])
  }

  /** `isinstance(plan.get("proposed_plan"), list)` */
  predicate HasPlanList(obj: JsonObject) {
    "proposed_plan" in obj && obj["proposed_plan"].JArray?
  }

  predicate AllStrings(items: seq<Json>) {
    forall i :: 0 <= i < |items| ==> items[i].JString?
  }

  function Texts(items: seq<Json>): (r: seq<string>)
    requires AllStrings(items)
    ensures |r| == |items| && forall i :: 0 <= i < |items| ==> items[i] == JString(r[i])
  {
    seq(|items|, i requires 0 <= i < |items| => items[i].s)
  }

  function Strings(xs: seq<string>): (r: seq<Json>)
    ensures |r| == |xs| && AllStrings(r) && Texts(r) == xs
  {
    seq(|xs|, i requires 0 <= i < |xs| => JString(xs[i]))
  }

  /** The answer when no proposed pin survives */
  const RejectedPlan: JsonObject := map["plausible" := JBool(false), "proposed_plan" := JArray([])]

  /** The proposed pins of a plan, when it has a list of strings */
  predicate HasPinList(obj: JsonObject) {
    HasPlanList(obj) && AllStrings(obj["proposed_plan"].items)
  }

  function Pins(obj: JsonObject): seq<string>
    requires HasPinList(obj)
  {
    Texts(obj["proposed_plan"].items)
  }

  /** What the validation keeps: the oracle's pins that the floor or ceiling admits */
  function KeptPins(obj: JsonObject, ceiling: map<string, string>, floor: Option<map<string, string>>): seq<string>
    requires HasPinList(obj)
  {
    FilterPins(Pins(obj), ceiling, floor)
  }

  /** The validation of a parsed reply. A non-string entry has no `split`:
      the `AttributeError` reaches the outer handler and the cycle yields
      nothing. */
  function ResolvePlan(obj: JsonObject, ceiling: map<string, string>, floor: Option<map<string, string>>): (r: Option<JsonObject>)
    ensures r.None? <==> !IsPlausible(obj) || !HasPinList(obj)
    ensures r.Some? ==> HasPinList(r.value)
    ensures r.Some? ==> forall p :: p in Pins(r.value) ==> p in Pins(obj) && AcceptPin(p, ceiling, floor)
    ensures r.Some? && |KeptPins(obj, ceiling, floor)| == 0 ==> r.value == RejectedPlan
    ensures r.Some? && |KeptPins(obj, ceiling, floor)| > 0 ==>
      && Pins(r.value) == KeptPins(obj, ceiling, floor)
      && r.value.Keys == obj.Keys
      && forall k :: k in obj && k != "proposed_plan" ==> r.value[k] == obj[k]
  {
    if !IsPlausible(obj) || !HasPlanList(obj) then None
    else if !AllStrings(obj["proposed_plan"].items) then None
    else
      var kept := KeptPins(obj, ceiling, floor);
      if |kept| == 0 then
        assert Pins(RejectedPlan) == [];
        Some(RejectedPlan)
      else Some(obj["proposed_plan" := JArray(Strings(kept))])
  }

  /** Validating an accepted plan again returns it unchanged */
  lemma ResolveIdempotent(obj: JsonObject, ceiling: map<string, string>, floor: Option<map<string, string>>)
    requires ResolvePlan(obj, ceiling, floor).Some?
    requires |KeptPins(obj, ceiling, floor)| > 0
    ensures var r := ResolvePlan(obj, ceiling, floor).value;
      ResolvePlan(r, ceiling, floor) == Some(r)
  {
    var r := ResolvePlan(obj, ceiling, floor).value;
    var kept := KeptPins(obj, ceiling, floor);
    assert Pins(r) == kept;
    FilterIdempotent(Pins(obj), ceiling, floor);
    assert r["plausible"] == obj["plausible"];
    assert r["proposed_plan" := JArray(Strings(kept))] == r;
  }

  /** The oracle's reply to the request of this cycle */
  function PlanReply(agent: Agent, target: string, log: string, ceiling: map<string, string>,
                     floor: Option<map<string, string>>, history: seq<Attempt>): Option<string>
  {
    agent.generate(PlanRequest(agent, target, log, ceiling, floor, history))
  }

  /** Every pin of a plan is admitted by the ceiling or the floor */
  predicate AllPinsAdmitted(plan: JsonObject, ceiling: map<string, string>, floor: Option<map<string, string>>)
    requires HasPinList(plan)
  {
    forall p :: p in Pins(plan) ==> AcceptPin(p, ceiling, floor)
  }

  /** `propose_co_resolution`: nothing without the language model, nothing
      when the reply cannot be read, and otherwise only pins that the floor
      or the ceiling holds */
  function ProposeCoResolution(agent: Agent, target: string, log: string, ceiling: map<string, string>,
                               floor: Option<map<string, string>>, history: seq<Attempt>): (r: Option<JsonObject>)
    ensures !agent.llmAvailable ==> r.None?
    ensures r.Some? ==> HasPinList(r.value) && AllPinsAdmitted(r.value, ceiling, floor)
    ensures r.Some? ==> var reply := PlanReply(agent, target, log, ceiling, floor, history);
      reply.Some? && FindBlock(reply.value).Some? && agent.loads(FindBlock(reply.value).value).Some?
  {
    if !agent.llmAvailable then None
    else
      var reply := PlanReply(agent, target, log, ceiling, floor, history);
      if reply.None? then None
      else
        var block := FindBlock(reply.value);
        if block.None? then None
        else
          var obj := agent.loads(block.value);
          if obj.None? then None
          else ResolvePlan(obj.value, ceiling, floor)
  }

  /** A reply without any `{` yields no plan */
  lemma NoBraceNoPlan(agent: Agent, target: string, log: string, ceiling: map<string, string>,
                      floor: Option<map<string, string>>, history: seq<Attempt>)
    requires PlanReply(agent, target, log, ceiling, floor, history).Some?
    requires '{' !in PlanReply(agent, target, log, ceiling, floor, history).value
    ensures ProposeCoResolution(agent, target, log, ceiling, floor, history).None?
  {
    NoBraceNoBlock(PlanReply(agent, target, log, ceiling, floor, history).value);
  }

  /** A reply holding a fenced JSON block is answered from that block */
  lemma FencedReplyPlan(agent: Agent, target: string, log: string, ceiling: map<string, string>,
                        floor: Option<map<string, string>>, history: seq<Attempt>,
                        pre: string, w1: string, b: string, w2: string, post: string)
    requires agent.llmAvailable
    requires PlanReply(agent, target, log, ceiling, floor, history) == Some(pre + JsonFence + w1 + b + w2 + Fence + post)
    requires forall i :: 0 <= i < |pre| ==> pre[i] != '`'
    requires AllSpaces(w1) && AllSpaces(w2)
    requires IsBlock(b) && forall i :: 0 <= i < |b| ==> b[i] != '`'
    ensures var r := ProposeCoResolution(agent, target, log, ceiling, floor, history);
      && (agent.loads(b).None? ==> r.None?)
      && (agent.loads(b).Some? ==> r == ResolvePlan(agent.loads(b).value, ceiling, floor))
  {
    FencedReplyRoundTrip(pre, w1, b, w2, post);
  }

  /** A reply that is a bare object between whitespace is answered from
      that object */
  lemma PlainReplyPlan(agent: Agent, target: string, log: string, ceiling: map<string, string>,
                       floor: Option<map<string, string>>, history: seq<Attempt>,
                       w1: string, b: string, w2: string)
    requires agent.llmAvailable
    requires PlanReply(agent, target, log, ceiling, floor, history) == Some(w1 + b + w2)
    requires AllSpaces(w1) && AllSpaces(w2)
    requires IsBlock(b) && forall i :: 0 <= i < |b| ==> b[i] != '`'
    ensures var r := ProposeCoResolution(agent, target, log, ceiling, floor, history);
      && (agent.loads(b).None? ==> r.None?)
      && (agent.loads(b).Some? ==> r == ResolvePlan(agent.loads(b).value, ceiling, floor))
  {
    PlainReplyRoundTrip(w1, b, w2);
  }

  /** A plan with the given pins that the oracle calls plausible */
  function PlausiblePlan(pins: seq<string>): (obj: JsonObject)
    ensures IsPlausible(obj) && HasPinList(obj) && Pins(obj) == pins
  {
    map["plausible" := JBool(true), "proposed_plan" := JArray(Strings(pins))]
  }

  /** A plan whose only pin is refused becomes the rejected plan */
  lemma LonePinRejected(pin: string, ceiling: map<string, string>, floor: Option<map<string, string>>)
    requires !AcceptPin(pin, ceiling, floor)
    ensures ResolvePlan(PlausiblePlan([pin]), ceiling, floor) == Some(RejectedPlan)
  {
    assert FilterPins([pin], ceiling, floor) == [];
  }

  /** A version that neither bound holds is dropped, whether or not the name
      matches, and a plan left empty is downgraded to not plausible */
  lemma UnknownVersionRejected()
    ensures ResolvePlan(PlausiblePlan(["pkgA==9.9"]), map["pkga" := "2.0"], Some(map["pkga" := "1.0"]))
         == Some(RejectedPlan)
    ensures ResolvePlan(PlausiblePlan(["pkga==9.9"]), map["pkga" := "2.0"], Some(map["pkga" := "1.0"]))
         == Some(RejectedPlan)
  {
    assert "pkgA" + PinSeparator + "9.9" == "pkgA==9.9";
    assert "pkga" + PinSeparator + "9.9" == "pkga==9.9";
    var ceiling := map["pkga" := "2.0"];
    var floor := Some(map["pkga" := "1.0"]);
    PinAcceptedIff("pkgA", "9.9", ceiling, floor);
    LonePinRejected("pkgA==9.9", ceiling, floor);
    PinAcceptedIff("pkga", "9.9", ceiling, floor);
    assert "9.9" != "2.0" && "9.9" != "1.0";
    LonePinRejected("pkga==9.9", ceiling, floor);
  }

  /** Names are compared as written: `pkgB==1.5` is not held by a floor
      keyed `pkgb` */
  lemma NamesMatchExactly()
    ensures ResolvePlan(PlausiblePlan(["pkgB==1.5"]), map[], Some(map["pkgb" := "1.5"])) == Some(RejectedPlan)
  {
    var ceiling: map<string, string> := map[];
    var floor := Some(map["pkgb" := "1.5"]);
    PinAcceptedIff("pkgB", "1.5", ceiling, floor);
    assert "pkgB" + PinSeparator + "1.5" == "pkgB==1.5";
    assert "pkgB" != "pkgb";
    assert FilterPins(["pkgB==1.5"], ceiling, floor) == [];
  }

  /** A pin the floor holds under the same name passes, and the plan comes
      back unchanged */
  lemma FloorPinAccepted()
    ensures ResolvePlan(PlausiblePlan(["pkgb==1.5"]), map[], Some(map["pkgb" := "1.5"]))
         == Some(PlausiblePlan(["pkgb==1.5"]))
  {
    var ceiling: map<string, string> := map[];
    var floor := Some(map["pkgb" := "1.5"]);
    PinAcceptedIff("pkgb", "1.5", ceiling, floor);
    assert "pkgb" + PinSeparator + "1.5" == "pkgb==1.5";
    assert FilterPins(["pkgb==1.5"], ceiling, floor) == ["pkgb==1.5"];
    var obj := PlausiblePlan(["pkgb==1.5"]);
    assert obj["proposed_plan" := JArray(Strings(["pkgb==1.5"]))] == obj;
  }

  /** An absent floor and an empty floor give the same cycle */
  lemma EmptyFloorIsNoFloor(agent: Agent, target: string, log: string, ceiling: map<string, string>,
                            history: seq<Attempt>)
    ensures ProposeCoResolution(agent, target, log, ceiling, None, history)
         == ProposeCoResolution(agent, target, log, ceiling, Some(map[]), history)
  {
    var none: Option<map<string, string>> := None;
    var empty: Option<map<string, string>> := Some(map[]);
    assert FloorText(agent, none) == FloorText(agent, empty);
    forall req
      ensures AcceptPin(req, ceiling, none) == AcceptPin(req, ceiling, empty)
    {
    }
    forall obj: JsonObject
      ensures ResolvePlan(obj, ceiling, none) == ResolvePlan(obj, ceiling, empty)
    {
      if HasPinList(obj) {
        FilterSameAcceptance(Pins(obj), ceiling, none, empty);
      }
    }
    assert PlanReply(agent, target, log, ceiling, none, history)
        == PlanReply(agent, target, log, ceiling, empty, history);
  }

  /** Two floors that accept the same requirements filter alike */
  lemma {:induction false} FilterSameAcceptance(reqs: seq<string>, ceiling: map<string, string>,
                                                f1: Option<map<string, string>>, f2: Option<map<string, string>>)
    requires forall req :: AcceptPin(req, ceiling, f1) == AcceptPin(req, ceiling, f2)
    ensures FilterPins(reqs, ceiling, f1) == FilterPins(reqs, ceiling, f2)
    decreases |reqs|
  {
    if |reqs| > 0 {
      FilterSameAcceptance(reqs[1..], ceiling, f1, f2);
    }
  }
}
