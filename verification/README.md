# Expert agent: conflict diagnosis and co-resolution planning

This project is a Dafny model of `ExpertAgent`, the dependency-repair agent in
`expert_agent.py`. The model covers four parts:

- **Conflict extractor.** `diagnose_conflict_from_log` and
  `_is_valid_package_name` take a free-form install log and report the
  package names it mentions. There are three name-then-version pattern
  families (`pkg==1.0`, `pkg 1.0`, `pkg (1.0)`) and two contextual phrases
  (`conflict between a, b and c`, `requirement x`).
- **Constraint-line compressor.** `_extract_key_constraints` collects up to
  fifteen distinct lines of five sentence shapes. `summarize_error` builds its
  context from them, or from the head of the log when none are found.
- **Reply post-processing.** `_clean_json_response` strips the reply and
  removes its Markdown fences. The block search picks the JSON object out of
  the oracle's reply: a ```` ```json ```` fenced block wins, and otherwise the
  text from the first `{` to the last `}` of the cleaned reply is used.
- **Plan validator.** `propose_co_resolution` numbers the failed attempts in a
  "do not repeat" transcript. It keeps only the `name==version` pins that the
  ceiling (`available_updates`) or the floor (`current_versions`) holds
  exactly. It answers `None`, the rejected plan
  `{plausible: False, proposed_plan: []}`, or the parsed plan with its pin
  list filtered.

Every regular expression is a hand-written scanner over `seq<char>` that
follows `re.finditer`/`re.search`. It tries each position from left to right
and resumes after a match, so greedy and lazy quantifiers are resolved the way
Python's engine resolves them for these patterns.

The language model, `json.loads` and `json.dumps` are parameters of the
`Oracle.Agent` datatype. The model call and `json.loads` run inside the
`try` of `propose_co_resolution` (expert_agent.py:157-188), so an exception
from either becomes the answer `None`; the model's `generate` and `loads`
return `None` for it. `json.dumps` runs before the `try`
(expert_agent.py:109-110) and is a total function: on the string-to-string
maps the model passes it cannot raise, and an exception it raised would
escape the method rather than become `None`.

Modules:

| module | file | contents |
|---|---|---|
| `Wrappers` | wrappers.dfy | `Option` |
| `Text` | text.dfy | Python's `str.strip`, `lower`, `split`, `join`, `find`, and the decimal rendering of `{i+1}` |
| `Oracle` | oracle.dfy | parsed JSON values, prompts, the agent's collaborators |
| `Diagnosis` | diagnosis.dfy | the conflict extractor |
| `KeyConstraints` | key_constraints.dfy | the constraint-line compressor and the summary |
| `Reply` | reply.dfy | reply cleaning and block search |
| `Planner` | planner.dfy | history transcript, pin filter, plan outcomes, one planning cycle |

## Model

| member | source | states |
|---|---|---|
| Diagnosis.DiagnoseConflict | expert_agent.py:56-94 | every reported name is lower-case, made of `[a-z0-9_-]`, longer than one character, not one of the fifteen noise words, and never `"-"` |
| Diagnosis.HyphenRemovalRedundant | expert_agent.py:88 | the explicit removal of `"-"` never changes the answer, because the length test already rejects it |
| Diagnosis.ScanFamily | expert_agent.py:69-72 | each name-then-version family only yields lower-cased valid names made of name characters |
| Diagnosis.ScanFamilySound | expert_agent.py:63-72 | every name a family reports is the lower-cased name run at some position at or after where the scan began, running to the end of the name characters, and the family's tail follows that run |
| Diagnosis.DottedNumberEnd | expert_agent.py:65-67 | `\d+(?:\.\d+)+` matches exactly when digits, a dot and a digit follow; the match holds only digits and dots, every dot in it is followed by a digit inside it, it ends on a digit, and is maximal: neither a digit nor a dot-and-digit follows it |
| Diagnosis.DottedNumberEndSound | expert_agent.py:65-67 | a dotted number found at a position starts with a digit, holds only digits and dots with at least one dot, has a digit after every dot, and is maximal |
| Diagnosis.DottedNumberEndAt | expert_agent.py:65-67 | conversely, any span of that shape is exactly the dotted number found there: the shape fixes where the greedy match ends |
| Diagnosis.TailEndMeaning | expert_agent.py:63 | the operator family's tail matches right after a name exactly when `==`, `>=`, `<=`, `~=`, `!=`, `<` or `>` follows there |
| Diagnosis.LooseTailSound | expert_agent.py:65 | when the loose family's tail matches after a name, at least one whitespace character and then a dotted number follow, and the match ends with the number |
| Diagnosis.LooseTailAt | expert_agent.py:65 | conversely, whitespace and a dotted number after a name make the loose tail match, ending where the number ends |
| Diagnosis.ParenTailSound | expert_agent.py:67 | when the parenthesis family's tail matches after a name, optional whitespace, `(`, a dotted number and `)` follow, and the match ends after the `)` |
| Diagnosis.ParenTailAt | expert_agent.py:67 | conversely, optional whitespace, `(`, a dotted number and `)` after a name make the parenthesis tail match, ending after the `)` |
| Diagnosis.ScanPhrase | expert_agent.py:79-86 | the contextual phrases only yield lower-cased valid names; their captured lists are split on commas and whitespace |
| Diagnosis.SplitOnSeparators | expert_agent.py:82 | splitting on `[,\s]+` yields at least one token; no token holds a comma or whitespace; only the first and last token can be empty; an empty text is one empty token; a captured list yields tokens of name characters only |
| Diagnosis.SplitInterleave | expert_agent.py:82 | pieces joined by non-empty runs of commas and whitespace split back into exactly those pieces, when only the first and last piece may be empty |
| Diagnosis.PhraseMatch | expert_agent.py:76-77 | a match captures a non-empty span after the keyword that starts with a name character and holds only name characters, commas and whitespace; a conflict list starts where the keyword, the alternation and whitespace end, and runs up to the first position where the list cannot go on; a requirement group follows "requirement" and whitespace and is the whole name run there |
| Diagnosis.ListEnd | expert_agent.py:76 | the repeated group of names and separators runs over name characters, whitespace, and commas that directly follow a name character, and stops at the first character that cannot go on |
| Diagnosis.ListEndAt | expert_agent.py:76 | a list over which the group can go on, and which stops where it cannot, is the span the group captures |
| Diagnosis.QuoteStripRedundant | expert_agent.py:76-84 | the quote strip of a captured token never changes it: a captured list holds no quote |
| Diagnosis.ListQuoteFree | expert_agent.py:82-84 | every piece of a text of name characters, commas and whitespace is left alone by the quote strip |
| Diagnosis.KeywordThenSpaceSound | expert_agent.py:76 | when the keyword alternation matches, one of its keywords occurs there in any case, whitespace follows, and the match ends where that whitespace ends |
| Diagnosis.KeywordThenSpaceAt | expert_agent.py:76 | the first keyword of the alternation that occurs in any case and is followed by whitespace matches, up to the end of that whitespace |
| Diagnosis.ConflictListStartSound | expert_agent.py:76 | a conflict list starts only after a case-insensitive "conflict", an optional "s", whitespace, one of "between", "among", "with" or "in", and whitespace, at the first character after that whitespace |
| Diagnosis.ConflictListStartAt | expert_agent.py:76 | conversely, every such lead puts the list start at the end of its whitespace |
| Diagnosis.ConflictMatchAt | expert_agent.py:76 | such a lead followed by a name character matches, and the group is the whole list up to where it cannot go on |
| Diagnosis.RequirementMatchAt | expert_agent.py:77 | "requirement", whitespace and a whole name run match, and the group is that run |
| Diagnosis.PhraseMatchMeaning | expert_agent.py:75-78 | the conflict phrase matches exactly when its list would start at a name character; the requirement phrase always matches after "requirement", whitespace and a name character |
| Diagnosis.RequirementNameReported | expert_agent.py:77-86 | a case-insensitive "requirement" anywhere in the log, followed by whitespace and a whole name run, reports that name lower-cased unless it is noise, whenever no earlier requirement match runs past it |
| Diagnosis.RequirementReachedFrom | expert_agent.py:77-86 | the requirement scan from any earlier position reaches such a match, because every match in between ends at or before it, and reports its name |
| Diagnosis.ConflictNamesReported | expert_agent.py:76-86 | at every case-insensitive "conflict" of the log that leads a conflict list, every whole name of that list is reported lower-cased unless it is noise |
| Diagnosis.ConflictReachedFrom | expert_agent.py:76-86 | the conflict scan from any earlier position either reaches such a lead or meets an earlier match whose list runs into it, and in both cases reports every whole name of the lead's list |
| Diagnosis.SwallowedListListed | expert_agent.py:76-86 | an earlier conflict match whose list runs past a later "conflict" has swallowed that phrase: its list ends where the later list ends and holds every whole name of it |
| Diagnosis.SplitHasRun | expert_agent.py:82 | a maximal run without commas or whitespace, between separators or the text's ends, is one of the pieces of the split |
| Diagnosis.NameRunListed | expert_agent.py:82-86 | a whole valid name between separators of a captured list is among the names taken from it |
| Diagnosis.DiagnosedNamesOccur | expert_agent.py:56-89 | every reported name occurs in the lower-cased log: the extractor invents no name |
| Diagnosis.OperatorFamilyComplete | expert_agent.py:63-72 | every maximal name run directly followed by `==`, `>=`, `<=`, `~=`, `!=`, `<` or `>` is reported lower-cased unless it is noise |
| Diagnosis.LooseFamilyComplete | expert_agent.py:65-72 | every maximal name run not starting with a digit and followed by whitespace and a dotted number (digits, then groups of a dot and digits) is reported unless it is noise |
| Diagnosis.ParenFamilyComplete | expert_agent.py:67-72 | every maximal name run not starting with a digit and followed by optional whitespace, `(`, a dotted number (digits, then groups of a dot and digits) and `)` is reported unless it is noise |
| Diagnosis.OperatorPinReported | expert_agent.py:63-72 | any log containing `name<op>`, with the name not glued to a preceding name character, reports the lower-cased name |
| Diagnosis.OperatorExample | expert_agent.py:48 | the log `pkgA==1.2 requires pkgB<2.0` reports both `pkga` and `pkgb` |
| KeyConstraints.ScanShapeKeyLines | expert_agent.py:33-35 | every entry a shape's scan collects is a stripped, non-empty, single-line group of that shape |
| KeyConstraints.StripGroup | expert_agent.py:35 | stripping a matched group only drops trailing whitespace, so the entry keeps its shape |
| KeyConstraints.ScanShapeSound | expert_agent.py:34-35 | every entry of a shape's scan is the stripped group of a match at a line start at or after where the scan began |
| KeyConstraints.ScanShapeComplete | expert_agent.py:34-35 | every match at a line start at or after where the scan began has its stripped group among the scan's entries, including a match the scan steps over |
| KeyConstraints.CandidatesComplete | expert_agent.py:33-35 | every match of any of the five shapes anywhere in the log has its stripped group among the collected lines |
| KeyConstraints.CandidateOrigin | expert_agent.py:33-35 | every collected line is the stripped group of a match in the log, and a piece of the log's text |
| KeyConstraints.ExtractedFromLog | expert_agent.py:24-36 | every returned line is the stripped group of a match in the log, and a piece of the log's text |
| KeyConstraints.FewMatchesAllKept | expert_agent.py:33-36 | when at most fifteen distinct lines are collected, every match's stripped group is returned |
| KeyConstraints.ScanShapeNonEmpty | expert_agent.py:34 | a scan from `q` finds something exactly when a line matching the shape starts at or after `q` |
| KeyConstraints.TakeDistinct | expert_agent.py:36 | `list(set(xs))[:n]` keeps `min(n, number of distinct values)` distinct elements of `xs`, none only when `xs` is empty, and all of them when there are at most `n` |
| KeyConstraints.ExtractKeyConstraints | expert_agent.py:24-36 | at most fifteen entries, no duplicates, each collected by a pattern and each a stripped single line of one of the five shapes; when at most fifteen distinct lines are collected, exactly those lines |
| KeyConstraints.KeyConstraintsFoundIff | expert_agent.py:24-36 | some constraint is found exactly when some line of the log matches one of the five shapes |
| KeyConstraints.SummaryContext | expert_agent.py:42-43 | the context splits on newlines back into the key constraints, or when there are none is the first `min(2500, length)` characters of the log |
| KeyConstraints.ReplaceNewlines | expert_agent.py:52 | `.replace('\n', ' ')` keeps the length, turns every newline into a space, keeps every other character, and leaves no newline |
| KeyConstraints.SummarizeError | expert_agent.py:38-54 | the summary is one stripped line: the fixed unavailable text, the fixed failure text, or, character by character, the stripped reply with each newline turned into a space and every other character kept |
| Text.SplitOn | expert_agent.py:174 | `str.split` pieces join back to the input; none contains the separator; each cut is at the leftmost occurrence, so no occurrence starts inside a piece and runs into the cut |
| Text.SplitJoinChar | expert_agent.py:43 | splitting the newline-joined constraints on newline gives them back when none contains a newline |
| Text.DecimalRoundTrip | expert_agent.py:116 | the decimal rendering of an attempt number reads back as that number |
| Reply.RemoveOpeningFence | expert_agent.py:20 | the result is a suffix, shorter only when the text opens with three backticks, letters and a newline that were cut |
| Reply.RemoveClosingFence | expert_agent.py:21 | a final newline-and-fence is cut, also when one newline follows it; a text not ending in a newline loses at most a tail; a text where neither cut applies comes back unchanged |
| Reply.CleanJsonResponse | expert_agent.py:16-22 | the cleaned text is stripped, is a contiguous part of the reply, and is exactly the stripped reply when that does not open with a fence |
| Reply.CleanFencedRoundTrip | expert_agent.py:16-22 | a stripped body wrapped in an opening fence with a language tag and a closing fence, between any whitespace, is cleaned back to the body |
| Reply.LazyCloseFirst | expert_agent.py:162 | the lazy `\}.*?` stops at the first `}` that whitespace and a fence follow |
| Reply.FencedFromLeftmost | expert_agent.py:162 | `re.search` reports the leftmost position where the fenced pattern matches |
| Reply.FencedFromNone | expert_agent.py:162 | when the search fails, the fenced pattern matches at no position |
| Reply.BraceBounds | expert_agent.py:164 | the greedy `\{.*\}` spans the first `{` to the last `}` and exists exactly when a `{` precedes a `}` |
| Reply.FindBlock | expert_agent.py:159-166 | the block is brace-delimited and part of the reply; the fenced block wins; nothing is found exactly when there is neither a fenced block nor a brace pair in the cleaned reply |
| Reply.NoBraceNoBlock | expert_agent.py:162-166 | a reply without `{` yields no block |
| Reply.FencedReplyRoundTrip | expert_agent.py:162-166 | a block in a json fence, after text without backticks, is the block found whatever follows the fence |
| Reply.PlainReplyRoundTrip | expert_agent.py:163-166 | a bare block between whitespace is the block found |
| Planner.HistoryExtends | expert_agent.py:112-116 | appending an attempt appends its entry, numbered one past the earlier attempts, to the transcript, after the header when it is the first |
| Planner.HistoryPrefix | expert_agent.py:112-116 | a later transcript starts with every earlier one |
| Planner.HistoryOpensWithHeader | expert_agent.py:113-114 | a non-empty transcript opens with the "do not repeat" heading |
| Planner.AttemptListed | expert_agent.py:115-116 | attempt `i` of the history appears in the transcript under number `i + 1` |
| Planner.NextRequestRecordsAttempt | expert_agent.py:112-116 | the request after a rejected attempt keeps the previous transcript, is strictly longer, and lists the attempt |
| Planner.FloorText | expert_agent.py:109 | the floor is shown as `{}` when absent or empty, otherwise as its `json.dumps` |
| Planner.AcceptedPinShape | expert_agent.py:174-180 | a kept requirement is `pkg==ver` with neither half holding `==`, and the ceiling or the floor holds `ver` under `pkg` |
| Planner.PinAcceptedIff | expert_agent.py:174-180 | for names and versions without `=`, `pkg==ver` is kept exactly when the ceiling or the floor holds that version under that exact name |
| Planner.UnpinnedSkipped | expert_agent.py:173-181 | a requirement without `==` is skipped |
| Planner.FilterPins | expert_agent.py:171-181 | a requirement is kept exactly when it is proposed and accepted; nothing is added |
| Planner.FilterAppend | expert_agent.py:172-180 | filtering works entry by entry, so the kept pins are an order-preserving selection of the proposed ones |
| Planner.FilterIdempotent | expert_agent.py:171-181 | filtering the kept pins again keeps all of them |
| Planner.ResolvePlan | expert_agent.py:170-186 | `None` exactly when `plausible` is falsy or `proposed_plan` is not a list of strings; the rejected plan when nothing survives; otherwise the same keys and values with the pin list replaced by the kept pins |
| Planner.ResolveIdempotent | expert_agent.py:170-185 | validating an accepted plan again returns it unchanged |
| Planner.ProposeCoResolution | expert_agent.py:107-188 | nothing without the language model or a readable block; a returned plan holds only pins the floor or the ceiling holds |
| Planner.NoBraceNoPlan | expert_agent.py:162-166 | a reply without `{` yields no plan |
| Planner.FencedReplyPlan | expert_agent.py:157-170 | a reply with a fenced JSON block is answered from that block alone |
| Planner.PlainReplyPlan | expert_agent.py:157-170 | a reply that is a bare block between whitespace, without backticks, is answered from that block alone |
| Planner.UnknownVersionRejected | expert_agent.py:178-183 | `pkgA==9.9` and `pkga==9.9` against a ceiling `pkga: 2.0` and a floor `pkga: 1.0` are dropped, the second for its version alone, and the plan becomes the rejected plan |
| Planner.LonePinRejected | expert_agent.py:172-183 | a plan whose only pin is refused becomes the rejected plan |
| Planner.NamesMatchExactly | expert_agent.py:178-179 | `pkgB==1.5` is not held by a floor keyed `pkgb`: names are compared as written |
| Planner.FloorPinAccepted | expert_agent.py:178-185 | `pkgb==1.5` held by the floor passes, and the plan comes back unchanged |
| Planner.EmptyFloorIsNoFloor | expert_agent.py:179 | an absent floor and an empty floor give the same answer |

Pin names are compared with the ceiling and floor keys exactly as written
(expert_agent.py:178-179). Nothing lower-cases them, so the pin `pkgB==1.5`
against a floor keyed `pkgb` is dropped (`Planner.NamesMatchExactly`), while
`pkgb==1.5` passes (`Planner.FloorPinAccepted`).

## Left out

- The language model (`generate_content`, `.text`) is the parameter `Agent.generate`. A raised exception, including `ResourceExhausted`, is its `None`.
- `json.loads` is the parameter `Agent.loads`, and `None` stands for a raised error. For a block that starts with `{` and ends with `}`, it can only return an object. `json.dumps` is the parameter `Agent.dumps`.
- Parsed objects are maps. The key order of the returned plan, which Python's dict keeps, is not modelled.
- `response.text` is read twice, once for cleaning and once for the fenced search. The model reads one reply for both.
- JSON numbers are kept only as zero or non-zero, which is all that the truthiness test of `plausible` looks at.
- The fixed wording of both prompts is not modelled. Each prompt is a datatype of the fields it embeds: the context, or the target, floor, ceiling, log and transcript.
- The history entries are pairs of strings, the plan already rendered as `str()` would render it. An entry that is not a pair raises before the `try` and is not modelled. A missing `history` is the empty sequence.
- The ceiling is a non-null map from strings to strings, as the signature demands. A `None` ceiling, or non-string versions, are not modelled.
- Python's set order: `list(set(...))` in both the extractor and the compressor has no fixed order. The extractor returns a set. The compressor keeps first occurrences, and its contracts say nothing that depends on the order.
- `str.lower`, `IGNORECASE` and `\d` are modelled for ASCII only. `\s` and `str.strip` use Python's 29 whitespace code points.
- `Diagnosis.LooseFamilyComplete`: stated only for names that do not begin with a digit. A digit-led run may lie inside the version of an earlier match, which `finditer` skips.
- `Diagnosis.ParenFamilyComplete`: stated only for names that do not begin with a digit, for the same reason.
- `Diagnosis.RequirementNameReported`: requires that no earlier requirement match runs past the "requirement" at hand. In `requirement x-requirement foo` the first match takes the whole run `x-requirement`, so the second "requirement" is skipped and `foo` is not reported; the source behaves the same way. Conflict completeness (`Diagnosis.ConflictNamesReported`) needs no such condition, because a conflict list that runs into a later lead takes that lead's whole list.
- `Diagnosis.OperatorExample`: states that both names are reported, not that no other name is. `Diagnosis.DiagnosedNamesOccur` bounds the rest to names that occur in the log.
- `dependency_agent.py`, `word.py` and `validation_cyclegan.py` are not part of this model. They are configuration, document generation and a framework smoke test, and hold none of the agent's logic.
