# Autodidactic learner, modelled in Dafny

The autodidactic tool demonstrates concept learning over `N` boolean
features. Its core is the `AutodidacticLearner`: it starts from the most
general hypothesis, the set of all `2N` literals `x1, ¬x1, …, xN, ¬xN`, and
each positive example eliminates the literals it falsifies. A `'1'` at
position `i` eliminates `¬x(i+1)` and a `'0'` eliminates `x(i+1)`. The
repository holds two versions of the learner, and both are modelled:

* `backend/app.py` (module `App`) is the deployed version. Before it does
  anything, it resolves every character other than `'0'`/`'1'` according to
  the label: under `"1"` such characters become `'1'`, under `"0"` they
  become `'0'`. Every call appends exactly one line of text to a log.
  `get_hypothesis` lists the survivors as `x1, ¬x1, x2, ¬x2, …`.
* `backend/autodidactic_model.py` (module `Early`) is the earlier version. It
  eliminates on the raw example, so a `'?'` eliminates nothing. It keeps no
  log, and `get_hypothesis` lists the survivors in Python's sorted string
  order.

Files:

* `text.dfy` (`Text`): decimal rendering of numbers; Python's string order
  (lexicographic by code point, a proper prefix first); `sorted` on a set of
  strings; `str.join`.
* `literals.dfy` (`Literals`): the `Literal` value type (`Lit(index,
  positive)`), its rendering `x<i>` / `¬x<i>` (U+00AC), the universe of `n`
  features, and `Falsified(s)`, the literals a positive example `s`
  falsifies.
* `app.dfy` (`App`): resolution, one refinement step, the structured log
  entry with its exact text, sessions of calls since a reset, the ordered
  listing, and the learner class (`Reset`, `RefineHypothesis`,
  `GetHypothesis`, `GetLog`).
* `early.dfy` (`Early`): the earlier step and its learner class.
* `variants.dfy` (`Variants`): how the two versions relate.

Both classes keep the hypothesis as a `set<Literal>` field, which the methods
update in loops as the Python code does. The Python sets hold strings such as
`"¬x3"`. `Literals.RenderInjective` shows that naming is one-to-one, so a set
of literals carries the same information. The deployed log is a `seq<string>`
field that holds the exact text of each line. A ghost field `calls` records
the calls since the last reset. The class invariant `Valid()` says that the
hypothesis and the log are exactly what those calls produce from the full
universe (`App.Replay`, `App.ReplayLog`).

On positive `"10?"` over three features, `backend/autodidactic_model.py`
removes only `{¬x1, x2}`. `backend/app.py` first resolves the `'?'` to `'1'`
and so also removes `¬x3`. `Variants.PositiveWithUnknown` proves both results.

## Model

| member | source | states |
|---|---|---|
| Text.NatToStringInjective | backend/app.py:17-18 | different feature numbers get different decimal names, as the f-strings `x{i+1}` produce them |
| Text.SortedStrings | backend/autodidactic_model.py:22 | Python's `sorted` of a set of strings: strictly ascending in code-point order, exactly the members, one entry per member |
| Text.SortedStringsUnique | backend/app.py:49 | any strictly ascending list of exactly the members of a set is the sorted list, so the sorted rendering of `removed` is determined by the set |
| Literals.RenderInjective | backend/app.py:17-18 | two literals with the same name `x<i>` / `¬x<i>` are the same literal |
| Literals.RenderSetSize | backend/autodidactic_model.py:22 | the set of names of a hypothesis has as many elements as the hypothesis |
| Literals.Universe | backend/app.py:16-18 | the universe holds exactly the literals of both polarities with index from 1 to `n` |
| Literals.UniverseSize | backend/app.py:16-18 | the universe of `n` features has exactly `2n` literals |
| Literals.UniverseSnoc | backend/app.py:16-18 | round `i` of the reset loop adds `x<i+1>` and `¬x<i+1>`, which were not yet present |
| Literals.Falsified | backend/app.py:39-47 | a literal is falsified iff its position holds `'0'` (for `x<i>`) or `'1'` (for `¬x<i>`); positions past the end and other characters falsify nothing |
| Literals.FalsifiedSnoc | backend/app.py:39-47 | one more iteration of the elimination loop eliminates exactly what its character falsifies |
| App.Fill | backend/app.py:23 | the comprehension keeps the length, keeps every `'0'`/`'1'` and replaces every other character by the fill character |
| App.ResolveSpec | backend/app.py:22-27 | resolution keeps the length; under `"1"` or `"0"` every non-bit becomes that label's bit and bits are kept; any other label keeps the example verbatim |
| App.ResolveKeepsBits | backend/app.py:22-27 | an example made only of `'0'`/`'1'` resolves to itself under every label |
| App.ResolveIdempotent | backend/app.py:22-27 | resolving a resolved example again changes nothing |
| App.StepEffect | backend/app.py:31-47 | any label other than `"1"` leaves the hypothesis unchanged; `"1"` keeps exactly the members not falsified by the resolved example; the hypothesis never grows |
| App.RemovedIsDifference | backend/app.py:38-47 | the `removed` set a positive entry records is the old hypothesis minus the new one |
| App.StepIdempotent | backend/app.py:37-47 | refining twice with the same example and label gives the hypothesis that refining once gives |
| App.StepIgnoresExtraPositions | backend/app.py:39-47 | for a hypothesis inside the universe of `n` features, example positions from `n` on change nothing |
| App.NoChangeText | backend/app.py:48-51 | a log line ends with "Positive; no change." iff it records a positive call whose `removed` set is empty |
| App.ReplaySnoc | backend/app.py:20-55 | one more call takes one more step and appends its entry to the session log |
| App.ReplayIsElimination | backend/app.py:37-47 | after any session, the hypothesis is the start minus every literal that some positive example (after resolution) falsified, whatever the order of the calls |
| App.ReplayShrinks | backend/app.py:37-47 | later calls never grow the hypothesis, and its size does not increase |
| App.ReplayLog | backend/app.py:55 | a session of `k` calls records exactly `k` entries, whatever the labels |
| App.ReplayLogStable | backend/app.py:55 | later calls never change earlier entries of the log |
| App.OrderedMembers | backend/app.py:57-65 | the listing holds exactly the members of the hypothesis with index from 1 to `n` |
| App.OrderedAscending | backend/app.py:57-65 | the listing is strictly ascending in the order `x1, ¬x1, x2, ¬x2, …` |
| App.Listing | backend/app.py:57-65 | for a hypothesis inside the universe, the rendered listing names every member exactly once and nothing else, so it has one entry per member and at most `2n` entries |
| App.AutodidacticLearner.constructor | backend/app.py:9-11 | a new learner has the full universe, an empty log and no calls since reset |
| App.AutodidacticLearner.Reset | backend/app.py:13-18 | reset restores the full universe and clears the log, keeping the feature count |
| App.AutodidacticLearner.RefineHypothesis | backend/app.py:20-55 | one call takes one `Step`, keeps the hypothesis inside the universe, appends exactly one log line (the text of `EntryFor`) and keeps the invariant |
| App.AutodidacticLearner.EliminateFalsified | backend/app.py:38-47 | the positive-label loop removes from the hypothesis exactly the members the resolved example falsifies and returns that set as `removed`; the log is untouched |
| App.AutodidacticLearner.GetHypothesis | backend/app.py:57-65 | the loop returns the names of the ordered listing of the hypothesis |
| App.AutodidacticLearner.GetLog | backend/app.py:67-68 | the log has one line per call since the last reset, the text of that call's entry, in call order |
| Early.StepEffect | backend/autodidactic_model.py:12-19 | label `"1"` removes `¬x(i+1)` where the raw example has `'1'` and `x(i+1)` where it has `'0'`, and nothing else; any other label, `"0"` included, changes nothing |
| Early.UnknownRemovesNothing | backend/autodidactic_model.py:13-17 | a position holding anything but `'0'`/`'1'` removes neither literal of its feature |
| Early.StepShrinks | backend/autodidactic_model.py:13-17 | the hypothesis never grows (discarding an absent literal does nothing) and stays inside the universe |
| Early.StepIdempotent | backend/autodidactic_model.py:12-17 | refining twice with the same example gives the hypothesis that refining once gives |
| Early.AutodidacticLearner.constructor | backend/autodidactic_model.py:2-7 | a new learner holds the full universe of `2n` literals |
| Early.AutodidacticLearner.RefineHypothesis | backend/autodidactic_model.py:9-19 | the discard loop takes exactly one `Early.Step` and keeps the hypothesis inside the universe |
| Early.AutodidacticLearner.GetHypothesis | backend/autodidactic_model.py:21-22 | the listing is strictly ascending in string order and names every member exactly once |
| Variants.AgreeOnBinaryExamples | backend/autodidactic_model.py:12-17 | on examples of only `'0'`/`'1'`, this version and the deployed one (backend/app.py lines 22-47) take the same step for every label |
| Variants.DeployedRemovesUnknownNegations | backend/app.py:22-23 | the deployed step removes everything the earlier one removes and, in addition, exactly the `¬x(i+1)` whose position holds an unknown character |
| Variants.PositiveWithUnknown | backend/app.py:37-47 | positive `"10?"` on three features leaves `{x1, ¬x2, x3}` in the deployed version and `{x1, ¬x2, x3, ¬x3}` in the earlier one |
| Variants.PositiveWithUnknownLogLine | backend/app.py:29-49 | the line that deployed call logs reads `Example: 101:1`, the separator, then `Positive; eliminated: x2, ¬x1, ¬x3`: the names in Python's string order |
| Variants.SameNamesListed | backend/autodidactic_model.py:21-22 | both versions list the same names for the same hypothesis, each the same number of times (equal multisets), so only the order differs |

## Left out

- The Flask application, CORS, the routes `/`, `/submit_example` and `/reset`, JSON marshalling and `app.run` (backend/app.py lines 1-2, 74-109): transport code around the learner.
- The module-level `learner` singleton and any locking: the model is one sequential learner object.
- The front end (frontend/app.js): DOM, `fetch` and chart code.
- Scoring a guess against the hypothesis: no file of the repository implements it.
- Labels and examples that are not strings (JSON can deliver numbers or `null`): both are modelled as strings.
- App.AutodidacticLearner.GetLog: Python returns the log list itself, so a caller could mutate it; the model returns the value.
- Early.AutodidacticLearner.RefineHypothesis: the unused `previous_hypothesis` copy (line 10) and the rebinding of the local `example` in the `'0'` branch (line 19) have no observable effect and are not modelled.
- Python compares strings by code point; Dafny compares `char` by Unicode scalar value. The two agree on the names the learner produces.
- The feature count is a `const`: neither version ever reassigns `num_features`.
