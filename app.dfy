/** The deployed learner (backend/app.py): a most-general-first
    literal-elimination learner that resolves unknown characters according to
    the label and keeps a text log with one line per refinement call. */
module App {
  import opened Text
  import opened Literals

  /** `c if c in '01' else fill` for every character of `s`. */
  function Fill(s: string, fill: char): (r: string)
    ensures |r| == |s|
    ensures forall i :: 0 <= i < |s| ==> r[i] == if IsBit(s[i]) then s[i] else fill
    decreases |s|
  {
    if s == [] then [] else [if IsBit(s[0]) then s[0] else fill] + Fill(s[1..], fill)
  }

  /** The example as the learner records and uses it: under label `"1"`
      every non-bit becomes `'1'`, under `"0"` it becomes `'0'`, and for
      any other label the example is kept verbatim. */
  function Resolve(example: string, lbl: string): string
  {
    if lbl == "1" then Fill(example, '1')
    else if lbl == "0" then Fill(example, '0')
    else example
  }

  /** The hypothesis after one `refine_hypothesis` call. */
  function Step(h: set<Literal>, example: string, lbl: string): set<Literal>
  {
    if lbl == "1" then h - Falsified(Resolve(example, lbl)) else h
  }

  /** What a call did, by label; a positive call records the literals it removed. */
  datatype Effect = NoLabel | Unlabeled | Negative | Positive(removed: set<Literal>) | InvalidLabel

  /** One log line, kept structured: the resolved example, the label and the effect. */
  datatype LogEntry = LogEntry(example: string, lbl: string, effect: Effect)

  /** The entry one `refine_hypothesis(example, label)` call on hypothesis `h` records. */
  function EntryFor(h: set<Literal>, example: string, lbl: string): LogEntry
  {
    var resolved := Resolve(example, lbl);
    var effect :=
      if lbl == "" then NoLabel
      else if lbl == "?" then Unlabeled
      else if lbl == "0" then Negative
      else if lbl == "1" then Positive(h * Falsified(resolved))
      else InvalidLabel;
    LogEntry(resolved, lbl, effect)
  }

  function EffectText(e: Effect): string
  {
    match e
    case NoLabel => "No label; ignored."
    case Unlabeled => "Unlabeled example; ignored."
    case Negative => "Negative example; unchanged."
    case Positive(removed) =>
      if removed != {} then "Positive; eliminated: " + Join(SortedStrings(RenderSet(removed)), ", ")
      else "Positive; no change."
    case InvalidLabel => "Invalid label; ignored."
  }

  /** The log line exactly as `refine_hypothesis` formats it. */
  function EntryText(e: LogEntry): string
  {
    "Example: " + e.example + ":" + e.lbl + " | " + EffectText(e.effect)
  }

  function Texts(es: seq<LogEntry>): seq<string>
  {
    seq(|es|, i requires 0 <= i < |es| => EntryText(es[i]))
  }

  // ---------------------------------------------------------------------
  // Resolution
  // ---------------------------------------------------------------------

  /** Resolution keeps the length; under `"1"`/`"0"` every non-bit becomes
      the label's bit and bits stay; any other label keeps the example. */
  lemma ResolveSpec(example: string, lbl: string)
    ensures var r := Resolve(example, lbl);
      && |r| == |example|
      && (lbl == "1" || lbl == "0" ==>
            forall i :: 0 <= i < |r| ==>
              IsBit(r[i]) && r[i] == (if IsBit(example[i]) then example[i] else lbl[0]))
      && (lbl != "1" && lbl != "0" ==> r == example)
  {
  }

  /** An example that is already all bits is resolved to itself. */
  lemma ResolveKeepsBits(example: string, lbl: string)
    requires forall i :: 0 <= i < |example| ==> IsBit(example[i])
    ensures Resolve(example, lbl) == example
  {
  }

  /** Resolving a resolved example changes nothing. */
  lemma ResolveIdempotent(example: string, lbl: string)
    ensures Resolve(Resolve(example, lbl), lbl) == Resolve(example, lbl)
  {
  }

  // ---------------------------------------------------------------------
  // One refinement call
  // ---------------------------------------------------------------------

  /** Any label other than `"1"` leaves the hypothesis as it was; label
      `"1"` removes exactly the literals the resolved example falsifies:
      `¬x(i+1)` where it has `'1'`, `x(i+1)` where it has `'0'`. */
  lemma StepEffect(h: set<Literal>, example: string, lbl: string)
    ensures lbl != "1" ==> Step(h, example, lbl) == h
    ensures lbl == "1" ==> forall l :: l in Step(h, example, lbl) <==>
      l in h && !(1 <= l.index <= |example| &&
                  Resolve(example, lbl)[l.index - 1] == (if l.positive then '0' else '1'))
    ensures Step(h, example, lbl) <= h
  {
  }

  /** The `removed` set a positive entry records is the old hypothesis minus
      the new one. */
  lemma RemovedIsDifference(h: set<Literal>, example: string)
    ensures EntryFor(h, example, "1").effect == Positive(h - Step(h, example, "1"))
  {
  }

  /** Refining twice with the same example is the same as refining once. */
  lemma StepIdempotent(h: set<Literal>, example: string, lbl: string)
    ensures Step(Step(h, example, lbl), example, lbl) == Step(h, example, lbl)
  {
  }

  /** With `h` inside the universe of `n` features, positions from `n` on
      remove nothing: the step only depends on the first `n` characters. */
  lemma StepIgnoresExtraPositions(h: set<Literal>, n: nat, example: string, lbl: string)
    requires h <= Universe(n)
    requires n <= |example|
    ensures Step(h, example, lbl) == Step(h, example[..n], lbl)
  {
  }

  /** A log line ends with "Positive; no change." exactly when it records a
      positive example that removed nothing. */
  lemma NoChangeText(e: LogEntry)
    ensures EndsWith(EntryText(e), "Positive; no change.") <==> e.effect == Positive({})
  {
    var t := EntryText(e);
    var eff := EffectText(e.effect);
    assert t == "Example: " + e.example + ":" + e.lbl + " | " + eff;
    assert |eff| >= 2;
    assert t[|t| - 2..] == eff[|eff| - 2..];
    if e.effect.Positive? && e.effect.removed != {} {
      RenderSetSize(e.effect.removed);
      var names := SortedStrings(RenderSet(e.effect.removed));
      var last := names[|names| - 1];
      assert last in RenderSet(e.effect.removed);
      var l :| l in e.effect.removed && Render(l) == last;
      RenderEndsInDigit(l);
      JoinLastChar(names, ", ");
      var j := Join(names, ", ");
      assert eff == "Positive; eliminated: " + j;
      assert eff[|eff| - 1] == j[|j| - 1];
    }
    if EndsWith(t, "Positive; no change.") {
      assert t[|t| - 2..] == "e.";
    }
  }

  /** One `refine_hypothesis` call: the example and the label as given. */
  datatype Call = Call(example: string, lbl: string)

  /** The literals a session's positive calls falsify, after resolution. */
  function Evidence(calls: seq<Call>): set<Literal>
    decreases |calls|
  {
    if calls == [] then {}
    else
      var c := calls[|calls| - 1];
      Evidence(calls[..|calls| - 1]) +
        (if c.lbl == "1" then Falsified(Resolve(c.example, c.lbl)) else {})
  }

  /** The hypothesis after `calls`, refined one after the other from `h`. */
  function Replay(h: set<Literal>, calls: seq<Call>): set<Literal>
    decreases |calls|
  {
    if calls == [] then h
    else
      var c := calls[|calls| - 1];
      Step(Replay(h, calls[..|calls| - 1]), c.example, c.lbl)
  }

  /** The log entries `calls` record, starting from `h`. */
  function ReplayLog(h: set<Literal>, calls: seq<Call>): (es: seq<LogEntry>)
    ensures |es| == |calls|
    decreases |calls|
  {
    if calls == [] then []
    else
      var c := calls[|calls| - 1];
      var before := calls[..|calls| - 1];
      ReplayLog(h, before) + [EntryFor(Replay(h, before), c.example, c.lbl)]
  }

  /** One more call takes one more step and records one more entry. */
  lemma ReplaySnoc(h: set<Literal>, calls: seq<Call>, c: Call)
    ensures Replay(h, calls + [c]) == Step(Replay(h, calls), c.example, c.lbl)
    ensures ReplayLog(h, calls + [c]) == ReplayLog(h, calls) + [EntryFor(Replay(h, calls), c.example, c.lbl)]
  {
  }

  lemma TextsSnoc(es: seq<LogEntry>, e: LogEntry)
    ensures Texts(es + [e]) == Texts(es) + [EntryText(e)]
  {
  }

  /** Whatever the order and the labels, the hypothesis after a session is
      the start minus every literal some positive example falsified. */
  lemma {:induction false} ReplayIsElimination(h: set<Literal>, calls: seq<Call>)
    ensures Replay(h, calls) == h - Evidence(calls)
    decreases |calls|
  {
    if calls != [] {
      ReplayIsElimination(h, calls[..|calls| - 1]);
    }
  }

  lemma {:induction false} EvidenceAppend(calls: seq<Call>, more: seq<Call>)
    ensures Evidence(calls + more) == Evidence(calls) + Evidence(more)
    decreases |more|
  {
    if more == [] {
      assert calls + more == calls;
    } else {
      var m := |more| - 1;
      assert (calls + more)[..|calls + more| - 1] == calls + more[..m];
      EvidenceAppend(calls, more[..m]);
    }
  }

  /** Later calls never grow the hypothesis. */
  lemma ReplayShrinks(h: set<Literal>, calls: seq<Call>, more: seq<Call>)
    ensures Replay(h, calls + more) <= Replay(h, calls) <= h
    ensures |Replay(h, calls + more)| <= |Replay(h, calls)|
  {
    ReplayIsElimination(h, calls);
    ReplayIsElimination(h, calls + more);
    EvidenceAppend(calls, more);
    var a, b := Replay(h, calls + more), Replay(h, calls);
    assert b == a + (b - a);
  }

  /** Earlier entries are never rewritten by later calls. */
  lemma {:induction false} ReplayLogStable(h: set<Literal>, calls: seq<Call>, more: seq<Call>)
    ensures |ReplayLog(h, calls)| <= |ReplayLog(h, calls + more)|
    ensures ReplayLog(h, calls + more)[..|ReplayLog(h, calls)|] == ReplayLog(h, calls)
    decreases |more|
  {
    if more == [] {
      assert calls + more == calls;
    } else {
      var m := |more| - 1;
      assert (calls + more)[..|calls + more| - 1] == calls + more[..m];
      ReplayLogStable(h, calls, more[..m]);
    }
  }

  // ---------------------------------------------------------------------
  // The rendered hypothesis
  // ---------------------------------------------------------------------

  /** Position of a literal in the order `x1, ¬x1, x2, ¬x2, ...`. */
  function Rank(l: Literal): nat
  {
    2 * l.index + (if l.positive then 0 else 1)
  }

  /** The members of `h` among `x<k>`, `¬x<k>`, in that order. */
  function Pair(h: set<Literal>, k: nat): (p: seq<Literal>)
    ensures forall l {:trigger l in p} :: l in p <==> l in h && l.index == k
    ensures forall i :: 0 <= i < |p| ==> p[i].index == k
    ensures forall i, j :: 0 <= i < j < |p| ==> Rank(p[i]) < Rank(p[j])
  {
    (if Lit(k, true) in h then [Lit(k, true)] else []) + (if Lit(k, false) in h then [Lit(k, false)] else [])
  }

  /** The members of `h` with index at most `n`, listed `x1, ¬x1, x2, ¬x2, ...`. */
  function Ordered(h: set<Literal>, n: int): seq<Literal>
    decreases n
  {
    if n <= 0 then [] else Ordered(h, n - 1) + Pair(h, n)
  }

  /** The listing holds the members of `h` with index in `1..n`, and nothing else. */
  lemma {:induction false} OrderedMembers(h: set<Literal>, n: int)
    ensures forall l {:trigger l in Ordered(h, n)} :: l in Ordered(h, n) <==> l in h && 1 <= l.index <= n
    ensures forall i :: 0 <= i < |Ordered(h, n)| ==> 1 <= Ordered(h, n)[i].index <= n
    decreases n
  {
    if n > 0 {
      OrderedMembers(h, n - 1);
      var before, p := Ordered(h, n - 1), Pair(h, n);
      var o := before + p;
      assert Ordered(h, n) == o;
      forall i | 0 <= i < |o|
        ensures 1 <= o[i].index <= n
      {
        if i < |before| { assert o[i] == before[i]; }
        else { assert o[i] == p[i - |before|]; }
      }
    }
  }

  /** The listing is strictly ascending in `x1, ¬x1, x2, ¬x2, ...` order, so
      `x<i>` comes before `¬x<i>`, indices ascend, and nothing is repeated. */
  lemma {:induction false} OrderedAscending(h: set<Literal>, n: int)
    ensures forall i, j :: 0 <= i < j < |Ordered(h, n)| ==> Rank(Ordered(h, n)[i]) < Rank(Ordered(h, n)[j])
    decreases n
  {
    if n > 0 {
      OrderedAscending(h, n - 1);
      OrderedMembers(h, n - 1);
      var before, p := Ordered(h, n - 1), Pair(h, n);
      var o := before + p;
      assert Ordered(h, n) == o;
      forall i, j | 0 <= i < j < |o|
        ensures Rank(o[i]) < Rank(o[j])
      {
        if j < |before| {
          assert o[i] == before[i] && o[j] == before[j];
          assert Rank(before[i]) < Rank(before[j]);
        } else if i >= |before| {
          assert o[i] == p[i - |before|] && o[j] == p[j - |before|];
          assert Rank(p[i - |before|]) < Rank(p[j - |before|]);
        } else {
          assert o[i] == before[i] && o[j] == p[j - |before|];
          assert Rank(before[i]) < 2 * n by { assert before[i].index <= n - 1; }
          assert Rank(p[j - |before|]) >= 2 * n by { assert p[j - |before|].index == n; }
        }
      }
    }
  }

  function RenderAll(o: seq<Literal>): seq<string>
  {
    seq(|o|, i requires 0 <= i < |o| => Render(o[i]))
  }

  lemma RenderAllAppend(a: seq<Literal>, b: seq<Literal>)
    ensures RenderAll(a + b) == RenderAll(a) + RenderAll(b)
  {
  }

  /** One round of the `get_hypothesis` loop appends the names of `Pair(h, k)`. */
  lemma RenderOrderedSnoc(h: set<Literal>, k: nat)
    requires k >= 1
    ensures RenderAll(Ordered(h, k)) ==
            RenderAll(Ordered(h, k - 1))
            + (if Lit(k, true) in h then [Render(Lit(k, true))] else [])
            + (if Lit(k, false) in h then [Render(Lit(k, false))] else [])
  {
  }

  lemma {:induction false} OrderedSize(h: set<Literal>, n: int)
    ensures |Ordered(h, n)| == |h * Universe(n)|
    decreases n
  {
    if n <= 0 {
      assert h * Universe(n) == {};
    } else {
      OrderedSize(h, n - 1);
      var pair := {Lit(n, true), Lit(n, false)};
      UniverseSnoc(n);
      var a, b := h * Universe(n - 1), h * pair;
      assert h * Universe(n) == a + b;
      assert a * b == {};
      PairSize(h, n);
    }
  }

  lemma PairSize(h: set<Literal>, k: nat)
    ensures |Pair(h, k)| == |h * {Lit(k, true), Lit(k, false)}|
  {
    var pair := {Lit(k, true), Lit(k, false)};
    if Lit(k, true) in h && Lit(k, false) in h {
      assert h * pair == pair;
    } else if Lit(k, true) in h {
      assert h * pair == {Lit(k, true)};
    } else if Lit(k, false) in h {
      assert h * pair == {Lit(k, false)};
    } else {
      assert h * pair == {};
    }
  }

  /** For a hypothesis inside the universe of `n` features, `get_hypothesis`
      lists every member's name exactly once and nothing else, so the list
      has `|h|` names, at most `2n`. */
  lemma Listing(h: set<Literal>, n: nat)
    requires h <= Universe(n)
    ensures |RenderAll(Ordered(h, n))| == |h| <= 2 * n
    ensures forall i, j :: 0 <= i < j < |RenderAll(Ordered(h, n))| ==>
              RenderAll(Ordered(h, n))[i] != RenderAll(Ordered(h, n))[j]
    ensures forall s :: s in RenderAll(Ordered(h, n)) <==> s in RenderSet(h)
  {
    ListingSize(h, n);
    ListingDistinct(h, n);
    ListingMembers(h, n);
  }

  lemma ListingSize(h: set<Literal>, n: nat)
    requires h <= Universe(n)
    ensures |Ordered(h, n)| == |h| <= 2 * n
  {
    OrderedSize(h, n);
    assert h * Universe(n) == h;
    UniverseSize(n);
    assert Universe(n) == h + (Universe(n) - h);
  }

  lemma ListingDistinct(h: set<Literal>, n: nat)
    ensures forall i, j :: 0 <= i < j < |RenderAll(Ordered(h, n))| ==>
              RenderAll(Ordered(h, n))[i] != RenderAll(Ordered(h, n))[j]
  {
    var o := Ordered(h, n);
    OrderedAscending(h, n);
    forall i, j | 0 <= i < j < |o|
      ensures Render(o[i]) != Render(o[j])
    {
      if Render(o[i]) == Render(o[j]) {
        RenderInjective(o[i], o[j]);
      }
    }
  }

  lemma ListingMembers(h: set<Literal>, n: nat)
    requires h <= Universe(n)
    ensures forall s :: s in RenderAll(Ordered(h, n)) <==> s in RenderSet(h)
  {
    var o := Ordered(h, n);
    var r := RenderAll(o);
    OrderedMembers(h, n);
    forall s
      ensures s in r <==> s in RenderSet(h)
    {
      if s in r {
        var i :| 0 <= i < |r| && r[i] == s;
        assert o[i] in o;
      }
      if s in RenderSet(h) {
        var l :| l in h && Render(l) == s;
        assert l in o;
        var i :| 0 <= i < |o| && o[i] == l;
        assert r[i] == s;
      }
    }
  }

  // ---------------------------------------------------------------------
  // The learner object
  // ---------------------------------------------------------------------

  class AutodidacticLearner {
    const numFeatures: int
    var hypothesis: set<Literal>
    var log: seq<string>
    /** The refinement calls since the last reset. */
    ghost var calls: seq<Call>

    /** The hypothesis and the log are what the calls since the last reset
        produce from the full universe. */
    ghost predicate Valid()
      reads this
    {
      && hypothesis == Replay(Universe(numFeatures), calls)
      && log == Texts(ReplayLog(Universe(numFeatures), calls))
    }

    constructor (numFeatures: int)
      ensures Valid()
      ensures this.numFeatures == numFeatures
      ensures hypothesis == Universe(numFeatures) && log == [] && calls == []
    {
      this.numFeatures := numFeatures;
      hypothesis := {};
      log := [];
      calls := [];
      new;
      Reset();
    }

    /** Restores the full universe and clears the log. */
    method Reset()
      modifies this
      ensures Valid()
      ensures hypothesis == Universe(numFeatures) && log == [] && calls == []
    {
      hypothesis := {};
      log := [];
      calls := [];
      var i := 0;
      while i < numFeatures
        invariant 0 <= i <= (if numFeatures < 0 then 0 else numFeatures)
        invariant hypothesis == Universe(i)
        invariant log == [] && calls == []
      {
        hypothesis := hypothesis + {Lit(i + 1, true)};
        hypothesis := hypothesis + {Lit(i + 1, false)};
        i := i + 1;
      }
      assert Universe(i) == Universe(numFeatures);
    }

    /** One refinement call: the hypothesis takes one `Step` and exactly one
        line is appended to the log. */
    method RefineHypothesis(example: string, lbl: string)
      requires Valid()
      modifies this
      ensures Valid()
      ensures calls == old(calls) + [Call(example, lbl)]
      ensures hypothesis == Step(old(hypothesis), example, lbl)
      ensures hypothesis <= old(hypothesis) <= Universe(numFeatures)
      ensures log == old(log) + [EntryText(EntryFor(old(hypothesis), example, lbl))]
    {
      ReplayIsElimination(Universe(numFeatures), calls);
      var resolved := Resolve(example, lbl);

      var effect: Effect;
      if lbl == "" {
        effect := NoLabel;
      } else if lbl == "?" {
        effect := Unlabeled;
      } else if lbl == "0" {
        effect := Negative;
      } else if lbl == "1" {
        var removed := EliminateFalsified(resolved);
        effect := Positive(removed);
      } else {
        effect := InvalidLabel;
      }

      var entry := LogEntry(resolved, lbl, effect);
      assert entry == EntryFor(old(hypothesis), example, lbl);
      ReplaySnoc(Universe(numFeatures), calls, Call(example, lbl));
      TextsSnoc(ReplayLog(Universe(numFeatures), calls), entry);
      log := log + [EntryText(entry)];
      calls := calls + [Call(example, lbl)];
    }

    /** The elimination loop of a positive call: removes, in place, every
        member the resolved example falsifies and returns what it removed.
        It is only the inner loop of `RefineHypothesis`: it does not record
        the call, so on its own it leaves `Valid()` broken until
        `RefineHypothesis` appends the call and its log line. */
    method EliminateFalsified(resolved: string) returns (removed: set<Literal>)
      modifies this
      ensures hypothesis == old(hypothesis) - Falsified(resolved)
      ensures removed == old(hypothesis) * Falsified(resolved)
      ensures log == old(log) && calls == old(calls)
    {
      removed := {};
      var i := 0;
      while i < |resolved|
        invariant 0 <= i <= |resolved|
        invariant hypothesis == old(hypothesis) - Falsified(resolved[..i])
        invariant removed == old(hypothesis) * Falsified(resolved[..i])
        invariant log == old(log) && calls == old(calls)
      {
        FalsifiedSnoc(resolved, i);
        if resolved[i] == '1' {
          if Lit(i + 1, false) in hypothesis {
            hypothesis := hypothesis - {Lit(i + 1, false)};
            removed := removed + {Lit(i + 1, false)};
          }
        } else if resolved[i] == '0' {
          if Lit(i + 1, true) in hypothesis {
            hypothesis := hypothesis - {Lit(i + 1, true)};
            removed := removed + {Lit(i + 1, true)};
          }
        }
        i := i + 1;
      }
      assert resolved[..i] == resolved;
    }

    /** The names of the surviving literals in the order `x1, ¬x1, x2, ¬x2, ...`. */
    method GetHypothesis() returns (r: seq<string>)
      ensures r == RenderAll(Ordered(hypothesis, numFeatures))
    {
      r := [];
      var i: nat := 1;
      while i <= numFeatures
        invariant 1 <= i <= (if numFeatures < 1 then 1 else numFeatures + 1)
        invariant r == RenderAll(Ordered(hypothesis, i - 1))
      {
        RenderOrderedSnoc(hypothesis, i);
        if Lit(i, true) in hypothesis {
          r := r + [Render(Lit(i, true))];
        }
        if Lit(i, false) in hypothesis {
          r := r + [Render(Lit(i, false))];
        }
        i := i + 1;
      }
    }

    /** The log: one line per call since the last reset, in call order. */
    function GetLog(): (r: seq<string>)
      reads this
      requires Valid()
      ensures |r| == |calls|
      ensures forall i :: 0 <= i < |r| ==> r[i] == EntryText(ReplayLog(Universe(numFeatures), calls)[i])
    {
      log
    }
  }
}
