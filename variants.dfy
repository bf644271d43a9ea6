/** How the deployed learner (backend/app.py) and the earlier one
    (backend/autodidactic_model.py) relate. */
module Variants {
  import opened Text
  import opened Literals
  import App
  import Early

  /** On examples made only of `'0'` and `'1'` the two versions take the same
      step, whatever the label. */
  lemma AgreeOnBinaryExamples(h: set<Literal>, example: string, lbl: string)
    requires forall i :: 0 <= i < |example| ==> IsBit(example[i])
    ensures App.Step(h, example, lbl) == Early.Step(h, example, lbl)
  {
  }

  /** The deployed version removes everything the earlier one removes, and
      in addition exactly the `¬x(i+1)` in `h` whose position holds a
      character other than `'0'`/`'1'` (the unknowns it resolves to `'1'`). */
  lemma DeployedRemovesUnknownNegations(h: set<Literal>, example: string, lbl: string)
    ensures App.Step(h, example, lbl) <= Early.Step(h, example, lbl)
    ensures forall l :: l in Early.Step(h, example, lbl) - App.Step(h, example, lbl) <==>
      lbl == "1" && l in h && !l.positive && 1 <= l.index <= |example| && !IsBit(example[l.index - 1])
  {
  }

  /** Positive `"10?"` on three features: the deployed version removes
      `¬x1`, `x2` and `¬x3`, the earlier one only `¬x1` and `x2`. */
  lemma PositiveWithUnknown()
    ensures App.Step(Universe(3), "10?", "1") == {Lit(1, true), Lit(2, false), Lit(3, true)}
    ensures Early.Step(Universe(3), "10?", "1") == {Lit(1, true), Lit(2, false), Lit(3, true), Lit(3, false)}
  {
  }

  /** The deployed log line for that call lists the removed names in
      Python's string order, where `x2` precedes `¬x1`. */
  lemma PositiveWithUnknownLogLine()
    ensures App.EntryText(App.EntryFor(Universe(3), "10?", "1")) ==
            "Example: " + "101" + ":" + "1" + " | " + ("Positive; eliminated: " + "x2, \U{00AC}x1, \U{00AC}x3")
  {
    var removed := {Lit(1, false), Lit(2, true), Lit(3, false)};
    PositiveWithUnknownEntry();
    RemovedNamesSorted();
    JoinRemovedNames();
    assert Lit(1, false) in removed;
  }

  lemma JoinRemovedNames()
    ensures Join(["x2", "\U{00AC}x1", "\U{00AC}x3"], ", ") == "x2, \U{00AC}x1, \U{00AC}x3"
  {
  }

  lemma PositiveWithUnknownEntry()
    ensures App.EntryFor(Universe(3), "10?", "1") ==
            App.LogEntry("101", "1", App.Positive({Lit(1, false), Lit(2, true), Lit(3, false)}))
  {
    PositiveWithUnknown();
    App.RemovedIsDifference(Universe(3), "10?");
    App.ResolveSpec("10?", "1");
    assert App.Resolve("10?", "1") == "101";
    assert Universe(3) - App.Step(Universe(3), "10?", "1") == {Lit(1, false), Lit(2, true), Lit(3, false)};
  }

  lemma RemovedNamesSorted()
    ensures SortedStrings(RenderSet({Lit(1, false), Lit(2, true), Lit(3, false)})) ==
            ["x2", "\U{00AC}x1", "\U{00AC}x3"]
  {
    var names := ["x2", "\U{00AC}x1", "\U{00AC}x3"];
    RemovedNames();
    assert Less(names[0], names[1]) && Less(names[1], names[2]) && Less(names[0], names[2]);
    SortedStringsUnique(names, RenderSet({Lit(1, false), Lit(2, true), Lit(3, false)}));
  }

  lemma RemovedNames()
    ensures RenderSet({Lit(1, false), Lit(2, true), Lit(3, false)}) == {"x2", "\U{00AC}x1", "\U{00AC}x3"}
  {
    assert NatToString(1) == "1" && NatToString(2) == "2" && NatToString(3) == "3";
    assert Render(Lit(2, true)) == "x2";
    assert Render(Lit(1, false)) == "\U{00AC}x1";
    assert Render(Lit(3, false)) == "\U{00AC}x3";
  }

  /** Both versions list the same names for the same hypothesis, each the
      same number of times; only the order differs. */
  lemma SameNamesListed(h: set<Literal>, n: nat)
    requires h <= Universe(n)
    ensures forall s :: s in App.RenderAll(App.Ordered(h, n)) <==> s in SortedStrings(RenderSet(h))
    ensures |App.RenderAll(App.Ordered(h, n))| == |SortedStrings(RenderSet(h))|
    ensures multiset(App.RenderAll(App.Ordered(h, n))) == multiset(SortedStrings(RenderSet(h)))
  {
    var deployed := App.RenderAll(App.Ordered(h, n));
    var earlier := SortedStrings(RenderSet(h));
    App.Listing(h, n);
    RenderSetSize(h);
    StrictlySortedDistinct(earlier);
    forall x
      ensures multiset(deployed)[x] == multiset(earlier)[x]
    {
      DistinctCountsOnce(deployed, x);
      DistinctCountsOnce(earlier, x);
    }
  }
}
