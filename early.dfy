/** The earlier learner (backend/autodidactic_model.py): the same
    elimination over the raw example, without resolving unknown characters
    and without a log; its hypothesis is listed in sorted string order. */
module Early {
  import opened Text
  import opened Literals

  /** The hypothesis after one `refine_hypothesis` call: under label `"1"`
      drop what the raw example falsifies; any other label changes nothing. */
  function Step(h: set<Literal>, example: string, lbl: string): set<Literal>
  {
    if lbl == "1" then h - Falsified(example) else h
  }

  /** Label `"1"` removes `¬x(i+1)` where the example has `'1'` and `x(i+1)`
      where it has `'0'` and nothing else; any other label changes nothing. */
  lemma StepEffect(h: set<Literal>, example: string, lbl: string)
    ensures lbl != "1" ==> Step(h, example, lbl) == h
    ensures lbl == "1" ==> forall l :: l in Step(h, example, lbl) <==>
      l in h && !(1 <= l.index <= |example| &&
                  example[l.index - 1] == (if l.positive then '0' else '1'))
  {
  }

  /** A character other than `'0'`/`'1'` (such as `'?'`) removes neither
      literal of its feature. */
  lemma UnknownRemovesNothing(h: set<Literal>, example: string, lbl: string, i: nat)
    requires i < |example| && !IsBit(example[i])
    ensures Lit(i + 1, true) in h ==> Lit(i + 1, true) in Step(h, example, lbl)
    ensures Lit(i + 1, false) in h ==> Lit(i + 1, false) in Step(h, example, lbl)
  {
  }

  /** The hypothesis never grows, so it stays inside the universe. */
  lemma StepShrinks(h: set<Literal>, n: int, example: string, lbl: string)
    ensures Step(h, example, lbl) <= h
    ensures h <= Universe(n) ==> Step(h, example, lbl) <= Universe(n)
    ensures |Step(h, example, lbl)| <= |h|
  {
  }

  /** Refining twice with the same example gives what refining once gives. */
  lemma StepIdempotent(h: set<Literal>, example: string, lbl: string)
    ensures Step(Step(h, example, lbl), example, lbl) == Step(h, example, lbl)
  {
  }

  class AutodidacticLearner {
    const numFeatures: int
    var hypothesis: set<Literal>

    ghost predicate Valid()
      reads this
    {
      hypothesis <= Universe(numFeatures)
    }

    /** Starts from the most general hypothesis: all `2n` literals. */
    constructor (numFeatures: int)
      ensures Valid()
      ensures this.numFeatures == numFeatures && hypothesis == Universe(numFeatures)
    {
      this.numFeatures := numFeatures;
      hypothesis := {};
      new;
      var i := 0;
      while i < numFeatures
        invariant 0 <= i <= (if numFeatures < 0 then 0 else numFeatures)
        invariant hypothesis == Universe(i)
      {
        hypothesis := hypothesis + {Lit(i + 1, true)};
        hypothesis := hypothesis + {Lit(i + 1, false)};
        i := i + 1;
      }
      assert Universe(i) == Universe(numFeatures);
    }

    /** Discards, in place, what a positive example falsifies. */
    method RefineHypothesis(example: string, lbl: string)
      requires Valid()
      modifies this
      ensures Valid()
      ensures hypothesis == Step(old(hypothesis), example, lbl)
    {
      if lbl == "1" {
        var i := 0;
        while i < |example|
          invariant 0 <= i <= |example|
          invariant hypothesis == old(hypothesis) - Falsified(example[..i])
        {
          FalsifiedSnoc(example, i);
          if example[i] == '1' {
            hypothesis := hypothesis - {Lit(i + 1, false)};
          } else if example[i] == '0' {
            hypothesis := hypothesis - {Lit(i + 1, true)};
          }
          i := i + 1;
        }
        assert example[..i] == example;
      }
    }

    /** `sorted(list(self.hypothesis))`: every member's name once, in
        ascending string order. */
    function GetHypothesis(): (r: seq<string>)
      reads this
      ensures StrictlySorted(r)
      ensures |r| == |hypothesis|
      ensures forall l :: l in hypothesis ==> Render(l) in r
      ensures forall s :: s in r ==> exists l :: l in hypothesis && Render(l) == s
    {
      RenderSetSize(hypothesis);
      SortedStrings(RenderSet(hypothesis))
    }
  }
}
