/** Boolean literals over features numbered from 1, their rendering as
    `x<i>` / `¬x<i>`, the universe of all literals of `n` features, and the
    literals a positive example falsifies. */
module Literals {
  import opened Text

  /** `Lit(i, true)` is `x<i>`, `Lit(i, false)` is `¬x<i>`. */
  datatype Literal = Lit(index: nat, positive: bool)

  /** The string `reset` and `__init__` store in the hypothesis set:
      `f"x{i}"` or `f"¬x{i}"`. */
  function Render(l: Literal): string
  {
    (if l.positive then "x" else "\U{00AC}x") + NatToString(l.index)
  }

  /** Distinct literals have distinct names, so a set of names and a set of
      literals carry the same information. */
  lemma RenderInjective(a: Literal, b: Literal)
    requires Render(a) == Render(b)
    ensures a == b
  {
    var s := Render(a);
    assert s[0] == (if a.positive then 'x' else '\U{00AC}');
    assert s[0] == (if b.positive then 'x' else '\U{00AC}');
    var k := if a.positive then 1 else 2;
    assert s[k..] == NatToString(a.index);
    assert Render(b)[k..] == NatToString(b.index);
    NatToStringInjective(a.index, b.index);
  }

  /** The last character of a literal's name is a decimal digit. */
  lemma RenderEndsInDigit(l: Literal)
    ensures var s := Render(l); |s| > 1 && '0' <= s[|s| - 1] <= '9'
  {
  }

  /** The names of the literals of `h`. */
  function RenderSet(h: set<Literal>): set<string>
  {
    set l | l in h :: Render(l)
  }

  lemma {:induction false} RenderSetSize(h: set<Literal>)
    ensures |RenderSet(h)| == |h|
    decreases |h|
  {
    if h != {} {
      var x :| x in h;
      var rest := h - {x};
      assert RenderSet(h) == RenderSet(rest) + {Render(x)};
      if Render(x) in RenderSet(rest) {
        var y :| y in rest && Render(y) == Render(x);
        RenderInjective(x, y);
      }
      RenderSetSize(rest);
    }
  }

  /** All `2n` literals of `n` features: the most general hypothesis. */
  function Universe(n: int): (u: set<Literal>)
    ensures forall l {:trigger l in u} :: l in u <==> 1 <= l.index <= n
  {
    set i: nat, p: bool | 1 <= i <= n :: Lit(i, p)
  }

  /** The universe of `n` features adds `x<n>` and `¬x<n>` to that of `n - 1`. */
  lemma UniverseSnoc(n: nat)
    requires n >= 1
    ensures Universe(n) == Universe(n - 1) + {Lit(n, true), Lit(n, false)}
    ensures Universe(n - 1) * {Lit(n, true), Lit(n, false)} == {}
  {
  }

  lemma {:induction false} UniverseSize(n: nat)
    ensures |Universe(n)| == 2 * n
  {
    if n == 0 {
      assert Universe(0) == {};
    } else {
      UniverseSize(n - 1);
      UniverseSnoc(n);
    }
  }

  predicate IsBit(c: char)
  {
    c == '0' || c == '1'
  }

  /** The literals a positive example falsifies: a `'1'` at position `i`
      falsifies `¬x(i+1)`, a `'0'` falsifies `x(i+1)`, and any other
      character falsifies nothing. */
  function Falsified(s: string): (r: set<Literal>)
    ensures forall l {:trigger l in r} :: l in r <==>
              1 <= l.index <= |s| && s[l.index - 1] == (if l.positive then '0' else '1')
  {
    var r := set i: nat | i < |s| && IsBit(s[i]) :: Lit(i + 1, s[i] == '0');
    assert forall l: Literal :: 1 <= l.index <= |s| && s[l.index - 1] == (if l.positive then '0' else '1') ==>
      var i: nat := l.index - 1; i < |s| && IsBit(s[i]) && l == Lit(i + 1, s[i] == '0');
    r
  }

  /** Extending the example by one character adds what that character falsifies. */
  lemma FalsifiedSnoc(s: string, i: nat)
    requires i < |s|
    ensures Falsified(s[..i + 1]) ==
            Falsified(s[..i]) + (if s[i] == '1' then {Lit(i + 1, false)}
                                 else if s[i] == '0' then {Lit(i + 1, true)} else {})
  {
  }
}
