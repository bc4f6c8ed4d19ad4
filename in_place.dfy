/**
 * In-place (Gauss-Seidel) value-iteration sweeps, independent of the game.
 *
 * A sweep visits a list of states in order. At each state a choice rule reads
 * the current table and returns the decision to record and the state's new
 * value; the value is written at once, so states visited later in the same
 * sweep read it. The sweep also tracks the largest change it made. The Pig
 * solver of source/pig.py and the array solver of source/PigletSolver.java
 * both sweep this way; they differ in the rule, the decision type and the
 * order of the states.
 */
module InPlace {
  import opened Boundary

  /** A choice rule: from a table and a state, the decision recorded for the
      state and the value written for it. */
  type Rule<X> = (map<State, real>, State) -> (X, real)

  /** The rule turns tables of probabilities into probabilities. */
  ghost predicate KeepsUnit<X>(rule: Rule<X>)
  {
    forall V, s :: InUnit(V) ==> 0.0 <= rule(V, s).1 <= 1.0
  }

  /** The value table, the decision table and the largest change seen so far. */
  datatype Sweep<X> = Sweep(V: map<State, real>, policy: map<State, X>, delta: real)

  /** Processing one state in place: the change is measured against the value
      being replaced. The solvers only visit states that have an entry (see
      InPlaceSweepKeys); a state without one would count as replacing 0. */
  function Step<X>(rule: Rule<X>, acc: Sweep<X>, s: State): Sweep<X>
  {
    var chosen := rule(acc.V, s);
    Sweep(acc.V[s := chosen.1], acc.policy[s := chosen.0], Max(acc.delta, Abs(chosen.1 - Stored(acc.V, s))))
  }

  /** Processing the states ss in order, each reading the values written
      before it. */
  function InPlaceSweep<X>(rule: Rule<X>, acc: Sweep<X>, ss: seq<State>): Sweep<X>
    decreases |ss|
  {
    if ss == [] then acc
    else Step(rule, InPlaceSweep(rule, acc, ss[..|ss| - 1]), ss[|ss| - 1])
  }

  /** The tables after n sweeps over S; every sweep starts its delta at 0. */
  function Sweeps<X>(rule: Rule<X>, S: seq<State>, start: Sweep<X>, n: nat): Sweep<X>
  {
    if n == 0 then start
    else
      var prev := Sweeps(rule, S, start, n - 1);
      InPlaceSweep(rule, Sweep(prev.V, prev.policy, 0.0), S)
  }

  /** A sweep over states that all have an entry adds no entry and removes
      none, in either table. */
  lemma {:induction false} InPlaceSweepKeys<X>(rule: Rule<X>, acc: Sweep<X>, ss: seq<State>)
    requires AllIn(ss, acc.V)
    ensures InPlaceSweep(rule, acc, ss).V.Keys == acc.V.Keys
    ensures acc.policy.Keys == acc.V.Keys ==> InPlaceSweep(rule, acc, ss).policy.Keys == acc.V.Keys
  {
    if ss != [] {
      assert forall t :: t in ss[..|ss| - 1] ==> t in ss;
      InPlaceSweepKeys(rule, acc, ss[..|ss| - 1]);
      assert ss[|ss| - 1] in ss;
    }
  }

  lemma {:induction false} SweepsKeys<X>(rule: Rule<X>, S: seq<State>, start: Sweep<X>, n: nat)
    requires AllIn(S, start.V) && start.policy.Keys == start.V.Keys
    ensures Sweeps(rule, S, start, n).V.Keys == start.V.Keys
    ensures Sweeps(rule, S, start, n).policy.Keys == start.V.Keys
  {
    if n > 0 {
      SweepsKeys(rule, S, start, n - 1);
      var prev := Sweeps(rule, S, start, n - 1);
      InPlaceSweepKeys(rule, Sweep(prev.V, prev.policy, 0.0), S);
    }
  }

  /** A sweep over [s] + rest is one step at s, then a sweep over rest from
      there. */
  lemma {:induction false} InPlaceSweepCons<X>(rule: Rule<X>, acc: Sweep<X>, s: State, rest: seq<State>)
    ensures InPlaceSweep(rule, acc, [s] + rest) == InPlaceSweep(rule, Step(rule, acc, s), rest)
    decreases |rest|
  {
    if rest != [] {
      var init, last := rest[..|rest| - 1], rest[|rest| - 1];
      InPlaceSweepCons(rule, acc, s, init);
      assert ([s] + rest)[..|rest|] == [s] + init;
      assert rest[..|rest| - 1] == init;
    }
  }

  /** The sweep over From(T, i, j, k) as three nested loops run from loop
      position (i, j, k): the remaining cells of row (i, j), then the
      remaining rows of block i, then the remaining blocks. */
  function Nested<X>(rule: Rule<X>, T: int, acc: Sweep<X>, i: nat, j: nat, k: nat): Sweep<X>
    decreases T - i, T - j, T - i - k
  {
    if i >= T then acc
    else if j >= T then Nested(rule, T, acc, i + 1, 0, 0)
    else if k >= T - i then Nested(rule, T, acc, i, j + 1, 0)
    else Nested(rule, T, Step(rule, acc, State(i, j, k)), i, j, k + 1)
  }

  /** Past the last block the loops have nothing left to do. */
  lemma NestedDone<X>(rule: Rule<X>, T: int, acc: Sweep<X>, i: nat, j: nat, k: nat)
    requires T <= i
    ensures Nested(rule, T, acc, i, j, k) == acc
  {
  }

  /** The same sweep, taking the states from the front. */
  function Fold<X>(rule: Rule<X>, acc: Sweep<X>, ss: seq<State>): Sweep<X>
    decreases |ss|
  {
    if ss == [] then acc else Fold(rule, Step(rule, acc, ss[0]), ss[1..])
  }

  /** The nested loops sweep the states from (i, j, k) onward in order. */
  lemma {:induction false} NestedIsFold<X>(rule: Rule<X>, T: int, acc: Sweep<X>, i: nat, j: nat, k: nat)
    ensures Nested(rule, T, acc, i, j, k) == Fold(rule, acc, From(T, i, j, k))
    decreases T - i, T - j, T - i - k
  {
    if i >= T {
    } else if j >= T {
      NestedIsFold(rule, T, acc, i + 1, 0, 0);
    } else if k >= T - i {
      NestedIsFold(rule, T, acc, i, j + 1, 0);
    } else {
      var s := State(i, j, k);
      NestedIsFold(rule, T, Step(rule, acc, s), i, j, k + 1);
      assert From(T, i, j, k)[1..] == From(T, i, j, k + 1);
    }
  }

  lemma {:induction false} FoldIsSweep<X>(rule: Rule<X>, acc: Sweep<X>, ss: seq<State>)
    ensures Fold(rule, acc, ss) == InPlaceSweep(rule, acc, ss)
    decreases |ss|
  {
    if ss != [] {
      FoldIsSweep(rule, Step(rule, acc, ss[0]), ss[1..]);
      InPlaceSweepCons(rule, acc, ss[0], ss[1..]);
      assert [ss[0]] + ss[1..] == ss;
    }
  }

  /** The nested loops perform the in-place sweep over From(T, i, j, k). */
  lemma NestedIsSweep<X>(rule: Rule<X>, T: int, acc: Sweep<X>, i: nat, j: nat, k: nat)
    ensures Nested(rule, T, acc, i, j, k) == InPlaceSweep(rule, acc, From(T, i, j, k))
  {
    NestedIsFold(rule, T, acc, i, j, k);
    FoldIsSweep(rule, acc, From(T, i, j, k));
  }

  /** Sweep n + 1 is the nested loops run over the tables of sweep n, with
      delta reset to 0. */
  lemma SweepsNested<X>(rule: Rule<X>, T: int, start: Sweep<X>, n: nat)
    ensures var prev := Sweeps(rule, Enumerate(T), start, n);
            Sweeps(rule, Enumerate(T), start, n + 1) == Nested(rule, T, Sweep(prev.V, prev.policy, 0.0), 0, 0, 0)
  {
    var prev := Sweeps(rule, Enumerate(T), start, n);
    NestedIsSweep(rule, T, Sweep(prev.V, prev.policy, 0.0), 0, 0, 0);
  }

  /** Extending the visited prefix by one state is one more step. */
  lemma InPlaceSweepPrefix<X>(rule: Rule<X>, acc: Sweep<X>, ss: seq<State>, n: nat)
    requires n < |ss|
    ensures InPlaceSweep(rule, acc, ss[..n + 1]) == Step(rule, InPlaceSweep(rule, acc, ss[..n]), ss[n])
  {
    assert ss[..n + 1][..n] == ss[..n];
  }

  /** A sweep keeps every value a probability. */
  lemma {:induction false} InPlaceSweepInUnit<X>(rule: Rule<X>, acc: Sweep<X>, ss: seq<State>)
    requires KeepsUnit(rule) && InUnit(acc.V)
    ensures InUnit(InPlaceSweep(rule, acc, ss).V)
  {
    if ss != [] {
      var prev := InPlaceSweep(rule, acc, ss[..|ss| - 1]);
      InPlaceSweepInUnit(rule, acc, ss[..|ss| - 1]);
      assert 0.0 <= rule(prev.V, ss[|ss| - 1]).1 <= 1.0;
    }
  }

  /** Every sweep keeps every value a probability. */
  lemma {:induction false} SweepsInUnit<X>(rule: Rule<X>, S: seq<State>, start: Sweep<X>, n: nat)
    requires KeepsUnit(rule) && InUnit(start.V)
    ensures InUnit(Sweeps(rule, S, start, n).V)
  {
    if n > 0 {
      SweepsInUnit(rule, S, start, n - 1);
      var prev := Sweeps(rule, S, start, n - 1);
      InPlaceSweepInUnit(rule, Sweep(prev.V, prev.policy, 0.0), S);
    }
  }

  /** A state the sweep does not visit keeps its value and its decision. */
  lemma {:induction false} InPlaceSweepUntouched<X>(rule: Rule<X>, acc: Sweep<X>, ss: seq<State>, s: State)
    requires s in acc.V && s !in ss
    ensures var r := InPlaceSweep(rule, acc, ss);
            s in r.V && r.V[s] == acc.V[s] &&
            (s in acc.policy ==> s in r.policy && r.policy[s] == acc.policy[s])
  {
    if ss != [] {
      assert s !in ss[..|ss| - 1];
      InPlaceSweepUntouched(rule, acc, ss[..|ss| - 1], s);
    }
  }

  /** Over distinct states, the value and decision recorded for ss[m] are the
      rule applied to the table left by the first m states: the values written
      earlier in the same sweep are the ones read. */
  lemma {:induction false} InPlaceSweepWrites<X>(rule: Rule<X>, acc: Sweep<X>, ss: seq<State>, m: nat)
    requires Distinct(ss) && m < |ss|
    ensures var before := InPlaceSweep(rule, acc, ss[..m]);
            var r := InPlaceSweep(rule, acc, ss);
            ss[m] in r.V && ss[m] in r.policy &&
            r.V[ss[m]] == rule(before.V, ss[m]).1 && r.policy[ss[m]] == rule(before.V, ss[m]).0
  {
    var last := |ss| - 1;
    var init := ss[..last];
    if m < last {
      assert init[..m] == ss[..m];
      assert Distinct(init) by {
        forall x, y | 0 <= x < y < |init| ensures init[x] != init[y] {
          assert init[x] == ss[x] && init[y] == ss[y];
        }
      }
      InPlaceSweepWrites(rule, acc, init, m);
      assert ss[m] != ss[last];
    } else {
      assert ss[..m] == init;
    }
  }

  /** On distinct states, starting from delta 0, the sweep's delta is the
      largest change |old V[s] - new V[s]| over the visited states. */
  lemma {:induction false} InPlaceSweepDelta<X>(rule: Rule<X>, acc: Sweep<X>, ss: seq<State>)
    requires AllIn(ss, acc.V) && Distinct(ss) && acc.delta == 0.0
    ensures var r := InPlaceSweep(rule, acc, ss);
            r.V.Keys == acc.V.Keys && r.delta == MaxChange(acc.V, r.V, ss)
  {
    if ss != [] {
      var init, s := ss[..|ss| - 1], ss[|ss| - 1];
      assert forall t :: t in init ==> t in ss;
      var prev := InPlaceSweep(rule, acc, init);
      var r := InPlaceSweep(rule, acc, ss);
      assert Distinct(init) by {
        forall x, y | 0 <= x < y < |init| ensures init[x] != init[y] {
          assert init[x] == ss[x] && init[y] == ss[y];
        }
      }
      InPlaceSweepDelta(rule, acc, init);
      InPlaceSweepKeys(rule, acc, ss);
      InPlaceSweepKeys(rule, acc, init);
      assert s !in init;
      InPlaceSweepUntouched(rule, acc, init, s);
      assert forall t :: t in init ==> t in acc.V && t in prev.V && t in r.V;
      assert forall t :: t in init ==> r.V[t] == prev.V[t];
      MaxChangeFrame(acc.V, r.V, prev.V, init);
    }
  }

  /** Sweep n is the first whose largest change is below tol. */
  ghost predicate FirstBelow<X>(rule: Rule<X>, S: seq<State>, start: Sweep<X>, tol: real, n: nat)
  {
    1 <= n && Sweeps(rule, S, start, n).delta < tol && NoneBelow(rule, S, start, tol, n - 1)
  }

  /** None of the sweeps 1..n has a largest change below tol. */
  ghost predicate NoneBelow<X>(rule: Rule<X>, S: seq<State>, start: Sweep<X>, tol: real, n: int)
  {
    forall m: nat :: 1 <= m <= n ==> Sweeps(rule, S, start, m).delta >= tol
  }

  lemma NoneBelowExtend<X>(rule: Rule<X>, S: seq<State>, start: Sweep<X>, tol: real, n: nat)
    requires NoneBelow(rule, S, start, tol, n - 1) && Sweeps(rule, S, start, n).delta >= tol
    ensures NoneBelow(rule, S, start, tol, n)
  {
    forall m: nat | 1 <= m <= n
      ensures Sweeps(rule, S, start, m).delta >= tol
    {
      if m < n {
        assert 1 <= m <= n - 1;
      }
    }
  }

  /** The first sweep below tol is unique. */
  lemma FirstBelowUnique<X>(rule: Rule<X>, S: seq<State>, start: Sweep<X>, tol: real, n1: nat, n2: nat)
    requires FirstBelow(rule, S, start, tol, n1) && FirstBelow(rule, S, start, tol, n2)
    ensures n1 == n2
  {
    if n1 < n2 {
      assert false;
    } else if n2 < n1 {
      assert false;
    }
  }
}
