/**
 * Synchronous (Jacobi) value-iteration sweeps, independent of the game.
 *
 * A sweep visits a list of states in order. Every new value is computed from
 * the table as it stood when the sweep began, and is written into a copy of
 * that table; the copy replaces the table only when the sweep ends. Each state
 * also keeps a trace, the list of values it has taken, to which the sweep
 * appends the new value. After each state the sweep's change is updated with
 * the largest difference, over ALL states of the list, between the table and
 * the copy as it is at that moment. The Piglet solver of source/piglet.py
 * sweeps this way.
 */
module Synchronous {
  import opened Boundary
  import opened InPlace

  /** The copy being written, the decision table, the traces and the largest
      change seen so far. */
  datatype Jacobi<X> = Jacobi(V: map<State, real>, policy: map<State, X>, trace: map<State, seq<real>>, delta: real)

  /** The trace of s; the solver only appends to states that have one (see
      JacobiSweepKeys), so the default [] is never used by it. */
  function History(trace: map<State, seq<real>>, s: State): seq<real>
  {
    if s in trace then trace[s] else []
  }

  /** Processing one state: the rule reads the table `before` that the sweep
      started from, never the copy. */
  function JacobiStep<X>(rule: Rule<X>, before: map<State, real>, S: seq<State>, acc: Jacobi<X>, s: State): Jacobi<X>
  {
    var chosen := rule(before, s);
    var written := acc.V[s := chosen.1];
    Jacobi(written, acc.policy[s := chosen.0], acc.trace[s := History(acc.trace, s) + [chosen.1]],
           Max(acc.delta, MaxChange(before, written, S)))
  }

  /** Processing the states ss in order. */
  function JacobiSweep<X>(rule: Rule<X>, before: map<State, real>, S: seq<State>, acc: Jacobi<X>, ss: seq<State>): Jacobi<X>
    decreases |ss|
  {
    if ss == [] then acc
    else JacobiStep(rule, before, S, JacobiSweep(rule, before, S, acc, ss[..|ss| - 1]), ss[|ss| - 1])
  }

  /** A whole sweep over S from the tables of `from`: the copy starts equal to
      the table and the change starts at 0. */
  function SyncSweep<X>(rule: Rule<X>, S: seq<State>, from: Jacobi<X>): Jacobi<X>
  {
    JacobiSweep(rule, from.V, S, Jacobi(from.V, from.policy, from.trace, 0.0), S)
  }

  /** The tables after n sweeps over S. */
  function JacobiSweeps<X>(rule: Rule<X>, S: seq<State>, start: Jacobi<X>, n: nat): Jacobi<X>
  {
    if n == 0 then start else SyncSweep(rule, S, JacobiSweeps(rule, S, start, n - 1))
  }

  /** Extending the visited prefix by one state is one more step. */
  lemma JacobiSweepPrefix<X>(rule: Rule<X>, before: map<State, real>, S: seq<State>, acc: Jacobi<X>, n: nat)
    requires n < |S|
    ensures JacobiSweep(rule, before, S, acc, S[..n + 1]) == JacobiStep(rule, before, S, JacobiSweep(rule, before, S, acc, S[..n]), S[n])
  {
    assert S[..n + 1][..n] == S[..n];
  }

  /** All three tables have exactly the keys K. */
  ghost predicate SameKeys<X>(j: Jacobi<X>, K: set<State>)
  {
    j.V.Keys == K && j.policy.Keys == K && j.trace.Keys == K
  }

  /** A sweep over states that all have entries adds and removes none. */
  lemma {:induction false} JacobiSweepKeys<X>(rule: Rule<X>, before: map<State, real>, S: seq<State>, acc: Jacobi<X>, ss: seq<State>, K: set<State>)
    requires SameKeys(acc, K) && forall s :: s in ss ==> s in K
    ensures SameKeys(JacobiSweep(rule, before, S, acc, ss), K)
  {
    if ss != [] {
      assert forall t :: t in ss[..|ss| - 1] ==> t in ss;
      JacobiSweepKeys(rule, before, S, acc, ss[..|ss| - 1], K);
      assert ss[|ss| - 1] in ss;
    }
  }

  lemma {:induction false} JacobiSweepsKeys<X>(rule: Rule<X>, S: seq<State>, start: Jacobi<X>, n: nat, K: set<State>)
    requires SameKeys(start, K) && forall s :: s in S ==> s in K
    ensures SameKeys(JacobiSweeps(rule, S, start, n), K)
  {
    if n > 0 {
      JacobiSweepsKeys(rule, S, start, n - 1, K);
      var prev := JacobiSweeps(rule, S, start, n - 1);
      JacobiSweepKeys(rule, prev.V, S, Jacobi(prev.V, prev.policy, prev.trace, 0.0), S, K);
    }
  }

  /** Synchronous update: a visited state holds the rule applied to the table
      the sweep started from, wherever it comes in the order and whatever was
      written before it; an unvisited state keeps its entries. */
  lemma {:induction false} JacobiSweepAt<X>(rule: Rule<X>, before: map<State, real>, S: seq<State>, acc: Jacobi<X>, ss: seq<State>, s: State)
    ensures var r := JacobiSweep(rule, before, S, acc, ss);
            (s in ss ==> s in r.V && r.V[s] == rule(before, s).1 && s in r.policy && r.policy[s] == rule(before, s).0) &&
            (s !in ss ==> Stored(r.V, s) == Stored(acc.V, s) && (s in r.V <==> s in acc.V) &&
                          (s in r.policy <==> s in acc.policy) && (s in acc.policy ==> r.policy[s] == acc.policy[s]) &&
                          (s in r.trace <==> s in acc.trace))
  {
    if ss != [] {
      var init := ss[..|ss| - 1];
      JacobiSweepAt(rule, before, S, acc, init, s);
      if s in ss && s != ss[|ss| - 1] {
        var x :| 0 <= x < |ss| && ss[x] == s;
        assert init[x] == s;
      }
    }
  }

  /** Over distinct states, a visited state's trace gains exactly one entry,
      its new value; an unvisited state's trace is unchanged. */
  lemma {:induction false} JacobiSweepTrace<X>(rule: Rule<X>, before: map<State, real>, S: seq<State>, acc: Jacobi<X>, ss: seq<State>, s: State)
    requires Distinct(ss)
    ensures var r := JacobiSweep(rule, before, S, acc, ss);
            (s in ss ==> s in r.trace && r.trace[s] == History(acc.trace, s) + [rule(before, s).1]) &&
            (s !in ss ==> History(r.trace, s) == History(acc.trace, s))
  {
    if ss != [] {
      var init, last := ss[..|ss| - 1], ss[|ss| - 1];
      assert Distinct(init) by {
        forall x, y | 0 <= x < y < |init| ensures init[x] != init[y] {
          assert init[x] == ss[x] && init[y] == ss[y];
        }
      }
      JacobiSweepTrace(rule, before, S, acc, init, s);
      if s == last {
        assert s !in init;
      } else if s in ss {
        var x :| 0 <= x < |ss| && ss[x] == s;
        assert init[x] == s;
      }
    }
  }

  /** Started with the copy equal to the table and the change at 0, the
      change a sweep reports is the largest |before[r] - copy[r]| over S for
      the copy it ends with: each state only ever moves from its old value to
      its one new value, so the last comparison dominates the earlier ones. */
  lemma {:induction false} JacobiSweepDelta<X>(rule: Rule<X>, before: map<State, real>, S: seq<State>, acc: Jacobi<X>, ss: seq<State>)
    requires acc.V == before && acc.delta == 0.0 && AllIn(S, before)
    ensures var r := JacobiSweep(rule, before, S, acc, ss);
            AllIn(S, r.V) && r.delta == MaxChange(before, r.V, S)
  {
    if ss == [] {
      MaxChangeSelf(before, S);
    } else {
      var init, last := ss[..|ss| - 1], ss[|ss| - 1];
      var prev := JacobiSweep(rule, before, S, acc, init);
      var r := JacobiSweep(rule, before, S, acc, ss);
      JacobiSweepDelta(rule, before, S, acc, init);
      JacobiSweepAt(rule, before, S, acc, init, last);
      assert r.V == prev.V[last := rule(before, last).1];
      forall u | u in S
        ensures Abs(before[u] - prev.V[u]) <= Abs(before[u] - r.V[u])
      {
      }
      MaxChangeMonotone(before, prev.V, r.V, S);
    }
  }

  /** A sweep keeps every value a probability. */
  lemma {:induction false} JacobiSweepInUnit<X>(rule: Rule<X>, before: map<State, real>, S: seq<State>, acc: Jacobi<X>, ss: seq<State>)
    requires KeepsUnit(rule) && InUnit(before) && InUnit(acc.V)
    ensures InUnit(JacobiSweep(rule, before, S, acc, ss).V)
  {
    if ss != [] {
      JacobiSweepInUnit(rule, before, S, acc, ss[..|ss| - 1]);
      assert 0.0 <= rule(before, ss[|ss| - 1]).1 <= 1.0;
    }
  }

  lemma {:induction false} JacobiSweepsInUnit<X>(rule: Rule<X>, S: seq<State>, start: Jacobi<X>, n: nat)
    requires KeepsUnit(rule) && InUnit(start.V)
    ensures InUnit(JacobiSweeps(rule, S, start, n).V)
  {
    if n > 0 {
      JacobiSweepsInUnit(rule, S, start, n - 1);
      var prev := JacobiSweeps(rule, S, start, n - 1);
      JacobiSweepInUnit(rule, prev.V, S, Jacobi(prev.V, prev.policy, prev.trace, 0.0), S);
    }
  }

  /** Every trace ends with its state's current value. */
  ghost predicate TraceEnds(V: map<State, real>, trace: map<State, seq<real>>)
  {
    forall s :: s in trace ==> trace[s] != [] && trace[s][|trace[s]| - 1] == Stored(V, s)
  }

  /** A sweep over distinct states keeps every trace ending with the value. */
  lemma SyncSweepTraceEnds<X>(rule: Rule<X>, S: seq<State>, from: Jacobi<X>)
    requires Distinct(S) && TraceEnds(from.V, from.trace)
    ensures TraceEnds(SyncSweep(rule, S, from).V, SyncSweep(rule, S, from).trace)
  {
    var acc := Jacobi(from.V, from.policy, from.trace, 0.0);
    var r := SyncSweep(rule, S, from);
    forall s | s in r.trace
      ensures r.trace[s] != [] && r.trace[s][|r.trace[s]| - 1] == Stored(r.V, s)
    {
      JacobiSweepAt(rule, from.V, S, acc, S, s);
      JacobiSweepTrace(rule, from.V, S, acc, S, s);
    }
  }

  /** Over distinct states, the trace of a visited state after n sweeps is
      its whole history: n + 1 entries, entry m being its value after m
      sweeps. */
  lemma {:induction false} JacobiSweepsTrace<X>(rule: Rule<X>, S: seq<State>, start: Jacobi<X>, n: nat, s: State)
    requires Distinct(S) && s in S
    requires s in start.trace && start.trace[s] == [Stored(start.V, s)]
    ensures var t := History(JacobiSweeps(rule, S, start, n).trace, s);
            |t| == n + 1 && forall m :: 0 <= m <= n ==> t[m] == Stored(JacobiSweeps(rule, S, start, m).V, s)
  {
    if n > 0 {
      JacobiSweepsTrace(rule, S, start, n - 1, s);
      var prev := JacobiSweeps(rule, S, start, n - 1);
      var acc := Jacobi(prev.V, prev.policy, prev.trace, 0.0);
      JacobiSweepTrace(rule, prev.V, S, acc, S, s);
      JacobiSweepAt(rule, prev.V, S, acc, S, s);
      var t := History(JacobiSweeps(rule, S, start, n).trace, s);
      assert t == History(prev.trace, s) + [Stored(JacobiSweeps(rule, S, start, n).V, s)];
      forall m | 0 <= m <= n
        ensures t[m] == Stored(JacobiSweeps(rule, S, start, m).V, s)
      {
        if m < n {
          assert t[m] == History(prev.trace, s)[m];
        }
      }
    }
  }
}
