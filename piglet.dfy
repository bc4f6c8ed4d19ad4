/**
 * The Piglet solver of source/piglet.py: a coin is flipped (tails loses the
 * turn total and passes the turn, heads adds 1 to it) or the turn total is
 * banked. Value iteration sweeps synchronously (Jacobi): every new value is
 * computed from the table as it stood when the sweep began, and every state
 * keeps the trace of the values it has taken.
 */
module PigletGame {
  import opened Boundary
  import opened InPlace
  import opened Synchronous

  datatype Action = Flip | Hold

  function Other(a: Action): Action
  {
    if a == Flip then Hold else Flip
  }

  /** The iteration order of the two-element action set, which the program
      does not fix (it follows string hashing). */
  predicate IsActionOrder(A: seq<Action>)
  {
    A == [Flip, Hold] || A == [Hold, Flip]
  }

  /** One step of the Bellman expectation: flipping averages tails (the turn
      passes with nothing banked) and heads (the turn total grows by 1);
      holding banks the turn total and passes the turn. */
  function ValueAction(T: int, V: map<State, real>, s: State, a: Action): (r: real)
    ensures InUnit(V) ==> 0.0 <= r <= 1.0
  {
    match a
    case Flip => (1.0 - Value(T, V, State(s.j, s.i, 0)) + Value(T, V, State(s.i, s.j, s.k + 1))) / 2.0
    case Hold => 1.0 - Value(T, V, State(s.j, s.i + s.k, 0))
  }

  /** Every state that ValueAction looks up from a table state is a table
      state or a win, never a loss. */
  lemma LookupsStayInTable(T: int, s: State)
    requires InTable(T, s)
    ensures InTable(T, State(s.j, s.i + s.k, 0)) && InTable(T, State(s.j, s.i, 0))
    ensures IsWin(T, State(s.i, s.j, s.k + 1)) || InTable(T, State(s.i, s.j, s.k + 1))
    ensures !IsLoss(T, State(s.i, s.j, s.k + 1))
  {
  }

  /** The best action and its value when the actions are tried in the order
      first, Other(first): the first action whose value is largest. */
  function Best(T: int, V: map<State, real>, first: Action, s: State): (r: (Action, real))
    ensures r.1 == ValueAction(T, V, s, r.0)
    ensures ValueAction(T, V, s, Flip) <= r.1 && ValueAction(T, V, s, Hold) <= r.1
    ensures r.0 == first <==> ValueAction(T, V, s, first) >= ValueAction(T, V, s, Other(first))
  {
    FirstMax(first, ValueAction(T, V, s, first), Other(first), ValueAction(T, V, s, Other(first)))
  }

  /** The choice rule of a sweep: record the best action, write its value. */
  function PigletRule(T: int, first: Action): Rule<Option<Action>>
  {
    (V: map<State, real>, s: State) => var b := Best(T, V, first, s); (Some(b.0), b.1)
  }

  lemma PigletRuleKeepsUnit(T: int, first: Action)
    ensures KeepsUnit(PigletRule(T, first))
  {
    forall V: map<State, real>, s: State | InUnit(V)
      ensures 0.0 <= PigletRule(T, first)(V, s).1 <= 1.0
    {
      var b := Best(T, V, first, s);
      assert PigletRule(T, first)(V, s).1 == b.1;
    }
  }

  /** Jacobi in Piglet's terms: after a sweep over S, every state of S holds
      the best action over the table the sweep started from, with that
      action's value, which no other action exceeds. */
  lemma PigletSweepReadsStart(T: int, first: Action, S: seq<State>, from: Jacobi<Option<Action>>, s: State)
    requires s in S
    ensures var r := SyncSweep(PigletRule(T, first), S, from);
            s in r.V && s in r.policy && r.policy[s].Some? &&
            r.V[s] == ValueAction(T, from.V, s, r.policy[s].value) &&
            ValueAction(T, from.V, s, Flip) <= r.V[s] && ValueAction(T, from.V, s, Hold) <= r.V[s]
  {
    var acc := Jacobi(from.V, from.policy, from.trace, 0.0);
    JacobiSweepAt(PigletRule(T, first), from.V, S, acc, S, s);
    var b := Best(T, from.V, first, s);
    assert PigletRule(T, first)(from.V, s) == (Some(b.0), b.1);
  }

  /** A sweep keeps the table's keys, keeps every value a probability and
      keeps every trace ending with its state's value. */
  lemma PigletSweepKeepsTable(T: int, S: seq<State>, first: Action, from: Jacobi<Option<Action>>)
    requires AllInTable(T, S) && Distinct(S)
    requires KeysAreTable(T, from.V) && KeysAreTable(T, from.policy) && KeysAreTable(T, from.trace)
    requires InUnit(from.V) && TraceEnds(from.V, from.trace)
    ensures var r := SyncSweep(PigletRule(T, first), S, from);
            KeysAreTable(T, r.V) && KeysAreTable(T, r.policy) && KeysAreTable(T, r.trace) &&
            InUnit(r.V) && TraceEnds(r.V, r.trace)
  {
    var rule := PigletRule(T, first);
    var acc := Jacobi(from.V, from.policy, from.trace, 0.0);
    JacobiSweepKeys(rule, from.V, S, acc, S, from.V.Keys);
    PigletRuleKeepsUnit(T, first);
    JacobiSweepInUnit(rule, from.V, S, acc, S);
    SyncSweepTraceEnds(rule, S, from);
  }

  /** The loop of value_iteration stops after sweep n when that sweep's
      change is below tol or the counter, n + 1 after n sweeps, has reached
      iterMax. */
  ghost predicate Stops(rule: Rule<Option<Action>>, S: seq<State>, start: Jacobi<Option<Action>>, tol: real, iterMax: int, n: nat)
  {
    JacobiSweeps(rule, S, start, n).delta < tol || n + 1 >= iterMax
  }

  /** None of the sweeps 1..n stops the loop. */
  ghost predicate NoStop(rule: Rule<Option<Action>>, S: seq<State>, start: Jacobi<Option<Action>>, tol: real, iterMax: int, n: int)
  {
    forall m: nat :: 1 <= m <= n ==> !Stops(rule, S, start, tol, iterMax, m)
  }

  /** Sweep n is the one after which the loop stops. */
  ghost predicate FirstStop(rule: Rule<Option<Action>>, S: seq<State>, start: Jacobi<Option<Action>>, tol: real, iterMax: int, n: nat)
  {
    1 <= n && Stops(rule, S, start, tol, iterMax, n) && NoStop(rule, S, start, tol, iterMax, n - 1)
  }

  lemma NoStopExtend(rule: Rule<Option<Action>>, S: seq<State>, start: Jacobi<Option<Action>>, tol: real, iterMax: int, n: nat)
    requires NoStop(rule, S, start, tol, iterMax, n - 1) && !Stops(rule, S, start, tol, iterMax, n)
    ensures NoStop(rule, S, start, tol, iterMax, n)
  {
    forall m: nat | 1 <= m <= n
      ensures !Stops(rule, S, start, tol, iterMax, m)
    {
      if m < n {
        assert 1 <= m <= n - 1;
      }
    }
  }

  /** The loop runs at least one sweep and at most max(1, iterMax - 1). */
  lemma FirstStopBound(rule: Rule<Option<Action>>, S: seq<State>, start: Jacobi<Option<Action>>, tol: real, iterMax: int, n: nat)
    requires FirstStop(rule, S, start, tol, iterMax, n)
    ensures 1 <= n <= (if iterMax - 1 > 1 then iterMax - 1 else 1)
  {
    if n > 1 {
      assert !Stops(rule, S, start, tol, iterMax, n - 1);
    }
  }

  /** The sweep after which the loop stops is unique. */
  lemma FirstStopUnique(rule: Rule<Option<Action>>, S: seq<State>, start: Jacobi<Option<Action>>, tol: real, iterMax: int, n1: nat, n2: nat)
    requires FirstStop(rule, S, start, tol, iterMax, n1) && FirstStop(rule, S, start, tol, iterMax, n2)
    ensures n1 == n2
  {
    if n1 < n2 {
      assert false;
    } else if n2 < n1 {
      assert false;
    }
  }

  class Piglet {
    const T: int
    const S: seq<State>
    const A: seq<Action>
    var V: map<State, real>
    var policy: map<State, Option<Action>>
    var trace: map<State, seq<real>>
    var iter: int
    var converge: Option<bool>

    /** S lists table states, each once; V, policy and trace have exactly the
        table states as keys; every value is a probability and every trace
        ends with its state's value. */
    ghost predicate Valid()
      reads this
    {
      AllInTable(T, S) && Distinct(S) && IsActionOrder(A) &&
      KeysAreTable(T, V) && KeysAreTable(T, policy) && KeysAreTable(T, trace) &&
      InUnit(V) && TraceEnds(V, trace)
    }

    /** The state list is the table in decreasing lexicographic order; every
        value starts at 0, no action is chosen and every trace is [0].
        flipFirst stands for the iteration order of the action set. */
    constructor (T: int := 2, flipFirst: bool)
      ensures Valid()
      ensures this.T == T && A == (if flipFirst then [Flip, Hold] else [Hold, Flip])
      ensures S == Reversed(Enumerate(T))
      ensures forall s :: s in V ==> V[s] == 0.0
      ensures forall s :: s in policy ==> policy[s] == None
      ensures forall s :: s in trace ==> trace[s] == [0.0]
      ensures iter == 0 && converge == None
    {
      ReversedEnumeration(T);
      var states := Reversed(Enumerate(T));
      var values := map s | s in states :: 0.0;
      var chosen := map s | s in states :: None;
      var traces := map s | s in states :: [0.0];
      assert KeysAreTable(T, values) && KeysAreTable(T, chosen) && KeysAreTable(T, traces);
      assert InUnit(values) && TraceEnds(values, traces);
      this.T, S, V, policy, trace := T, states, values, chosen, traces;
      A := if flipFirst then [Flip, Hold] else [Hold, Flip];
      iter := 0;
      converge := None;
    }

    /** One synchronous sweep over S: policy and trace are written as the
        states are visited, the new values go to a copy of V that replaces V
        at the end. Returns the sweep's change. */
    method RunSweep() returns (delta: real)
      requires Valid()
      modifies this`V, this`policy, this`trace
      ensures Valid()
      ensures Jacobi(V, policy, trace, delta) == SyncSweep(PigletRule(T, A[0]), S, Jacobi(old(V), old(policy), old(trace), 0.0))
    {
      ghost var rule := PigletRule(T, A[0]);
      ghost var start := Jacobi(V, policy, trace, 0.0);
      var before, first := V, A[0];
      var newV, chosen, traces := V, policy, trace;
      delta := 0.0;
      var n := 0;
      while n < |S|
        invariant 0 <= n <= |S|
        invariant Jacobi(newV, chosen, traces, delta) == JacobiSweep(rule, before, S, start, S[..n])
      {
        var s := S[n];
        var best := Best(T, before, first, s);
        assert rule(before, s) == (Some(best.0), best.1);
        JacobiSweepPrefix(rule, before, S, start, n);
        chosen := chosen[s := Some(best.0)];
        newV := newV[s := best.1];
        traces := traces[s := History(traces, s) + [best.1]];
        delta := Max(delta, MaxChange(before, newV, S));
        n := n + 1;
      }
      assert S[..n] == S;
      V, policy, trace := newV, chosen, traces;
      PigletSweepKeepsTable(T, S, first, start);
    }

    /** Validates gamma, then sweeps until a sweep's change is below tol or
        the counter (1 before the first sweep, one more after each) reaches
        iterMax. Reaching the counter limit records iter = iterMax and
        converge = false whatever the last change was; otherwise, on an
        instance whose converge is still unset, iter = sweeps + 1 and
        converge = true, and on one that already has a verdict both keep
        their values. */
    method ValueIteration(gamma: real := 1.0, tol: real := 0.000001, iterMax: int := 1000) returns (r: Outcome, ghost sweeps: nat)
      requires Valid()
      modifies this`V, this`policy, this`trace, this`iter, this`converge
      ensures Valid()
      ensures !(0.0 < gamma <= 1.0) ==>
        r == ValueError(gamma) && V == old(V) && policy == old(policy) && trace == old(trace) &&
        iter == old(iter) && converge == old(converge)
      ensures 0.0 < gamma <= 1.0 ==>
        var start := Jacobi(old(V), old(policy), old(trace), 0.0);
        var after := JacobiSweeps(PigletRule(T, A[0]), S, start, sweeps);
        r == Done && FirstStop(PigletRule(T, A[0]), S, start, tol, iterMax, sweeps) &&
        V == after.V && policy == after.policy && trace == after.trace
      ensures 0.0 < gamma <= 1.0 && sweeps + 1 >= iterMax ==>
        iter == iterMax && converge == Some(false)
      ensures 0.0 < gamma <= 1.0 && sweeps + 1 < iterMax ==>
        if old(converge) == None then iter == sweeps + 1 && converge == Some(true)
        else iter == old(iter) && converge == old(converge)
    {
      if !(0.0 < gamma <= 1.0) {
        return ValueError(gamma), 0;
      }
      ghost var rule := PigletRule(T, A[0]);
      ghost var start := Jacobi(V, policy, trace, 0.0);
      ghost var cur := start;
      var count := 1;
      sweeps := 0;
      while true
        invariant count == sweeps + 1
        invariant Valid()
        invariant cur == JacobiSweeps(rule, S, start, sweeps)
        invariant V == cur.V && policy == cur.policy && trace == cur.trace
        invariant NoStop(rule, S, start, tol, iterMax, sweeps)
        invariant iter == old(iter) && converge == old(converge)
        decreases iterMax - count
      {
        var delta := RunSweep();
        sweeps := sweeps + 1;
        cur := JacobiSweeps(rule, S, start, sweeps);
        assert Jacobi(V, policy, trace, delta) == cur;
        count := count + 1;
        if delta < tol || count >= iterMax {
          if count >= iterMax {
            iter := iterMax;
            converge := Some(false);
          }
          break;
        }
        NoStopExtend(rule, S, start, tol, iterMax, sweeps);
      }
      if converge == None {
        iter := count;
        converge := Some(true);
      }
      return Done, sweeps;
    }
  }
}
