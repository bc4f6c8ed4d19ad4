/**
 * The Pig solver of source/pig.py: a die is rolled (a 1 loses the turn total
 * and passes the turn, 2..6 add to the turn total) or the turn total is
 * banked. Value iteration sweeps the states in place (Gauss-Seidel): each new
 * value is written at once and is read by the states processed after it in
 * the same sweep.
 */
module PigGame {
  import opened Boundary
  import opened InPlace

  datatype Action = Roll | Hold

  function Other(a: Action): Action
  {
    if a == Roll then Hold else Roll
  }

  /** The iteration order of the two-element action set, which the program
      does not fix (it follows string hashing). */
  predicate IsActionOrder(A: seq<Action>)
  {
    A == [Roll, Hold] || A == [Hold, Roll]
  }

  /** One step of the Bellman expectation: rolling averages the six faces
      (a 1 passes the turn with nothing banked, 2..6 add to the turn total);
      holding banks the turn total and passes the turn. Passing the turn to
      the opponent in state s' is worth 1 - value(s'). */
  function ValueAction(T: int, V: map<State, real>, s: State, a: Action): (r: real)
    ensures InUnit(V) ==> 0.0 <= r <= 1.0
  {
    match a
    case Roll =>
      var rolled :=
        Value(T, V, State(s.i, s.j, s.k + 2)) + Value(T, V, State(s.i, s.j, s.k + 3)) +
        Value(T, V, State(s.i, s.j, s.k + 4)) + Value(T, V, State(s.i, s.j, s.k + 5)) +
        Value(T, V, State(s.i, s.j, s.k + 6));
      (1.0 - Value(T, V, State(s.j, s.i, 0)) + rolled) / 6.0
    case Hold =>
      1.0 - Value(T, V, State(s.j, s.i + s.k, 0))
  }

  /** Every state that ValueAction looks up from a table state is a table
      state or a win, never a loss: the table read never misses and the loss
      rule never answers from inside the table. */
  lemma LookupsStayInTable(T: int, s: State)
    requires InTable(T, s)
    ensures InTable(T, State(s.j, s.i + s.k, 0))
    ensures InTable(T, State(s.j, s.i, 0))
    ensures forall k: nat :: s.k + 2 <= k <= s.k + 6 ==>
      (IsWin(T, State(s.i, s.j, k)) || InTable(T, State(s.i, s.j, k))) && !IsLoss(T, State(s.i, s.j, k))
  {
  }

  /** The best action and its value when the actions are tried in the order
      first, Other(first): the first action whose value is largest. */
  function Best(T: int, V: map<State, real>, first: Action, s: State): (r: (Action, real))
    ensures r.1 == ValueAction(T, V, s, r.0)
    ensures ValueAction(T, V, s, Roll) <= r.1 && ValueAction(T, V, s, Hold) <= r.1
    ensures r.0 == first <==> ValueAction(T, V, s, first) >= ValueAction(T, V, s, Other(first))
  {
    FirstMax(first, ValueAction(T, V, s, first), Other(first), ValueAction(T, V, s, Other(first)))
  }

  /** The choice rule of a sweep: record the best action, write its value. */
  function PigRule(T: int, first: Action): Rule<Option<Action>>
  {
    (V: map<State, real>, s: State) => var b := Best(T, V, first, s); (Some(b.0), b.1)
  }

  /** The Pig rule maps probabilities to probabilities. */
  lemma PigRuleKeepsUnit(T: int, first: Action)
    ensures KeepsUnit(PigRule(T, first))
  {
    forall V: map<State, real>, s: State | InUnit(V)
      ensures 0.0 <= PigRule(T, first)(V, s).1 <= 1.0
    {
      var b := Best(T, V, first, s);
      assert PigRule(T, first)(V, s).1 == b.1;
    }
  }

  /** Gauss-Seidel in Pig's terms: over distinct states, the entry written for
      ss[m] is the best action over the table that the first m states left,
      with that action's value, which no other action exceeds. */
  lemma PigSweepWrites(T: int, first: Action, acc: Sweep<Option<Action>>, ss: seq<State>, m: nat)
    requires Distinct(ss) && m < |ss|
    ensures var before := InPlaceSweep(PigRule(T, first), acc, ss[..m]).V;
            var r := InPlaceSweep(PigRule(T, first), acc, ss);
            ss[m] in r.V && ss[m] in r.policy && r.policy[ss[m]].Some? &&
            r.V[ss[m]] == ValueAction(T, before, ss[m], r.policy[ss[m]].value) &&
            ValueAction(T, before, ss[m], Roll) <= r.V[ss[m]] &&
            ValueAction(T, before, ss[m], Hold) <= r.V[ss[m]]
  {
    InPlaceSweepWrites(PigRule(T, first), acc, ss, m);
    var before := InPlaceSweep(PigRule(T, first), acc, ss[..m]).V;
    var b := Best(T, before, first, ss[m]);
    assert PigRule(T, first)(before, ss[m]) == (Some(b.0), b.1);
  }

  class Pig {
    const T: int
    const S: seq<State>
    const A: seq<Action>
    var V: map<State, real>
    var policy: map<State, Option<Action>>
    var iter: int
    var converge: Option<bool>

    /** S lists table states, each once; V and policy have exactly the table
        states as keys; every value is a probability. */
    ghost predicate Valid()
      reads this
    {
      AllInTable(T, S) && Distinct(S) && IsActionOrder(A) &&
      KeysAreTable(T, V) && KeysAreTable(T, policy) && InUnit(V)
    }

    /** The state list is the table in decreasing lexicographic order; every
        value starts at 0 and no action is chosen yet. rollFirst stands for
        the iteration order of the action set. */
    constructor (T: int := 2, rollFirst: bool)
      ensures Valid()
      ensures this.T == T && A == (if rollFirst then [Roll, Hold] else [Hold, Roll])
      ensures S == Reversed(Enumerate(T))
      ensures forall s :: s in V ==> V[s] == 0.0
      ensures forall s :: s in policy ==> policy[s] == None
      ensures iter == 0 && converge == None
    {
      ReversedEnumeration(T);
      var states := Reversed(Enumerate(T));
      var values := map s | s in states :: 0.0;
      var chosen := map s | s in states :: None;
      assert KeysAreTable(T, values) && KeysAreTable(T, chosen) && InUnit(values);
      this.T, S, V, policy := T, states, values, chosen;
      A := if rollFirst then [Roll, Hold] else [Hold, Roll];
      iter := 0;
      converge := None;
    }

    /** One in-place sweep over S, returning its largest change. The entry
        being replaced always exists (InPlaceSweepKeys), so Stored reads it. */
    method RunSweep() returns (delta: real)
      requires Valid()
      modifies this`V, this`policy
      ensures Valid()
      ensures Sweep(V, policy, delta) == InPlaceSweep(PigRule(T, A[0]), Sweep(old(V), old(policy), 0.0), S)
    {
      ghost var rule := PigRule(T, A[0]);
      ghost var start := Sweep(V, policy, 0.0);
      var values, chosen, first := V, policy, A[0];
      delta := 0.0;
      var n := 0;
      while n < |S|
        invariant 0 <= n <= |S|
        invariant Sweep(values, chosen, delta) == InPlaceSweep(rule, start, S[..n])
      {
        var s := S[n];
        var best := Best(T, values, first, s);
        assert rule(values, s) == (Some(best.0), best.1);
        InPlaceSweepPrefix(rule, start, S, n);
        chosen := chosen[s := Some(best.0)];
        delta := Max(delta, Abs(best.1 - Stored(values, s)));
        values := values[s := best.1];
        n := n + 1;
      }
      assert S[..n] == S;
      V, policy := values, chosen;
      assert AllIn(S, start.V) by {
        forall t | t in S ensures t in start.V {
          assert InTable(T, t);
        }
      }
      InPlaceSweepKeys(rule, start, S);
      PigRuleKeepsUnit(T, A[0]);
      InPlaceSweepInUnit(rule, start, S);
    }

    /** Validates gamma, then runs up to iterMax in-place sweeps, stopping at
        the first whose largest change is below tol. */
    method ValueIteration(gamma: real := 1.0, tol: real := 0.001, iterMax: int := 1000) returns (r: Outcome)
      requires Valid()
      modifies this`V, this`policy, this`iter, this`converge
      ensures Valid()
      ensures !(0.0 < gamma <= 1.0) ==>
        r == ValueError(gamma) && V == old(V) && policy == old(policy) &&
        iter == old(iter) && converge == old(converge)
      ensures 0.0 < gamma <= 1.0 ==> r == Done && converge != None
      ensures 0.0 < gamma <= 1.0 && converge == Some(true) ==>
        1 <= iter <= iterMax &&
        var after := Sweeps(PigRule(T, A[0]), S, Sweep(old(V), old(policy), 0.0), iter);
        FirstBelow(PigRule(T, A[0]), S, Sweep(old(V), old(policy), 0.0), tol, iter) &&
        V == after.V && policy == after.policy
      ensures 0.0 < gamma <= 1.0 && converge == Some(false) ==>
        var n := if iterMax < 0 then 0 else iterMax;
        var after := Sweeps(PigRule(T, A[0]), S, Sweep(old(V), old(policy), 0.0), n);
        iter == iterMax &&
        NoneBelow(PigRule(T, A[0]), S, Sweep(old(V), old(policy), 0.0), tol, iterMax) &&
        V == after.V && policy == after.policy
    {
      if !(0.0 < gamma <= 1.0) {
        return ValueError(gamma);
      }
      ghost var rule := PigRule(T, A[0]);
      ghost var start := Sweep(V, policy, 0.0);
      ghost var cur := start;
      var n := 1;
      while n <= iterMax
        invariant 1 <= n <= (if iterMax < 0 then 0 else iterMax) + 1
        invariant Valid()
        invariant cur == Sweeps(rule, S, start, n - 1)
        invariant V == cur.V && policy == cur.policy
        invariant NoneBelow(rule, S, start, tol, n - 1)
      {
        var delta := RunSweep();
        cur := Sweeps(rule, S, start, n);
        assert Sweep(V, policy, delta) == cur;
        if delta < tol {
          iter := n;
          converge := Some(true);
          return Done;
        }
        NoneBelowExtend(rule, S, start, tol, n);
        n := n + 1;
      }
      assert n - 1 == (if iterMax < 0 then 0 else iterMax);
      iter := iterMax;
      converge := Some(false);
      return Done;
    }
  }
}
