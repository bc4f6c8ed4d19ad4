/**
 * The Piglet solver of source/PigletSolver.java: the win probabilities live
 * in a goal x goal x goal array p and the decisions in a boolean array flip.
 * Value iteration sweeps the table in place, in increasing (i, j, k) order,
 * and repeats until a sweep changes no entry by epsilon or more.
 *
 * The table part of the arrays (the cells with k < goal - i) is mirrored by
 * the ghost maps Table and Flips, which lets the sweep be specified by the
 * same in-place fold as the Pig solver; the three loops of a sweep are
 * tied to that fold through InPlace.Nested.
 */
module PigletArrays {
  import opened Boundary
  import opened InPlace
  import PigletGame

  /** The choice of one cell: the larger of the two action values, with flip
      recorded only when flipping is strictly better, so ties hold. */
  function JavaChoice(goal: int, V: map<State, real>, s: State): (r: (bool, real))
    ensures r.0 <==> PigletGame.ValueAction(goal, V, s, PigletGame.Flip) > PigletGame.ValueAction(goal, V, s, PigletGame.Hold)
    ensures r.1 == PigletGame.ValueAction(goal, V, s, if r.0 then PigletGame.Flip else PigletGame.Hold)
    ensures r.1 >= PigletGame.ValueAction(goal, V, s, PigletGame.Flip)
    ensures r.1 >= PigletGame.ValueAction(goal, V, s, PigletGame.Hold)
  {
    var pFlip := PigletGame.ValueAction(goal, V, s, PigletGame.Flip);
    var pHold := PigletGame.ValueAction(goal, V, s, PigletGame.Hold);
    (pFlip > pHold, Max(pFlip, pHold))
  }

  /** The array solver decides as the Python Piglet solver does when its
      action set happens to yield hold before flip. */
  lemma JavaChoiceIsHoldFirst(goal: int, V: map<State, real>, s: State)
    ensures var b := PigletGame.Best(goal, V, PigletGame.Hold, s);
            JavaChoice(goal, V, s) == (b.0 == PigletGame.Flip, b.1)
  {
    var b := PigletGame.Best(goal, V, PigletGame.Hold, s);
    if b.0 == PigletGame.Hold {
      assert PigletGame.ValueAction(goal, V, s, PigletGame.Hold) >= PigletGame.ValueAction(goal, V, s, PigletGame.Flip);
    }
  }

  /** The choice rule of a sweep. */
  function JavaRule(goal: int): Rule<bool>
  {
    (V: map<State, real>, s: State) => JavaChoice(goal, V, s)
  }

  lemma JavaRuleKeepsUnit(goal: int)
    ensures KeepsUnit(JavaRule(goal))
  {
    forall V: map<State, real>, s: State | InUnit(V)
      ensures 0.0 <= JavaRule(goal)(V, s).1 <= 1.0
    {
      assert JavaRule(goal)(V, s) == JavaChoice(goal, V, s);
    }
  }

  /** The update of one cell, written out: the cell gets the value of
      JavaChoice over the current table, flip gets its decision, and the
      change is measured against the value replaced. */
  function Cell(goal: int, acc: Sweep<bool>, s: State): Sweep<bool>
  {
    var c := JavaChoice(goal, acc.V, s);
    Sweep(acc.V[s := c.1], acc.policy[s := c.0], Max(acc.delta, Abs(c.1 - Stored(acc.V, s))))
  }

  /** Updating a cell is one step of the in-place sweep with JavaRule. */
  lemma CellIsStep(goal: int, acc: Sweep<bool>, s: State)
    ensures Cell(goal, acc, s) == Step(JavaRule(goal), acc, s)
  {
    assert JavaRule(goal)(acc.V, s) == JavaChoice(goal, acc.V, s);
  }

  /** Gauss-Seidel in the array solver's terms: the cell at position m of a
      sweep gets the larger action value over the table that the first m
      cells left, and its flip entry is true exactly when flipping is
      strictly better. */
  lemma JavaSweepWrites(goal: int, acc: Sweep<bool>, m: nat)
    requires m < |Enumerate(goal)|
    ensures var ss := Enumerate(goal);
            var before := InPlaceSweep(JavaRule(goal), acc, ss[..m]).V;
            var r := InPlaceSweep(JavaRule(goal), acc, ss);
            var pFlip := PigletGame.ValueAction(goal, before, ss[m], PigletGame.Flip);
            var pHold := PigletGame.ValueAction(goal, before, ss[m], PigletGame.Hold);
            ss[m] in r.V && ss[m] in r.policy &&
            r.V[ss[m]] == Max(pFlip, pHold) && (r.policy[ss[m]] <==> pFlip > pHold)
  {
    var ss := Enumerate(goal);
    EnumerateIncreasing(goal);
    InPlaceSweepWrites(JavaRule(goal), acc, ss, m);
    var before := InPlaceSweep(JavaRule(goal), acc, ss[..m]).V;
    assert JavaRule(goal)(before, ss[m]) == JavaChoice(goal, before, ss[m]);
  }

  /** The loop stops after sweep n: the first sweep whose change is below
      epsilon, or the last sweep the fuel allows (at least one, as the loop
      is a do-while). */
  ghost predicate StopsAt(goal: int, epsilon: real, start: Sweep<bool>, fuel: nat, n: nat)
  {
    FirstBelow(JavaRule(goal), Enumerate(goal), start, epsilon, n) ||
    (n == (if fuel < 1 then 1 else fuel) && NoneBelow(JavaRule(goal), Enumerate(goal), start, epsilon, n))
  }

  /** The tables the constructor starts from: every probability 0, no flip. */
  ghost function Zeros(goal: int): Sweep<bool>
  {
    Sweep(map s | s in Enumerate(goal) :: 0.0, map s | s in Enumerate(goal) :: false, 0.0)
  }

  /** Cell (i, j, k) of a goal x goal x goal array lies outside the table. */
  predicate OffTable(goal: int, i: int, j: int, k: int)
  {
    0 <= i < goal && 0 <= j < goal && goal - i <= k < goal
  }

  class PigletSolver {
    const goal: nat
    const epsilon: real
    const p: array3<real>
    const flip: array3<bool>
    /** The table part of p (the cells with k < goal - i), as a map from states. */
    ghost var Table: map<State, real>
    /** The table part of flip, as a map from states. */
    ghost var Flips: map<State, bool>

    /** Both arrays are goal x goal x goal. */
    predicate Shape()
    {
      p.Length0 == goal && p.Length1 == goal && p.Length2 == goal &&
      flip.Length0 == goal && flip.Length1 == goal && flip.Length2 == goal
    }

    /** Table and Flips have exactly the table states as keys and agree with
        the arrays there; every probability lies in [0, 1]. The cells outside
        the table (k >= goal - i) keep the 0.0 and false they were allocated
        with, as no loop writes them. */
    ghost predicate Valid()
      reads this, p, flip
    {
      Shape() && KeysAreTable(goal, Table) && KeysAreTable(goal, Flips) && InUnit(Table) &&
      (forall s :: s in Table ==> p[s.i, s.j, s.k] == Table[s]) &&
      (forall s :: s in Flips ==> flip[s.i, s.j, s.k] == Flips[s]) &&
      (forall i, j, k {:trigger OffTable(goal, i, j, k)} :: OffTable(goal, i, j, k) ==> p[i, j, k] == 0.0 && !flip[i, j, k])
    }

    /** The probability that the player to move wins from (i, j, k): the
        boundary-resolving lookup over the table that p holds. */
    function PWin(i: nat, j: nat, k: nat): (r: real)
      reads this, p, flip
      requires Valid()
      ensures r == Value(goal, Table, State(i, j, k))
      ensures 0.0 <= r <= 1.0
    {
      if i + k >= goal then 1.0
      else if j >= goal then 0.0
      else
        assert State(i, j, k) in Table;
        p[i, j, k]
    }

    /** The two action values of cell (i, j, k) over the current arrays,
        each looked up through PWin. */
    method ActionValues(i: nat, j: nat, k: nat) returns (pFlip: real, pHold: real)
      requires Valid() && InTable(goal, State(i, j, k))
      ensures pFlip == PigletGame.ValueAction(goal, Table, State(i, j, k), PigletGame.Flip)
      ensures pHold == PigletGame.ValueAction(goal, Table, State(i, j, k), PigletGame.Hold)
    {
      pFlip := (1.0 - PWin(j, i, 0) + PWin(i, j, k + 1)) / 2.0;
      pHold := 1.0 - PWin(j, i + k, 0);
    }

    /** The body of the innermost loop of valueIterate: cell (i, j, k) gets
        the larger action value over the current arrays, flip records whether
        flipping was strictly better, and the largest change so far takes in
        the change of the cell. No other table cell changes. */
    method UpdateCell(i: nat, j: nat, k: nat, maxChange: real) returns (newMaxChange: real)
      requires Valid() && InTable(goal, State(i, j, k))
      modifies this, p, flip
      ensures Valid()
      ensures Sweep(Table, Flips, newMaxChange) == Cell(goal, Sweep(old(Table), old(Flips), maxChange), State(i, j, k))
    {
      ghost var s := State(i, j, k);
      assert s in Table;
      var oldProb := p[i, j, k];
      var pFlip, pHold := ActionValues(i, j, k);
      ghost var c := JavaChoice(goal, Table, s);
      assert c == (pFlip > pHold, Max(pFlip, pHold));
      Store(i, j, k, Max(pFlip, pHold), pFlip > pHold);
      var change := Abs(Max(pFlip, pHold) - oldProb);
      newMaxChange := Max(maxChange, change);
    }

    /** Writes probability v and decision f into cell (i, j, k) of the arrays;
        no other cell changes. */
    method Store(i: nat, j: nat, k: nat, v: real, f: bool)
      requires Valid() && InTable(goal, State(i, j, k)) && 0.0 <= v <= 1.0
      modifies this, p, flip
      ensures Valid()
      ensures Table == old(Table)[State(i, j, k) := v] && Flips == old(Flips)[State(i, j, k) := f]
    {
      ghost var s := State(i, j, k);
      p[i, j, k] := v;
      flip[i, j, k] := f;
      Table := Table[s := v];
      Flips := Flips[s := f];
      forall t | t in Table && t != s
        ensures p[t.i, t.j, t.k] == Table[t]
      {
        assert (t.i, t.j, t.k) != (i, j, k);
      }
      forall t | t in Flips && t != s
        ensures flip[t.i, t.j, t.k] == Flips[t]
      {
        assert (t.i, t.j, t.k) != (i, j, k);
      }
    }

    /** The innermost loop of valueIterate: the cells of row (i, j) in
        increasing k. What remains of the sweep after the row is what
        remained before it. */
    method SweepRow(i: nat, j: nat, maxChange: real) returns (newMaxChange: real)
      requires Valid() && i < goal && j < goal
      modifies this, p, flip
      ensures Valid()
      ensures Nested(JavaRule(goal), goal, Sweep(old(Table), old(Flips), maxChange), i, j, 0) ==
              Nested(JavaRule(goal), goal, Sweep(Table, Flips, newMaxChange), i, j + 1, 0)
    {
      ghost var final := Nested(JavaRule(goal), goal, Sweep(Table, Flips, maxChange), i, j, 0);
      newMaxChange := maxChange;
      var k := 0;
      while k < goal - i
        invariant 0 <= k <= goal - i && Valid()
        invariant Nested(JavaRule(goal), goal, Sweep(Table, Flips, newMaxChange), i, j, k) == final
      {
        ghost var cur := Sweep(Table, Flips, newMaxChange);
        newMaxChange := UpdateCell(i, j, k, newMaxChange);
        CellIsStep(goal, cur, State(i, j, k));
        k := k + 1;
      }
    }

    /** The middle loop: the rows of block i in increasing j. */
    method SweepBlock(i: nat, maxChange: real) returns (newMaxChange: real)
      requires Valid() && i < goal
      modifies this, p, flip
      ensures Valid()
      ensures Nested(JavaRule(goal), goal, Sweep(old(Table), old(Flips), maxChange), i, 0, 0) ==
              Nested(JavaRule(goal), goal, Sweep(Table, Flips, newMaxChange), i + 1, 0, 0)
    {
      ghost var final := Nested(JavaRule(goal), goal, Sweep(Table, Flips, maxChange), i, 0, 0);
      newMaxChange := maxChange;
      var j := 0;
      while j < goal
        invariant 0 <= j <= goal && Valid()
        invariant Nested(JavaRule(goal), goal, Sweep(Table, Flips, newMaxChange), i, j, 0) == final
      {
        newMaxChange := SweepRow(i, j, newMaxChange);
        j := j + 1;
      }
    }

    /** One sweep of the do-while body: every table cell, in increasing
        (i, j, k) order, gets the larger action value over the current
        arrays, and flip records whether flipping was strictly better. The
        result is the largest change. */
    method RunSweep() returns (maxChange: real)
      requires Valid()
      modifies this, p, flip
      ensures Valid()
      ensures Nested(JavaRule(goal), goal, Sweep(old(Table), old(Flips), 0.0), 0, 0, 0) == Sweep(Table, Flips, maxChange)
    {
      ghost var final := Nested(JavaRule(goal), goal, Sweep(Table, Flips, 0.0), 0, 0, 0);
      maxChange := 0.0;
      var i := 0;
      while i < goal
        invariant 0 <= i <= goal && Valid()
        invariant Nested(JavaRule(goal), goal, Sweep(Table, Flips, maxChange), i, 0, 0) == final
      {
        maxChange := SweepBlock(i, maxChange);
        i := i + 1;
      }
      NestedDone(JavaRule(goal), goal, Sweep(Table, Flips, maxChange), i, 0, 0);
    }

    /** The do-while loop of valueIterate, cut off after fuel sweeps (at least
        one): converged tells whether it stopped on a small change. */
    method ValueIterate(fuel: nat) returns (converged: bool, ghost sweeps: nat)
      requires Valid()
      modifies this, p, flip
      ensures Valid()
      ensures var start := Sweep(old(Table), old(Flips), 0.0);
              var after := Sweeps(JavaRule(goal), Enumerate(goal), start, sweeps);
              1 <= sweeps <= (if fuel < 1 then 1 else fuel) &&
              StopsAt(goal, epsilon, start, fuel, sweeps) &&
              Table == after.V && Flips == after.policy &&
              (converged <==> after.delta < epsilon)
    {
      ghost var rule := JavaRule(goal);
      ghost var start := Sweep(Table, Flips, 0.0);
      var maxChange := RunSweep();
      SweepsNested(rule, goal, start, 0);
      var n := 1;
      while maxChange >= epsilon && n < fuel
        invariant 1 <= n && (n <= fuel || n == 1)
        invariant Valid()
        invariant Sweep(Table, Flips, maxChange) == Sweeps(rule, Enumerate(goal), start, n)
        invariant NoneBelow(rule, Enumerate(goal), start, epsilon, n - 1)
        decreases fuel - n
      {
        NoneBelowExtend(rule, Enumerate(goal), start, epsilon, n);
        maxChange := RunSweep();
        SweepsNested(rule, goal, start, n);
        n := n + 1;
      }
      converged := maxChange < epsilon;
      if !converged {
        NoneBelowExtend(rule, Enumerate(goal), start, epsilon, n);
      }
      sweeps := n;
    }

    /** Allocates both arrays, all 0.0 and false, and runs value iteration
        with the given fuel. */
    constructor (goal: nat, epsilon: real, fuel: nat)
      ensures this.goal == goal && this.epsilon == epsilon
      ensures fresh(p) && fresh(flip) && Valid()
      ensures exists n: nat :: 1 <= n <= (if fuel < 1 then 1 else fuel) &&
                               StopsAt(goal, epsilon, Zeros(goal), fuel, n) &&
                               Table == Sweeps(JavaRule(goal), Enumerate(goal), Zeros(goal), n).V &&
                               Flips == Sweeps(JavaRule(goal), Enumerate(goal), Zeros(goal), n).policy
    {
      this.goal := goal;
      this.epsilon := epsilon;
      p := new real[goal, goal, goal]((a, b, c) => 0.0);
      flip := new bool[goal, goal, goal]((a, b, c) => false);
      EnumerateMembers(goal);
      Table := Zeros(goal).V;
      Flips := Zeros(goal).policy;
      new;
      var converged, sweeps := ValueIterate(fuel);
    }

    /** k is the hold threshold of (i, j): the least k below goal - i whose
        flip entry is false, or goal - i when there is none. */
    ghost predicate IsHoldThreshold(i: nat, j: nat, k: nat)
      reads flip
      requires Shape() && i < goal && j < goal
    {
      k <= goal - i && (forall m :: 0 <= m < k ==> flip[i, j, m]) && (k < goal - i ==> !flip[i, j, k])
    }

    /** The threshold is unique. */
    lemma HoldThresholdUnique(i: nat, j: nat, k1: nat, k2: nat)
      requires Shape() && i < goal && j < goal
      requires IsHoldThreshold(i, j, k1) && IsHoldThreshold(i, j, k2)
      ensures k1 == k2
    {
      if k1 < k2 {
        assert false;
      } else if k2 < k1 {
        assert false;
      }
    }

    /** The scan of outputHoldValues: for every (i, j), the hold threshold,
        collected row by row instead of printed. */
    method HoldValues() returns (rows: seq<seq<nat>>)
      requires Shape()
      ensures |rows| == goal
      ensures forall i :: 0 <= i < goal ==> |rows[i]| == goal
      ensures forall i, j :: 0 <= i < goal && 0 <= j < goal ==> IsHoldThreshold(i, j, rows[i][j])
    {
      rows := [];
      var i := 0;
      while i < goal
        invariant 0 <= i <= goal && |rows| == i
        invariant forall x :: 0 <= x < i ==> |rows[x]| == goal
        invariant forall x, y :: 0 <= x < i && 0 <= y < goal ==> IsHoldThreshold(x, y, rows[x][y])
      {
        var row: seq<nat> := [];
        var j := 0;
        while j < goal
          invariant 0 <= j <= goal && |row| == j
          invariant forall y :: 0 <= y < j ==> IsHoldThreshold(i, y, row[y])
        {
          var k := 0;
          while k < goal - i && flip[i, j, k]
            invariant 0 <= k <= goal - i
            invariant forall m :: 0 <= m < k ==> flip[i, j, m]
          {
            k := k + 1;
          }
          row := row + [k];
          j := j + 1;
        }
        rows := rows + [row];
        i := i + 1;
      }
    }
  }
}
