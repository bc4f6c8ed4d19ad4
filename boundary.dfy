/**
 * The state space of Pig and Piglet and the boundary-resolving value lookup
 * that the three solvers share.
 *
 * A state (i, j, k) holds the banked score i of the player about to move, the
 * banked score j of the opponent, and the turn total k that the mover has at
 * risk. With target score T the table holds exactly the states with
 * i < T, j < T and k < T - i; every other state is resolved by the lookup:
 * i + k >= T is a win (value 1) and, failing that, j >= T is a loss (value 0).
 */
module Boundary {

  datatype State = State(i: nat, j: nat, k: nat)

  datatype Option<T> = None | Some(value: T)

  /** What a value-iteration call reports: the discount check raises ValueError. */
  datatype Outcome = Done | ValueError(gamma: real)

  /** The mover's banked score plus turn total reaches the target. */
  predicate IsWin(T: int, s: State)
  {
    s.i + s.k >= T
  }

  /** The opponent's banked score reaches the target. */
  predicate IsLoss(T: int, s: State)
  {
    s.j >= T
  }

  /** The states the solvers enumerate and store a value for. */
  predicate InTable(T: int, s: State)
  {
    s.i < T && s.j < T && s.k < T - s.i
  }

  /** The keys of m are exactly the table states. */
  ghost predicate KeysAreTable<X>(T: int, m: map<State, X>)
  {
    forall s :: s in m <==> InTable(T, s)
  }

  /** Every stored value is a probability. */
  ghost predicate InUnit(V: map<State, real>)
  {
    forall s :: s in V ==> 0.0 <= V[s] <= 1.0
  }

  ghost predicate AllInTable(T: int, ss: seq<State>)
  {
    forall s :: s in ss ==> InTable(T, s)
  }

  /** Every state of ss has an entry in V. */
  ghost predicate AllIn<X>(ss: seq<State>, V: map<State, X>)
  {
    forall s :: s in ss ==> s in V
  }

  ghost predicate Distinct(ss: seq<State>)
  {
    forall x, y :: 0 <= x < y < |ss| ==> ss[x] != ss[y]
  }

  /** The two boundary rules are exhaustive: a state that is neither a win nor
      a loss is a table state, so the lookup below never misses a key. */
  lemma BoundaryExhaustive(T: int, s: State)
    ensures InTable(T, s) <==> !IsWin(T, s) && !IsLoss(T, s)
  {
  }

  /** The value lookup: a win takes precedence over a loss, and only a state
      that is neither reads the table. */
  function Value(T: int, V: map<State, real>, s: State): (r: real)
    ensures InUnit(V) ==> 0.0 <= r <= 1.0
  {
    if IsWin(T, s) then 1.0
    else if IsLoss(T, s) then 0.0
    else if s in V then V[s]
    else 0.0
  }

  function Max(a: real, b: real): (r: real)
    ensures r >= a && r >= b && (r == a || r == b)
  {
    if a >= b then a else b
  }

  function Abs(x: real): (r: real)
    ensures r >= 0.0 && (r == x || r == -x)
  {
    if x < 0.0 then -x else x
  }

  /** The maximum, by value, of two (action, value) pairs, keeping the first
      one when both values are equal: what a maximum with a key function
      returns over a two-element collection. */
  function FirstMax<A>(a0: A, v0: real, a1: A, v1: real): (r: (A, real))
    ensures r.1 >= v0 && r.1 >= v1
    ensures r == (a0, v0) || r == (a1, v1)
    ensures v1 > v0 ==> r == (a1, v1)
    ensures v1 <= v0 ==> r == (a0, v0)
  {
    if v1 > v0 then (a1, v1) else (a0, v0)
  }

  /** The entry of s in V; the solvers only read states that have one (see
      the key lemmas), so the default 0 is never used by them. */
  function Stored(V: map<State, real>, s: State): real
  {
    if s in V then V[s] else 0.0
  }

  /** The largest |V[r] - W[r]| over the states rs, and 0 when rs is empty
      (see MaxChangeIsMax). */
  function MaxChange(V: map<State, real>, W: map<State, real>, rs: seq<State>): (r: real)
    ensures r >= 0.0
    decreases |rs|
  {
    if rs == [] then 0.0
    else
      var last := rs[|rs| - 1];
      Max(MaxChange(V, W, rs[..|rs| - 1]), Abs(Stored(V, last) - Stored(W, last)))
  }

  /** MaxChange bounds every term and, on a non-empty list, equals one. */
  lemma {:induction false} MaxChangeIsMax(V: map<State, real>, W: map<State, real>, rs: seq<State>)
    requires AllIn(rs, V) && AllIn(rs, W)
    ensures forall x :: 0 <= x < |rs| ==> Abs(V[rs[x]] - W[rs[x]]) <= MaxChange(V, W, rs)
    ensures rs == [] ==> MaxChange(V, W, rs) == 0.0
    ensures rs != [] ==> exists x :: 0 <= x < |rs| && MaxChange(V, W, rs) == Abs(V[rs[x]] - W[rs[x]])
  {
    if rs != [] {
      var init := rs[..|rs| - 1];
      assert forall t :: t in init ==> t in rs;
      MaxChangeIsMax(V, W, init);
      forall x | 0 <= x < |init|
        ensures Abs(V[rs[x]] - W[rs[x]]) <= MaxChange(V, W, init)
      {
        assert rs[x] == init[x];
      }
      if init != [] && MaxChange(V, W, rs) == MaxChange(V, W, init) {
        var x :| 0 <= x < |init| && MaxChange(V, W, init) == Abs(V[init[x]] - W[init[x]]);
        assert rs[x] == init[x];
      } else {
        var last := |rs| - 1;
        assert MaxChange(V, W, rs) == Abs(V[rs[last]] - W[rs[last]]);
      }
    }
  }

  /** MaxChange grows with every term. */
  lemma MaxChangeMonotone(V: map<State, real>, W1: map<State, real>, W2: map<State, real>, rs: seq<State>)
    requires AllIn(rs, V) && AllIn(rs, W1) && AllIn(rs, W2)
    requires forall s :: s in rs ==> Abs(V[s] - W1[s]) <= Abs(V[s] - W2[s])
    ensures MaxChange(V, W1, rs) <= MaxChange(V, W2, rs)
  {
    if rs != [] {
      MaxChangeIsMax(V, W1, rs);
      MaxChangeIsMax(V, W2, rs);
      var x :| 0 <= x < |rs| && MaxChange(V, W1, rs) == Abs(V[rs[x]] - W1[rs[x]]);
      assert rs[x] in rs;
    }
  }

  /** MaxChange only depends on the entries of the listed states. */
  lemma {:induction false} MaxChangeFrame(V: map<State, real>, W1: map<State, real>, W2: map<State, real>, rs: seq<State>)
    requires AllIn(rs, V) && AllIn(rs, W1) && AllIn(rs, W2)
    requires forall s :: s in rs ==> W1[s] == W2[s]
    ensures MaxChange(V, W1, rs) == MaxChange(V, W2, rs)
  {
    if rs != [] {
      assert forall t :: t in rs[..|rs| - 1] ==> t in rs;
      MaxChangeFrame(V, W1, W2, rs[..|rs| - 1]);
      assert rs[|rs| - 1] in rs;
    }
  }

  /** MaxChange of a table against itself is 0. */
  lemma {:induction false} MaxChangeSelf(V: map<State, real>, rs: seq<State>)
    requires AllIn(rs, V)
    ensures MaxChange(V, V, rs) == 0.0
  {
    if rs != [] {
      assert forall t :: t in rs[..|rs| - 1] ==> t in rs;
      MaxChangeSelf(V, rs[..|rs| - 1]);
    }
  }

  // ---------------------------------------------------------------------
  // Enumeration of the table in the order of the nested loops
  // "for i < T, for j < T, for k < T - i", which is also the order of the
  // nested comprehension that builds the Python state lists.
  // ---------------------------------------------------------------------

  /** The table states from (i, j, k) onward, in loop order. */
  function From(T: int, i: nat, j: nat, k: nat): seq<State>
    decreases T - i, T - j, T - i - k
  {
    if i >= T then []
    else if j >= T then From(T, i + 1, 0, 0)
    else if k >= T - i then From(T, i, j + 1, 0)
    else [State(i, j, k)] + From(T, i, j, k + 1)
  }

  /** The list of all table states; empty when T <= 0. */
  function Enumerate(T: int): seq<State>
  {
    From(T, 0, 0, 0)
  }

  /** s comes at or after (i, j, k) in lexicographic order. */
  predicate AtOrAfter(s: State, i: nat, j: nat, k: nat)
  {
    s.i > i || (s.i == i && (s.j > j || (s.j == j && s.k >= k)))
  }

  lemma {:induction false} FromMember(T: int, i: nat, j: nat, k: nat, s: State)
    ensures s in From(T, i, j, k) <==> InTable(T, s) && AtOrAfter(s, i, j, k)
    decreases T - i, T - j, T - i - k
  {
    if i >= T {
    } else if j >= T {
      FromMember(T, i + 1, 0, 0, s);
    } else if k >= T - i {
      FromMember(T, i, j + 1, 0, s);
    } else {
      FromMember(T, i, j, k + 1, s);
    }
  }

  /** The enumeration lists exactly the table states. */
  lemma EnumerateMembers(T: int)
    ensures forall s :: s in Enumerate(T) <==> InTable(T, s)
  {
    forall s: State
      ensures s in Enumerate(T) <==> InTable(T, s)
    {
      FromMember(T, 0, 0, 0, s);
    }
  }

  /** Strict lexicographic order on (i, j, k). */
  predicate Precedes(a: State, b: State)
  {
    a.i < b.i || (a.i == b.i && (a.j < b.j || (a.j == b.j && a.k < b.k)))
  }

  ghost predicate Increasing(ss: seq<State>)
  {
    forall x, y :: 0 <= x < y < |ss| ==> Precedes(ss[x], ss[y])
  }

  lemma {:induction false} FromIncreasing(T: int, i: nat, j: nat, k: nat)
    ensures Increasing(From(T, i, j, k))
    decreases T - i, T - j, T - i - k
  {
    if i >= T {
    } else if j >= T {
      FromIncreasing(T, i + 1, 0, 0);
    } else if k >= T - i {
      FromIncreasing(T, i, j + 1, 0);
    } else {
      var rest := From(T, i, j, k + 1);
      FromIncreasing(T, i, j, k + 1);
      forall y | 0 <= y < |rest|
        ensures Precedes(State(i, j, k), rest[y])
      {
        FromMember(T, i, j, k + 1, rest[y]);
      }
      ConsIncreasing(State(i, j, k), rest);
    }
  }

  lemma ConsIncreasing(a: State, rest: seq<State>)
    requires Increasing(rest)
    requires forall y :: 0 <= y < |rest| ==> Precedes(a, rest[y])
    ensures Increasing([a] + rest)
  {
    var all := [a] + rest;
    forall x, y | 0 <= x < y < |all|
      ensures Precedes(all[x], all[y])
    {
      assert all[y] == rest[y - 1];
      if x > 0 {
        assert all[x] == rest[x - 1];
      }
    }
  }

  /** The loops list the table in strictly increasing lexicographic order,
      so each state exactly once. */
  lemma EnumerateIncreasing(T: int)
    ensures Increasing(Enumerate(T))
    ensures Distinct(Enumerate(T))
  {
    FromIncreasing(T, 0, 0, 0);
  }

  /** The list reversed, as an in-place list reversal leaves it. */
  function Reversed(s: seq<State>): (r: seq<State>)
    ensures |r| == |s|
    ensures forall x :: 0 <= x < |s| ==> r[x] == s[|s| - 1 - x]
  {
    if s == [] then [] else Reversed(s[1..]) + [s[0]]
  }

  /** The reversed enumeration: the table, each state once, in strictly
      decreasing lexicographic order. */
  lemma ReversedEnumeration(T: int)
    ensures forall s :: s in Reversed(Enumerate(T)) <==> InTable(T, s)
    ensures forall x, y :: 0 <= x < y < |Enumerate(T)| ==>
      Precedes(Reversed(Enumerate(T))[y], Reversed(Enumerate(T))[x])
    ensures Distinct(Reversed(Enumerate(T)))
    ensures AllInTable(T, Reversed(Enumerate(T)))
  {
    var e := Enumerate(T);
    EnumerateMembers(T);
    ReversedMembers(e);
    EnumerateIncreasing(T);
    ReversedOrder(e);
  }

  lemma ReversedMembers(e: seq<State>)
    ensures forall s :: s in Reversed(e) <==> s in e
  {
    var r := Reversed(e);
    forall s
      ensures s in r <==> s in e
    {
      if s in r {
        var x :| 0 <= x < |r| && r[x] == s;
        assert e[|e| - 1 - x] == s;
      }
      if s in e {
        var x :| 0 <= x < |e| && e[x] == s;
        assert r[|e| - 1 - x] == s;
      }
    }
  }

  lemma ReversedOrder(e: seq<State>)
    requires Increasing(e)
    ensures forall x, y :: 0 <= x < y < |e| ==> Precedes(Reversed(e)[y], Reversed(e)[x])
    ensures Distinct(Reversed(e))
  {
    var r := Reversed(e);
    forall x, y | 0 <= x < y < |e|
      ensures Precedes(r[y], r[x])
    {
      assert r[y] == e[|e| - 1 - y] && r[x] == e[|e| - 1 - x];
    }
  }
}
