/** The action space and the state space of the environment
    (`init_action_space`, Env.py:31-43, and `init_state_space`, Env.py:46-61). */
module Spaces {
  import opened CabTypes

  // ---------------------------------------------------------------------
  // Action space
  // ---------------------------------------------------------------------

  /** Number of genuine rides: every ordered pair of distinct locations. */
  const RideCount: int := M * (M - 1)

  /** The position of a ride in pickup-major, then drop, order: the rides
      with a smaller pickup come first (M - 1 of them per pickup), then the
      drops of the same pickup below `drop`, skipping the pickup itself. */
  function RideIndex(a: Action): (k: int)
    requires IsRide(a)
    ensures 0 <= k < RideCount
  {
    (a.pickup - 1) * (M - 1) + (if a.drop < a.pickup then a.drop - 1 else a.drop - 2)
  }

  /** The ride at position `k` of the action space: the inverse of RideIndex. */
  function RideAt(k: int): (a: Action)
    requires 0 <= k < RideCount
    ensures IsRide(a) && RideIndex(a) == k
  {
    var i := k / (M - 1) + 1;
    var r := k % (M - 1);
    Action(i, if r + 1 < i then r + 1 else r + 2)
  }

  lemma RideAtIndex(a: Action)
    requires IsRide(a)
    ensures RideAt(RideIndex(a)) == a
  {
    var k := RideIndex(a);
    var r := if a.drop < a.pickup then a.drop - 1 else a.drop - 2;
    assert k / (M - 1) == a.pickup - 1 && k % (M - 1) == r;
  }

  /** Strict pickup-major, then drop, order on actions. */
  predicate Precedes(a: Action, b: Action)
  {
    a.pickup < b.pickup || (a.pickup == b.pickup && a.drop < b.drop)
  }

  /** The action space as the environment builds it: all rides in order,
      then the offline action as the last element. */
  function ActionSpace(): (acts: seq<Action>)
    ensures |acts| == RideCount + 1 && acts[RideCount] == Offline
    ensures forall k :: 0 <= k < RideCount ==> IsRide(acts[k])
  {
    seq(RideCount, RideAt) + [Offline]
  }

  /** Size, last element, and the shape of every earlier element. */
  lemma ActionSpaceShape()
    ensures |ActionSpace()| == M * (M - 1) + 1
    ensures ActionSpace()[M * (M - 1)] == Offline
    ensures forall k :: 0 <= k < M * (M - 1) ==> IsRide(ActionSpace()[k]) && ActionSpace()[k] == RideAt(k)
  {
  }

  /** The rides appear in strictly increasing pickup-major order, so no ride
      appears twice. */
  lemma ActionSpaceOrdered(k1: int, k2: int)
    requires 0 <= k1 < k2 < RideCount
    ensures Precedes(ActionSpace()[k1], ActionSpace()[k2])
  {
    var a, b := RideAt(k1), RideAt(k2);
    assert ActionSpace()[k1] == a && ActionSpace()[k2] == b;
    if a.pickup == b.pickup {
      assert a.drop != b.drop;
    }
  }

  /** Every element of the action space appears exactly once. */
  lemma ActionSpaceDistinct(k1: int, k2: int)
    requires 0 <= k1 < k2 < |ActionSpace()|
    ensures ActionSpace()[k1] != ActionSpace()[k2]
  {
    if k2 < RideCount {
      ActionSpaceOrdered(k1, k2);
    } else {
      assert IsRide(ActionSpace()[k1]);
    }
  }

  /** An action is in the action space exactly when it is a genuine ride or
      the offline action; a ride sits at its RideIndex. */
  lemma ActionSpaceMembership(a: Action)
    ensures a in ActionSpace() <==> IsRide(a) || a == Offline
    ensures IsRide(a) ==> ActionSpace()[RideIndex(a)] == a
  {
    if IsRide(a) {
      RideAtIndex(a);
      assert ActionSpace()[RideIndex(a)] == a;
    }
    if a in ActionSpace() {
      var k :| 0 <= k < |ActionSpace()| && ActionSpace()[k] == a;
      if k < RideCount {
        assert a == RideAt(k);
      }
    }
  }

  /** `init_action_space`: the comprehension over pickups 1..M and drops
      1..M with pickup != drop, followed by the append of the offline action. */
  method InitActionSpace() returns (acts: seq<Action>)
    ensures acts == ActionSpace()
  {
    acts := [];
    var i := 1;
    while i <= M
      invariant 1 <= i <= M + 1
      invariant |acts| == (i - 1) * (M - 1)
      invariant forall k :: 0 <= k < |acts| ==> acts[k] == RideAt(k)
    {
      var j := 1;
      while j <= M
        invariant 1 <= j <= M + 1
        invariant |acts| == (i - 1) * (M - 1) + (if j <= i then j - 1 else j - 2)
        invariant forall k :: 0 <= k < |acts| ==> acts[k] == RideAt(k)
      {
        if i != j {
          var a := Action(i, j);
          RideAtIndex(a);
          acts := acts + [a];
        }
        j := j + 1;
      }
      i := i + 1;
    }
    acts := acts + [Offline];
  }

  // ---------------------------------------------------------------------
  // State space
  // ---------------------------------------------------------------------

  /** The states with location `l`, for every hour of `hs` and every day of
      `ds`, hours-major: the inner part of `itertools.product`. */
  function Slice(l: int, hs: seq<int>, ds: seq<int>): (r: seq<State>)
    ensures |r| == |hs| * |ds|
  {
    if hs == [] then []
    else seq(|ds|, c requires 0 <= c < |ds| => State(l, hs[0], ds[c])) + Slice(l, hs[1..], ds)
  }

  /** `itertools.product(ls, hs, ds)`, rightmost factor varying fastest. */
  function Product(ls: seq<int>, hs: seq<int>, ds: seq<int>): (r: seq<State>)
    ensures |r| == |ls| * (|hs| * |ds|)
  {
    if ls == [] then [] else Slice(ls[0], hs, ds) + Product(ls[1..], hs, ds)
  }

  lemma {:induction false} SliceAt(l: int, hs: seq<int>, ds: seq<int>, b: int, c: int)
    requires 0 <= b < |hs| && 0 <= c < |ds|
    ensures b * |ds| + c < |Slice(l, hs, ds)|
    ensures Slice(l, hs, ds)[b * |ds| + c] == State(l, hs[b], ds[c])
  {
    if b == 0 {
    } else {
      SliceAt(l, hs[1..], ds, b - 1, c);
      assert (b - 1) * |ds| + c + |ds| == b * |ds| + c;
    }
  }

  /** The element of the product at position (a * |hs| + b) * |ds| + c is the
      triple (ls[a], hs[b], ds[c]). */
  lemma {:induction false} ProductAt(ls: seq<int>, hs: seq<int>, ds: seq<int>, a: int, b: int, c: int)
    requires 0 <= a < |ls| && 0 <= b < |hs| && 0 <= c < |ds|
    ensures (a * |hs| + b) * |ds| + c < |Product(ls, hs, ds)|
    ensures Product(ls, hs, ds)[(a * |hs| + b) * |ds| + c] == State(ls[a], hs[b], ds[c])
  {
    var head, tail := Slice(ls[0], hs, ds), Product(ls[1..], hs, ds);
    assert Product(ls, hs, ds) == head + tail;
    if a == 0 {
      SliceAt(ls[0], hs, ds, b, c);
      assert (a * |hs| + b) * |ds| + c == b * |ds| + c;
    } else {
      var i := ((a - 1) * |hs| + b) * |ds| + c;
      ProductAt(ls[1..], hs, ds, a - 1, b, c);
      ShiftBlock(a, b, c, |hs|, |ds|);
      NonNegIndex(a - 1, b, c, |hs|, |ds|);
      assert 0 <= i < |tail|;
      assert i + |head| == (a * |hs| + b) * |ds| + c;
      assert (head + tail)[i + |head|] == tail[i];
    }
  }

  lemma NonNegIndex(a: int, b: int, c: int, h: int, d: int)
    requires 0 <= a && 0 <= b && 0 <= c && 0 <= h && 0 <= d
    ensures 0 <= (a * h + b) * d + c
  {
  }

  lemma ShiftBlock(a: int, b: int, c: int, h: int, d: int)
    ensures ((a - 1) * h + b) * d + c + h * d == (a * h + b) * d + c
  {
  }


  /** `init_state_space`: the product of locations 1..M, hours 0..T-1 and
      days 0..D-1, in that order. */
  function StateSpace(): (ss: seq<State>)
    ensures |ss| == M * T * D
  {
    Product(seq(M, i => i + 1), seq(T, i => i), seq(D, i => i))
  }

  /** Position of a state in the state space. */
  function StateIndex(s: State): int
  {
    ((s.loc - 1) * T + s.hour) * D + s.day
  }

  /** The state space holds M*T*D states; the state at position
      ((loc-1)*T + hour)*D + day is (loc, hour, day), and every element is a
      valid state found at its own StateIndex (so no state appears twice). */
  lemma StateSpaceExact()
    ensures |StateSpace()| == M * T * D
    ensures forall s :: ValidState(s) ==> 0 <= StateIndex(s) < |StateSpace()| && StateSpace()[StateIndex(s)] == s
    ensures forall n :: 0 <= n < |StateSpace()| ==> ValidState(StateSpace()[n]) && StateIndex(StateSpace()[n]) == n
  {
    var ls, hs, ds := seq(M, i => i + 1), seq(T, i => i), seq(D, i => i);
    forall s | ValidState(s)
      ensures 0 <= StateIndex(s) < |StateSpace()| && StateSpace()[StateIndex(s)] == s
    {
      ProductAt(ls, hs, ds, s.loc - 1, s.hour, s.day);
    }
    forall n | 0 <= n < |StateSpace()|
      ensures ValidState(StateSpace()[n]) && StateIndex(StateSpace()[n]) == n
    {
      var a, b, c := n / (T * D), (n / D) % T, n % D;
      assert n == (a * T + b) * D + c;
      ProductAt(ls, hs, ds, a, b, c);
    }
  }
}
