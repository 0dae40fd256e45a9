/** The `CabDriver` environment object (Env.py:17-235): it builds the action
    and state spaces once, picks an initial state, offers ride requests and
    hands its spaces back on reset. The reward, transition, wrap and encoding
    functions, which use no field of the object, are in their own modules. */
module Environment {
  import opened CabTypes
  import opened Spaces

  class CabDriver {
    /** Every ride plus the offline action, in construction order. */
    const actionSpace: seq<Action>
    /** Every (location, hour, day) triple, in product order. */
    const stateSpace: seq<State>
    /** The state an episode starts from. */
    const stateInit: State

    ghost predicate Valid()
    {
      && actionSpace == ActionSpace()
      && stateSpace == StateSpace()
      && ValidState(stateInit)
      && stateInit in stateSpace
    }

    /** `__init__`: `initIndex` stands for the uniformly drawn position of the
        initial state in the state space. */
    constructor (initIndex: int)
      requires 0 <= initIndex < M * T * D
      ensures Valid()
      ensures stateInit == stateSpace[initIndex]
    {
      var acts := InitActionSpace();
      var states := StateSpace();
      StateSpaceExact();
      actionSpace := acts;
      stateSpace := states;
      stateInit := states[initIndex];
    }

    /** `requests`: the ride requests offered in `state`.
        `draw` stands for the Poisson draw made for the state's location;
        `order` stands for the random choice of distinct ride indices, of
        which `random.sample` keeps the first `count` once the draw is capped
        at MaxRequests. The returned actions are the chosen rides followed by
        the offline action.
        The returned index list mixes two kinds of index. Its first `count`
        entries are positions in the action space (of the chosen rides). Its
        last entry -- `count`, or 0 when no ride was drawn -- is the position
        of the offline action in the returned actions; read as a position in
        the action space it names a ride, never the offline action. */
    method Requests(state: State, draw: nat, order: seq<int>)
      returns (possibleActionsIndex: seq<int>, actions: seq<Action>)
      requires Valid()
      requires ValidLocation(state.loc)
      requires |order| >= MaxRequests
      requires forall k :: 0 <= k < |order| ==> 0 <= order[k] < |actionSpace| - 1
      requires forall k1, k2 :: 0 <= k1 < k2 < |order| ==> order[k1] != order[k2]
      ensures var count := if draw > MaxRequests then MaxRequests else draw;
              && |actions| == count + 1
              && (forall k :: 0 <= k < count ==> actions[k] == actionSpace[order[k]] && IsRide(actions[k]))
              && actions[count] == Offline
              && possibleActionsIndex == (if count == 0 then [0] else order[..count] + [count])
              && |possibleActionsIndex| == (if count == 0 then 1 else count + 1)
              && (forall k :: 0 <= k < count ==> actions[k] == actionSpace[possibleActionsIndex[k]])
              && var last := possibleActionsIndex[|possibleActionsIndex| - 1];
                 0 <= last < |actionSpace| - 1 && IsRide(actionSpace[last]) && actions[last] == Offline
      ensures forall k1, k2 :: 0 <= k1 < k2 < |actions| ==> actions[k1] != actions[k2]
      ensures possibleActionsIndex != [] && actions[possibleActionsIndex[|possibleActionsIndex| - 1]] == Offline
    {
      var requests := draw;
      if requests > MaxRequests {
        requests := MaxRequests;
      }
      var totalActionSpace := actionSpace[..|actionSpace| - 1];
      var sampled := order[..requests];
      actions := [];
      var i := 0;
      while i < |sampled|
        invariant 0 <= i <= |sampled|
        invariant |actions| == i
        invariant forall k :: 0 <= k < i ==> actions[k] == totalActionSpace[sampled[k]]
      {
        actions := actions + [totalActionSpace[sampled[i]]];
        i := i + 1;
      }
      actions := actions + [Offline];
      if |sampled| == 0 {
        possibleActionsIndex := [0];
      } else {
        possibleActionsIndex := sampled + [|sampled|];
      }
      ActionSpaceShape();
      forall k1, k2 | 0 <= k1 < k2 < |actions|
        ensures actions[k1] != actions[k2]
      {
        if k2 < requests {
          if order[k1] < order[k2] {
            ActionSpaceDistinct(order[k1], order[k2]);
          } else {
            ActionSpaceDistinct(order[k2], order[k1]);
          }
        }
      }
    }

    /** `reset`: the two spaces and the initial state, as built. */
    method Reset() returns (acts: seq<Action>, states: seq<State>, init: State)
      requires Valid()
      ensures acts == actionSpace && states == stateSpace && init == stateInit
      ensures |acts| == M * (M - 1) + 1 && acts[|acts| - 1] == Offline
      ensures |states| == M * T * D && ValidState(init) && init in states
    {
      ActionSpaceShape();
      StateSpaceExact();
      acts, states, init := actionSpace, stateSpace, stateInit;
    }
  }
}
