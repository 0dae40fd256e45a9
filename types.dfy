/** The hyperparameters, states, actions and travel-time table of the
    cab-driver decision process (Env.py:10-14 and the tuples used
    throughout the CabDriver class). */
module CabTypes {

  /** Number of locations; locations are numbered 1 .. M. */
  const M: int := 5
  /** Hours in a day; hours are numbered 0 .. T-1. */
  const T: int := 24
  /** Days in a week; days are numbered 0 .. D-1. */
  const D: int := 7
  /** Cost per hour of driving (fuel, battery and other costs). */
  const C: int := 5
  /** Revenue per hour of carrying a passenger. */
  const R: int := 9
  /** Upper limit on the number of ride requests offered at one step. */
  const MaxRequests: int := 15

  /** A state: the driver's location, the hour of the day and the day of the week. */
  datatype State = State(loc: int, hour: int, day: int)

  /** An action: a ride from `pickup` to `drop`, or the offline action. */
  datatype Action = Action(pickup: int, drop: int)

  /** The "go offline / no ride" action, written (0,0) in the source.
      The source builds it as the tuple (0,0) in the action space but as the
      list [0,0] in the request sampler; in Python the list never compares
      equal to the tuple, so an offline choice taken from the sampler's list
      would fall into the ride branch of the reward and transition functions.
      The model has a single offline value and does not reproduce that
      mismatch. */
  const Offline: Action := Action(0, 0)

  predicate ValidLocation(loc: int) { 1 <= loc <= M }

  /** The range invariants every state of the process keeps. */
  predicate ValidState(s: State)
  {
    ValidLocation(s.loc) && 0 <= s.hour < T && 0 <= s.day < D
  }

  /** A genuine ride of the action space: two distinct valid locations. */
  predicate IsRide(a: Action)
  {
    ValidLocation(a.pickup) && ValidLocation(a.drop) && a.pickup != a.drop
  }

  /** The actions the reward and transition functions can be given without
      indexing the travel-time table out of bounds: the offline action, or a
      pair of valid locations. */
  predicate Admissible(a: Action)
  {
    a == Offline || (ValidLocation(a.pickup) && ValidLocation(a.drop))
  }

  /** The travel-time table, indexed by (origin - 1, destination - 1, hour, day),
      giving whole hours. It is supplied from outside and only read. */
  type TimeMatrix = seq<seq<seq<seq<nat>>>>

  /** The table has the dimensions M x M x T x D. */
  predicate WellShaped(tm: TimeMatrix)
  {
    && |tm| == M
    && (forall o | 0 <= o < M :: |tm[o]| == M)
    && (forall o, p | 0 <= o < M && 0 <= p < M :: |tm[o][p]| == T)
    && (forall o, p, h | 0 <= o < M && 0 <= p < M && 0 <= h < T :: |tm[o][p][h]| == D)
  }

  /** Travel time from `origin` to `dest` (1-based locations) when setting out
      at hour `hour` of day `day`. */
  function TravelTime(tm: TimeMatrix, origin: int, dest: int, hour: int, day: int): (r: nat)
    requires WellShaped(tm)
    requires ValidLocation(origin) && ValidLocation(dest)
    requires 0 <= hour < T && 0 <= day < D
  {
    tm[origin - 1][dest - 1][hour][day]
  }
}
