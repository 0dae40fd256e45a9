/** The reward function (`reward_func`, Env.py:141-185) and the transition
    function (`next_state_func`, Env.py:190-224). Both advance time through the
    travel-time table and the wrap helper. */
module Dynamics {
  import opened CabTypes
  import opened TimeWrap

  /** `reward_func`, as written. The offline action costs one hour, -C.
      For a ride, the time to reach the customer is 0 when the driver is
      already at the pickup (and the trip time is then looked up at the current
      hour and day); otherwise it is looked up at the current hour and day and
      the trip time is looked up at the wrapped hour and day of arrival at the
      customer. The reward is R*trip - C*(trip - approach): the approach time
      is subtracted from the charged hours, not added to them (see
      IntendedReward and RewardGap). */
  function RewardFunc(s: State, a: Action, tm: TimeMatrix): (r: int)
    requires WellShaped(tm) && ValidState(s) && Admissible(a)
    ensures a == Offline ==> r == -C
  {
    var pickupFrom, dropTo := a.pickup, a.drop;
    if a == Offline then -C
    else
      var (timeToCustomer, tripTime) :=
        if s.loc == pickupFrom then
          (0, TravelTime(tm, pickupFrom, dropTo, s.hour, s.day))
        else
          var toCustomer := TravelTime(tm, s.loc, pickupFrom, s.hour, s.day);
          var (hourAtCustomer, dayAtCustomer) := HandleDayChange(s.hour + toCustomer, s.day);
          (toCustomer, TravelTime(tm, pickupFrom, dropTo, hourAtCustomer, dayAtCustomer));
      R * tripTime - C * (tripTime as int - timeToCustomer)
  }

  /** `next_state_func`, with the pickup and drop taken from the action (the
      source reads `pickup_from` and `drop_to` without ever unpacking the
      action; the model binds them as `reward_func` does). The offline action
      moves time on by one hour and keeps the location. A ride looks up the
      time to the customer at the current hour and day -- with no special case
      for a driver already at the pickup -- wraps, looks up the trip time at the
      wrapped arrival time, wraps again, and ends at the drop location. */
  function NextStateFunc(s: State, a: Action, tm: TimeMatrix): (n: State)
    requires WellShaped(tm) && ValidState(s) && Admissible(a)
    ensures ValidState(n)
    ensures n.loc == (if a == Offline then s.loc else a.drop)
  {
    if a == Offline then
      var (nextHour, nextDay) := HandleDayChange(s.hour + 1, s.day);
      State(s.loc, nextHour, nextDay)
    else
      var pickupFrom, dropTo := a.pickup, a.drop;
      var timeToCustomer := TravelTime(tm, s.loc, pickupFrom, s.hour, s.day);
      var (hourAtCustomer, dayAtCustomer) := HandleDayChange(s.hour + timeToCustomer, s.day);
      var tripTime := TravelTime(tm, pickupFrom, dropTo, hourAtCustomer, dayAtCustomer);
      var (tripEndHour, tripEndDay) := HandleDayChange(tripTime + hourAtCustomer, dayAtCustomer);
      State(dropTo, tripEndHour, tripEndDay)
  }

  // ---------------------------------------------------------------------
  // The two legs of a ride
  // ---------------------------------------------------------------------

  /** Hours from the driver's location to the pickup, as the reward function
      counts them: none when the driver is already there. */
  function ApproachTime(s: State, a: Action, tm: TimeMatrix): nat
    requires WellShaped(tm) && ValidState(s) && Admissible(a) && a != Offline
  {
    if s.loc == a.pickup then 0 else TravelTime(tm, s.loc, a.pickup, s.hour, s.day)
  }

  /** Hours from pickup to drop, looked up at the hour and day reached after
      `approach` hours of driving from the state's time. */
  function TripTimeAfter(s: State, a: Action, tm: TimeMatrix, approach: int): nat
    requires WellShaped(tm) && ValidState(s) && Admissible(a) && a != Offline
  {
    var (h, d) := HandleDayChange(s.hour + approach, s.day);
    TravelTime(tm, a.pickup, a.drop, h, d)
  }

  /** Both branches of the reward function follow one rule: the trip time is
      looked up at the wrapped time after the approach leg (for a driver
      already at the pickup that is the current time), and the reward is
      R*trip - C*(trip - approach). */
  lemma RewardDecomposition(s: State, a: Action, tm: TimeMatrix)
    requires WellShaped(tm) && ValidState(s) && Admissible(a) && a != Offline
    ensures s.loc == a.pickup ==> ApproachTime(s, a, tm) == 0
    ensures var approach := ApproachTime(s, a, tm);
            var trip := TripTimeAfter(s, a, tm, approach);
            RewardFunc(s, a, tm) == R * trip - C * (trip - approach)
  {
    if s.loc == a.pickup {
      WrapInRange(s.hour, s.day);
    }
  }

  /** The reward the source's own description asks for: revenue for the trip
      hours, cost for every hour driven, approach and trip alike. */
  function IntendedReward(s: State, a: Action, tm: TimeMatrix): (r: int)
    requires WellShaped(tm) && ValidState(s) && Admissible(a)
    ensures a == Offline ==> r == -C
  {
    if a == Offline then -C
    else
      var approach := ApproachTime(s, a, tm);
      var trip := TripTimeAfter(s, a, tm, approach);
      R * trip - C * (approach + trip)
  }

  /** The reward as written exceeds the intended reward by twice the cost of
      the approach leg; the two agree exactly when the approach takes no time. */
  lemma RewardGap(s: State, a: Action, tm: TimeMatrix)
    requires WellShaped(tm) && ValidState(s) && Admissible(a) && a != Offline
    ensures RewardFunc(s, a, tm) - IntendedReward(s, a, tm) == 2 * C * ApproachTime(s, a, tm)
    ensures RewardFunc(s, a, tm) == IntendedReward(s, a, tm) <==> ApproachTime(s, a, tm) == 0
  {
    RewardDecomposition(s, a, tm);
  }

  /** A concrete ride on which the two differ: two hours to reach the
      customer, one hour of trip. */
  lemma RewardGapExample(tm: TimeMatrix)
    requires WellShaped(tm)
    requires tm[0][1][0][0] == 2 && tm[1][2][2][0] == 1
    ensures RewardFunc(State(1, 0, 0), Action(2, 3), tm) == 14
    ensures IntendedReward(State(1, 0, 0), Action(2, 3), tm) == -6
  {
    RewardDecomposition(State(1, 0, 0), Action(2, 3), tm);
  }

  // ---------------------------------------------------------------------
  // Time accounting of the transition
  // ---------------------------------------------------------------------

  /** A ride lands at the drop location at the time reached by wrapping once
      the current hour plus the approach time (looked up at the current time)
      plus the trip time (looked up at the wrapped post-approach time): the
      two successive wraps lose nothing. */
  lemma RideSingleWrap(s: State, a: Action, tm: TimeMatrix)
    requires WellShaped(tm) && ValidState(s) && Admissible(a) && a != Offline
    ensures var approach := TravelTime(tm, s.loc, a.pickup, s.hour, s.day);
            var trip := TripTimeAfter(s, a, tm, approach);
            var (h, d) := HandleDayChange(s.hour + approach + trip, s.day);
            NextStateFunc(s, a, tm) == State(a.drop, h, d)
  {
    var approach := TravelTime(tm, s.loc, a.pickup, s.hour, s.day);
    var trip := TripTimeAfter(s, a, tm, approach);
    WrapCompose(s.hour + approach, s.day, trip);
  }

  /** The travel time from a location to itself is zero. */
  ghost predicate ZeroDiagonal(tm: TimeMatrix)
    requires WellShaped(tm)
  {
    forall l, h, d | 0 <= l < M && 0 <= h < T && 0 <= d < D :: tm[l][l][h][d] == 0
  }

  /** When the table says staying put takes no time, the transition and the
      reward account for time identically: the ride ends after exactly the
      approach and trip hours that the reward function uses. (With a non-zero
      diagonal the transition charges the diagonal entry for a driver already
      at the pickup, and the reward function does not: see
      DiagonalDivergenceExample.) */
  lemma TransitionMatchesReward(s: State, a: Action, tm: TimeMatrix)
    requires WellShaped(tm) && ValidState(s) && Admissible(a) && a != Offline
    requires ZeroDiagonal(tm)
    ensures var approach := ApproachTime(s, a, tm);
            var trip := TripTimeAfter(s, a, tm, approach);
            var (h, d) := HandleDayChange(s.hour + approach + trip, s.day);
            NextStateFunc(s, a, tm) == State(a.drop, h, d)
  {
    RideSingleWrap(s, a, tm);
    if s.loc == a.pickup {
      assert TravelTime(tm, s.loc, a.pickup, s.hour, s.day) == 0;
    }
  }

  /** With a non-zero diagonal the two disagree. A driver at the pickup
      whose table entry from location 2 to itself is 2 hours: the reward
      charges the 3 trip hours only, while the transition spends 2 + 4 hours
      (the trip time being looked up 2 hours later). */
  lemma DiagonalDivergenceExample(tm: TimeMatrix)
    requires WellShaped(tm)
    requires tm[1][1][10][3] == 2 && tm[1][3][10][3] == 3 && tm[1][3][12][3] == 4
    ensures RewardFunc(State(2, 10, 3), Action(2, 4), tm) == 12
    ensures NextStateFunc(State(2, 10, 3), Action(2, 4), tm) == State(4, 16, 3)
  {
  }

  /** The corrected reward charges C for the approach and trip hours, and
      wrapping that many hours from the state gives the next state's hour and
      day. (A state records only the hour of the week, so the elapsed hours are
      fixed by the two states only modulo T*D.) */
  lemma IntendedRewardChargesElapsedTime(s: State, a: Action, tm: TimeMatrix)
    requires WellShaped(tm) && ValidState(s) && Admissible(a) && a != Offline
    requires ZeroDiagonal(tm)
    ensures var trip := TripTimeAfter(s, a, tm, ApproachTime(s, a, tm));
            var elapsed := ApproachTime(s, a, tm) + trip;
            var n := NextStateFunc(s, a, tm);
            && HandleDayChange(s.hour + elapsed, s.day) == (n.hour, n.day)
            && IntendedReward(s, a, tm) == R * trip - C * elapsed
  {
    TransitionMatchesReward(s, a, tm);
  }

  /** `k` consecutive offline steps. */
  function OfflineSteps(s: State, k: nat, tm: TimeMatrix): (n: State)
    requires WellShaped(tm) && ValidState(s)
    ensures ValidState(n) && n.loc == s.loc
    decreases k
  {
    if k == 0 then s else NextStateFunc(OfflineSteps(s, k - 1, tm), Offline, tm)
  }

  /** Going offline `k` times in a row is the same as wrapping hour + k once,
      at the same location. */
  lemma {:induction false} OfflineStepsWrapOnce(s: State, k: nat, tm: TimeMatrix)
    requires WellShaped(tm) && ValidState(s)
    ensures var (h, d) := HandleDayChange(s.hour + k, s.day);
            OfflineSteps(s, k, tm) == State(s.loc, h, d)
  {
    if k == 0 {
      WrapInRange(s.hour, s.day);
    } else {
      OfflineStepsWrapOnce(s, k - 1, tm);
      WrapCompose(s.hour + k - 1, s.day, 1);
    }
  }

  /** Going offline at the last hour of the last day of the week starts the
      week over, and costs C. */
  lemma OfflineWrapsWeek(tm: TimeMatrix)
    requires WellShaped(tm)
    ensures NextStateFunc(State(1, 23, 6), Offline, tm) == State(1, 0, 0)
    ensures RewardFunc(State(1, 23, 6), Offline, tm) == -5
  {
  }

  /** A ride picked up where the driver stands: no approach time, three hours
      of trip, reward 9*3 - 5*3 = 12, arrival at location 4 three hours later. */
  lemma RideFromPickupExample(tm: TimeMatrix)
    requires WellShaped(tm)
    requires tm[1][1][10][3] == 0 && tm[1][3][10][3] == 3
    ensures RewardFunc(State(2, 10, 3), Action(2, 4), tm) == 12
    ensures NextStateFunc(State(2, 10, 3), Action(2, 4), tm) == State(4, 13, 3)
  {
  }
}
