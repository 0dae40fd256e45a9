# Cab-driver MDP environment, modelled in Dafny

This project models the `CabDriver` environment of a reinforcement-learning
cab-driver scheduler (`Env.py`). The environment is the Markov decision process
an electric-cab driver lives in:

- a **state** is the driver's location `1..m`, the hour of the day `0..t-1`
  and the day of the week `0..d-1`;
- an **action** is a ride `(pickup, drop)` between two distinct locations, or
  the offline action `(0,0)`;
- the environment builds the **action space** and the **state space** once;
- it **one-hot encodes** a state for the agent's network;
- it **samples ride requests**: a capped Poisson count of distinct rides, plus
  the offline action;
- it computes the **reward** and the **next state** of an action. Both advance
  time through a travel-time table and the **wrap helper** that turns an hour
  count into an hour of the day and a day of the week.

The hyperparameters are the source's: `m = 5`, `t = 24`, `d = 7`, `C = 5`,
`R = 9`, and a cap of 15 requests (`CabTypes`).

Layout, one module per part of the environment:

- `types.dfy` (`CabTypes`): constants, `State`, `Action`, `Offline`, the range
  invariants, and the travel-time table with its shape predicate.
  `TravelTime` is the table lookup with 1-based locations turned into 0-based
  table indices (Env.py:170, 172, 180, 205, 214); it is a plain lookup, and the
  rows below state what the reward and transition do with it.
- `time_wrap.dfy` (`TimeWrap`): `handle_day_change`.
- `spaces.dfy` (`Spaces`): `init_action_space` and `init_state_space`, with
  closed-form index formulas.
- `encoding.dfy` (`Encoding`): `state_encod_arch1`.
- `dynamics.dfy` (`Dynamics`): `reward_func` and `next_state_func`.
- `cab_driver.dfy` (`Environment`): the `CabDriver` object, with its
  constructor, `requests` and `reset`.

The model follows the code, including where the code departs from its own
description. The notes below say, for each questionable place in the code,
whether the model keeps it or departs from it:

- Departure from the code: `next_state_func` reads `pickup_from` and `drop_to` but never unpacks the
  action (Env.py:205, 214, 222), so in Python every ride action raises a
  NameError. The model binds both from the action, as `reward_func` does at
  Env.py:155.
- `reward_func` charges no approach time when the driver is already at the
  pickup (Env.py:168-170). `next_state_func` has no such case (Env.py:205): it
  always looks up the table entry from the current location to the pickup.
  For a driver already at the pickup, that is the table's diagonal entry.
  Both are modelled as written. `Dynamics.TransitionMatchesReward` shows that
  they agree when the table's diagonal is zero.
  `Dynamics.DiagonalDivergenceExample` shows that they disagree otherwise.
- The reward is computed as `R*trip - C*(trip - approach)` (Env.py:182). The
  docstring at Env.py:144-146 asks for the cost of the approach leg to be
  subtracted. `RewardFunc` is kept as written, because it is what the
  environment returns to the agent. The intended reward is defined alongside
  it; see "## Findings".
- Departure from the code: the request sampler appends the list `[0,0]` (Env.py:127), while the reward
  and transition functions compare against the tuple `(0,0)` (Env.py:160,
  197). In Python these are never equal. The model has one offline value,
  `CabTypes.Offline`.

## Model

| member | source | states |
|---|---|---|
| `TimeWrap.HandleDayChange` | Env.py:226-231 | the hour of the day is in `[0, t)`, the day of the week in `[0, d)`, and the hour of the day plus `t` times the whole days reconstructs the hour count |
| `TimeWrap.WrapBySplit` | Env.py:226-231 | for any split `hour = q*t + h` with `0 <= h < t`, the result is `(h, (day + q) mod d)`: the day moves on by the whole days in the count |
| `TimeWrap.WrapInRange` | Env.py:226-231 | an hour inside the day and a day inside the week are returned unchanged |
| `TimeWrap.WrapCompose` | Env.py:226-231 | wrapping, adding `n` hours and wrapping again equals wrapping `hour + n` once |
| `TimeWrap.WrapSeveralWeeks` | Env.py:226-231 | 500 hours from any day is hour 20, 20 days (mod 7) later |
| `Spaces.RideIndex` | Env.py:39 | a ride's position in pickup-major, then drop, order lies among the `m*(m-1)` ride positions |
| `Spaces.RideAt` | Env.py:39 | the element at each ride position is a genuine ride (distinct locations in `1..m`) whose position is that index |
| `Spaces.RideAtIndex` | Env.py:39 | every genuine ride is the element at its own position (the index formula round-trips) |
| `Spaces.ActionSpaceShape` | Env.py:39-43 | the action space has `m*(m-1)+1` elements; the last is the offline action; every earlier one is a genuine ride |
| `Spaces.ActionSpaceOrdered` | Env.py:39 | the rides appear in strictly increasing pickup-major, then drop, order |
| `Spaces.ActionSpaceDistinct` | Env.py:39-41 | no action appears twice |
| `Spaces.ActionSpaceMembership` | Env.py:39-43 | an action is in the action space iff it is a genuine ride or the offline action |
| `Spaces.ActionSpace` | Env.py:39-43 | the reference action space, every ride in order then the offline action: `m*(m-1)+1` elements, genuine rides before the offline action, which is last; `InitActionSpace` is proved equal to it and the `ActionSpace*` lemmas state its order, distinctness and membership |
| `Spaces.InitActionSpace` | Env.py:31-43 | the nested loop over pickups and drops, skipping equal ones, followed by the offline append, yields exactly the action space |
| `Spaces.Slice` | Env.py:58 | the states of one location, over all hours and days, number `|hours| * |days|` |
| `Spaces.Product` | Env.py:58-61 | the product of locations, hours and days has `|locations| * |hours| * |days|` elements |
| `Spaces.SliceAt` | Env.py:58 | inside one location's block, position `b*|days| + c` holds hour `b` and day `c` |
| `Spaces.ProductAt` | Env.py:58-61 | position `(a*|hours| + b)*|days| + c` of the product holds `(locations[a], hours[b], days[c])`, the rightmost factor varying fastest |
| `Spaces.StateSpaceExact` | Env.py:54-61 | the state space has `m*t*d` elements; each valid state sits at `((loc-1)*t + hour)*d + day`; each element is valid and sits at its own index, so none repeats |
| `Spaces.StateSpace` | Env.py:46-61 | `init_state_space`: `Product` over locations `1..m`, hours `0..t-1` and days `0..d-1`, with `m*t*d` elements; `StateSpaceExact` states its order and that every state appears exactly once |
| `Encoding.Encoding` | Env.py:72-85 | the reference one-hot encoding: length `m+t+d`, and for a valid state a 1 at `loc-1`, `m+hour` and `m+t+day`; `EncodingShape` adds that every other entry is 0 |
| `Encoding.EncodingShape` | Env.py:72-85 | for a valid state the encoding has length `m+t+d`, is 1 exactly at `loc-1`, `m+hour` and `m+t+day`, is 0 elsewhere, and holds exactly three 1s |
| `Encoding.EncodingInjective` | Env.py:72-85 | two valid states with the same encoding are the same state |
| `Encoding.StateEncodArch1` | Env.py:66-87 | writing a 1 into each zeroed location, hour and day array and stacking them gives the encoding: 1 at the three positions, 0 elsewhere |
| `Dynamics.RewardFunc` | Env.py:141-185 | the offline action yields exactly `-C`, whatever the state |
| `Dynamics.NextStateFunc` | Env.py:190-224 | the next state satisfies the range invariants; offline keeps the location, a ride ends at the drop location |
| `Dynamics.RewardDecomposition` | Env.py:155-182 | for a ride, the approach time is 0 when the driver is at the pickup; the trip time is looked up at the wrapped post-approach hour and day in both branches; the reward is `R*trip - C*(trip - approach)` |
| `Dynamics.IntendedReward` | Env.py:144-146 | the offline action yields `-C`; a ride earns `R` per trip hour and pays `C` per approach and trip hour |
| `Dynamics.RewardGap` | Env.py:182 | the reward as written exceeds the intended reward by `2*C*approach`, and equals it iff the approach takes no time |
| `Dynamics.RewardGapExample` | Env.py:168-182 | from `(1,0,0)`, ride `(2,3)` with a 2-hour approach and a 1-hour trip: reward 14 as written, -6 as intended |
| `Dynamics.RideSingleWrap` | Env.py:205-222 | a ride lands at the drop at the time obtained by wrapping `hour + approach + trip` once, where the approach is looked up at the current time and the trip at the wrapped post-approach time |
| `Dynamics.TransitionMatchesReward` | Env.py:205-222 | with a zero-diagonal table, the transition advances time by exactly the approach and trip hours that the reward function uses |
| `Dynamics.DiagonalDivergenceExample` | Env.py:168-222 | from `(2,10,3)`, ride `(2,4)` with a 2-hour diagonal entry: the reward charges 3 trip hours (12), while the transition ends at `(4,16,3)`, 6 hours later |
| `Dynamics.IntendedRewardChargesElapsedTime` | Env.py:144-146 | with a zero-diagonal table, the intended reward is `R*trip - C*(approach + trip)`, and wrapping `approach + trip` hours from the state gives the next state's hour and day |
| `Dynamics.OfflineSteps` | Env.py:197-203 | `k` offline steps keep the location and the range invariants |
| `Dynamics.OfflineStepsWrapOnce` | Env.py:197-203 | `k` offline steps equal wrapping `hour + k` once, at the same location |
| `Dynamics.OfflineWrapsWeek` | Env.py:197-203 | going offline at `(1,23,6)` leads to `(1,0,0)` and yields `-5` |
| `Dynamics.RideFromPickupExample` | Env.py:168-222 | from `(2,10,3)`, ride `(2,4)` with a 3-hour trip and a zero diagonal: reward 12, next state `(4,13,3)` |
| `Environment.CabDriver.constructor` | Env.py:19-28 | the object holds the action space and the state space as built, and the initial state is the state-space element at the drawn index |
| `Environment.CabDriver.Requests` | Env.py:100-137 | the request count is the draw capped at 15. The actions are the chosen rides in draw order, then the offline action, with no action twice. The index list is `[0]` for no rides, otherwise the chosen ride indices followed by the count. Its first `count` entries are positions in the action space of the offered rides. Its last entry is the position of the offline action in the returned actions; read as a position in the action space it names a ride, so the list mixes two kinds of index |
| `Environment.CabDriver.Reset` | Env.py:234-235 | returns the stored spaces and initial state: `m*(m-1)+1` actions ending with offline, `m*t*d` states, and a valid initial state from the state space |

## Findings

| source | as written | input that shows it | evidently intended | confidence | as-written member | corrected member |
|---|---|---|---|---|---|---|
| Env.py:182 | `R*trip - C*(trip - approach)`: the approach hours reduce the charged cost | state `(1,0,0)`, action `(2,3)`, 2-hour approach, 1-hour trip: reward 14 | `R*trip - C*(approach + trip)`, as the docstring at Env.py:144-146 describes: reward -6 | high; not executed | `Dynamics.RewardFunc`, with `Dynamics.RewardGap` and `Dynamics.RewardGapExample` | `Dynamics.IntendedReward`, with `Dynamics.IntendedRewardChargesElapsedTime` |

`RewardFunc` stays as written because it is the reward the environment returns
to the agent. No other member of the model consumes a reward.

## Left out

- Random draws are parameters, not modelled. These are the Poisson request
  count (`np.random.poisson`), the choice of distinct ride indices
  (`random.sample`), and the initial-state index (`np.random.choice`).
- The per-location Poisson means (Env.py:108) are not modelled. The request
  count is an unconstrained parameter, so the model ignores the draw's mean.
- `Environment.CabDriver.Requests`: the sampled indices are given as a sequence of
  distinct ride indices with at least 15 entries, and the method keeps its
  prefix of the capped length. This is the same as a sample without
  replacement of that length. The uniform distribution of the draw is not
  modelled.
- Python's negative indexing is not modelled. A location 0 or a negative hour
  would silently select the last row of a numpy array or list. Every operation
  requires a valid state (or a valid location), and the reward and transition
  functions require the offline action or a pair of valid locations.
- numpy arrays, `hstack` and the `(1, m+t+d)` reshape are not modelled. The
  encoding is a flat `seq<int>` of 0s and 1s rather than floats.
- Travel times are `nat` hours. The floating-point values of the table and the
  `int(...)` casts are not modelled. Loading the table from a file is outside
  this model.
- The hyperparameters are fixed at the source's values (`m=5`, `t=24`, `d=7`).
  The size and index results are stated for those values, except `Product`,
  `Slice`, `ProductAt` and `SliceAt`, which hold for any factor sequences.
- The commented-out `state_encod_arch2` and the incomplete
  `if __name__ == 'main'` block have no behaviour.
- `__init__` calls `reset()` and discards its result; that call has no effect.
- The learning agent, the training loop and the network are not part of this
  model.
