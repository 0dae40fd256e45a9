/** The one-hot state encoding fed to the learning agent's network
    (`state_encod_arch1`, Env.py:66-87). */
module Encoding {
  import opened CabTypes

  /** A vector of `n` zeros with a single 1 at position `i`. */
  function UnitVector(n: nat, i: int): (v: seq<int>)
  {
    seq(n, k => if k == i then 1 else 0)
  }

  /** The encoding of a state: one-hot location, then one-hot hour, then
      one-hot day, concatenated. */
  function Encoding(s: State): (v: seq<int>)
    ensures |v| == M + T + D
    ensures ValidState(s) ==> v[s.loc - 1] == 1 && v[M + s.hour] == 1 && v[M + T + s.day] == 1
  {
    UnitVector(M, s.loc - 1) + UnitVector(T, s.hour) + UnitVector(D, s.day)
  }

  /** Number of entries of `v` equal to 1. */
  function CountOnes(v: seq<int>): (n: nat)
    ensures n <= |v|
  {
    if v == [] then 0 else (if v[0] == 1 then 1 else 0) + CountOnes(v[1..])
  }

  lemma {:induction false} CountOnesAppend(u: seq<int>, w: seq<int>)
    ensures CountOnes(u + w) == CountOnes(u) + CountOnes(w)
  {
    if u == [] {
      assert u + w == w;
    } else {
      assert (u + w)[1..] == u[1..] + w;
      CountOnesAppend(u[1..], w);
    }
  }

  /** A unit vector whose 1 lies inside it holds exactly one 1. */
  lemma {:induction false} CountOnesUnit(n: nat, i: int)
    requires 0 <= i < n
    ensures CountOnes(UnitVector(n, i)) == 1
  {
    var v := UnitVector(n, i);
    var pre, post := UnitVector(i, i), seq(n - i, k => if k == 0 then 1 else 0);
    assert v == pre + post;
    CountOnesAppend(pre, post);
    CountOnesZero(pre);
    assert post == [1] + seq(n - i - 1, k => 0);
    CountOnesAppend([1], seq(n - i - 1, k => 0));
    CountOnesZero(seq(n - i - 1, k => 0));
  }

  lemma {:induction false} CountOnesZero(v: seq<int>)
    requires forall k :: 0 <= k < |v| ==> v[k] != 1
    ensures CountOnes(v) == 0
  {
    if v != [] {
      CountOnesZero(v[1..]);
    }
  }

  /** For a valid state the encoding has length M+T+D, holds 1 exactly at
      positions loc-1, M+hour and M+T+day, holds 0 everywhere else, and so
      holds exactly three 1s. */
  lemma {:induction false} EncodingShape(s: State)
    requires ValidState(s)
    ensures |Encoding(s)| == M + T + D
    ensures forall k :: 0 <= k < M + T + D ==>
      Encoding(s)[k] == (if k == s.loc - 1 || k == M + s.hour || k == M + T + s.day then 1 else 0)
    ensures CountOnes(Encoding(s)) == 3
  {
    var l, h, d := UnitVector(M, s.loc - 1), UnitVector(T, s.hour), UnitVector(D, s.day);
    CountOnesAppend(l + h, d);
    CountOnesAppend(l, h);
    CountOnesUnit(M, s.loc - 1);
    CountOnesUnit(T, s.hour);
    CountOnesUnit(D, s.day);
  }

  /** Different valid states have different encodings: the state can be read
      back from its encoding. */
  lemma EncodingInjective(s1: State, s2: State)
    requires ValidState(s1) && ValidState(s2)
    requires Encoding(s1) == Encoding(s2)
    ensures s1 == s2
  {
    EncodingShape(s1);
    EncodingShape(s2);
    assert Encoding(s2)[s1.loc - 1] == 1;
    assert Encoding(s2)[M + s1.hour] == 1;
    assert Encoding(s2)[M + T + s1.day] == 1;
  }

  /** `state_encod_arch1`: three zeroed arrays, a 1 written into each at the
      state's location, hour and day, then stacked into one vector. */
  method StateEncodArch1(s: State) returns (v: seq<int>)
    requires ValidState(s)
    ensures v == Encoding(s)
    ensures |v| == M + T + D
    ensures forall k :: 0 <= k < |v| ==>
      v[k] == (if k == s.loc - 1 || k == M + s.hour || k == M + T + s.day then 1 else 0)
  {
    var allLocations := new int[M](_ => 0);
    allLocations[s.loc - 1] := 1;
    var hoursInADay := new int[T](_ => 0);
    hoursInADay[s.hour] := 1;
    var daysInAWeek := new int[D](_ => 0);
    daysInAWeek[s.day] := 1;
    v := allLocations[..] + hoursInADay[..] + daysInAWeek[..];
    assert allLocations[..] == UnitVector(M, s.loc - 1);
    assert hoursInADay[..] == UnitVector(T, s.hour);
    assert daysInAWeek[..] == UnitVector(D, s.day);
    EncodingShape(s);
  }
}
