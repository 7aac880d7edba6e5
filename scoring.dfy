/** The score awarded for a hit and the accuracy shown to the player. */
module Scoring {

  /** Searches upward from k for the largest q with 9·q² <= n. */
  function ThirdRootFrom(n: nat, k: nat): (q: nat)
    requires 9 * k * k <= n
    ensures k <= q
    ensures 9 * q * q <= n < 9 * (q + 1) * (q + 1)
    decreases n - 9 * k * k
  {
    if 9 * (k + 1) * (k + 1) <= n then ThirdRootFrom(n, k + 1) else k
  }

  /** int(sqrt(d) / 3) for d >= 0, that is floor(sqrt(d) / 3): the k with 9·k² <= d < 9·(k+1)². */
  function FloorSqrtThird(d: real): (k: nat)
    requires d >= 0.0
    ensures 9.0 * (k * k) as real <= d < 9.0 * ((k + 1) * (k + 1)) as real
  {
    ThirdRootFrom(d.Floor, 0)
  }

  lemma SquareMonotone(a: nat, b: nat)
    requires a * a < b * b
    ensures a < b
  {
  }

  /** The characterisation of FloorSqrtThird determines its value, so it is floor(sqrt(d) / 3). */
  lemma {:induction false} FloorSqrtThirdUnique(d: real, k: nat)
    requires d >= 0.0
    requires 9.0 * (k * k) as real <= d < 9.0 * ((k + 1) * (k + 1)) as real
    ensures FloorSqrtThird(d) == k
  {
    var q := FloorSqrtThird(d);
    SquareMonotone(q, k + 1);
    SquareMonotone(k, q + 1);
  }

  /** Squared distances below 9 give 0 and squared distances up to 32² = 1024 give at most 10. */
  lemma FloorSqrtThirdSmall(d: real)
    requires d >= 0.0
    ensures d < 9.0 ==> FloorSqrtThird(d) == 0
    ensures d <= 1024.0 ==> FloorSqrtThird(d) <= 10
  {
    var k := FloorSqrtThird(d);
    if d < 9.0 {
      SquareMonotone(k, 1);
    }
    if d <= 1024.0 {
      SquareMonotone(k, 11);
    }
  }

  /** max(10, 50 - floor(sqrt(d) / 3)): the points for a hit at squared distance d from the centre. */
  function ScoreDelta(d: real): (s: int)
    requires d >= 0.0
    ensures 10 <= s <= 50
    ensures d < 9.0 ==> s == 50
    ensures d <= 1024.0 ==> 40 <= s
  {
    var k := FloorSqrtThird(d);
    FloorSqrtThirdSmall(d);
    if 50 - k > 10 then 50 - k else 10
  }

  /** A hit closer to the centre never scores less. */
  lemma {:induction false} ScoreMonotone(d1: real, d2: real)
    requires 0.0 <= d1 <= d2
    ensures ScoreDelta(d2) <= ScoreDelta(d1)
  {
    var k1, k2 := FloorSqrtThird(d1), FloorSqrtThird(d2);
    SquareMonotone(k1, k2 + 1);
  }

  /** hits / shots * 100, or 0.0 when no shot was fired. */
  function Accuracy(hits: nat, shots: nat): (acc: real)
    ensures shots == 0 ==> acc == 0.0
    ensures hits <= shots ==> 0.0 <= acc <= 100.0
    ensures 0 < shots && hits == shots ==> acc == 100.0
    ensures 0 < shots && hits == 0 ==> acc == 0.0
  {
    if shots != 0 then (hits as real) / (shots as real) * 100.0 else 0.0
  }
}
