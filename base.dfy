/**
 * Constants and small arithmetic helpers shared by every module of the model.
 *
 * The Atari constants come from the Arcade Learning Environment that the
 * search agents are built on: 18 joystick actions, action 0 is the no-op,
 * and the console has 128 bytes of RAM.
 */
module Base {

  /** Number of joystick actions (ALE's PLAYER_A_MAX). */
  const PLAYER_A_MAX: nat := 18

  /** The no-op action (ALE's PLAYER_A_NOOP). */
  const PLAYER_A_NOOP: int := 0

  /** Bytes of console RAM (ALE's RAM_SIZE). */
  const RAM_SIZE: nat := 128

  /** std::numeric_limits<int>::min() for a 32-bit int. */
  const INT_MIN: int := -0x8000_0000

  /** std::numeric_limits<int>::max() for a 32-bit int. */
  const INT_MAX: int := 0x7fff_ffff

  datatype Option<T> = None | Some(value: T)

  function Pow(b: nat, e: nat): nat
  {
    if e == 0 then 1 else b * Pow(b, e - 1)
  }

  lemma {:induction false} PowPositive(b: nat, e: nat)
    requires b > 0
    ensures Pow(b, e) > 0
  {
    if e > 0 {
      PowPositive(b, e - 1);
    }
  }

  /** C++ integer division of a signed value: the quotient is truncated toward zero. */
  function CDiv(a: int, b: nat): int
    requires b > 0
  {
    if a >= 0 then a / b else -((-a) / b)
  }

  /** C++ `%`: the remainder takes the sign of the dividend. */
  function CRem(a: int, b: nat): int
    requires b > 0
  {
    a - b * CDiv(a, b)
  }

  /** Conversion of a floating-point value to an integer type in C++ (truncation toward zero). */
  function Trunc(x: real): int
  {
    if x >= 0.0 then x.Floor else -((-x).Floor)
  }

  /** std::count(v.begin(), v.end(), true). */
  function CountTrue(s: seq<bool>): nat
  {
    if s == [] then 0 else CountTrue(s[..|s| - 1]) + (if s[|s| - 1] then 1 else 0)
  }

  /** A vector of n copies of x, as `std::vector<T>(n, x)` or `assign(n, x)` builds it. */
  function Repeat<T>(x: T, n: nat): (r: seq<T>)
    ensures |r| == n && forall k :: 0 <= k < n ==> r[k] == x
  {
    seq(n, _ => x)
  }

  lemma {:induction false} CountTrueBound(s: seq<bool>)
    ensures CountTrue(s) <= |s|
  {
    if s != [] {
      CountTrueBound(s[..|s| - 1]);
    }
  }

  /** Entry-wise `a[k] ==> b[k]`: the set of true entries of a is a subset of b's. */
  predicate PointwiseLe(a: seq<bool>, b: seq<bool>)
  {
    |a| == |b| && forall k :: 0 <= k < |a| ==> a[k] ==> b[k]
  }
}
