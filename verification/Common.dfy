/** Types and Go arithmetic shared by every component. */
module Common {
  datatype Option<+T> = None | Some(value: T)

  newtype byte = x: int | 0 <= x < 256
  type Bytes = seq<byte>

  const MAX_INT64: int := 0x7fff_ffff_ffff_ffff
  const TWO_64: int := 0x1_0000_0000_0000_0000

  function Min(a: int, b: int): int { if a < b then a else b }

  function Max(a: int, b: int): int { if a < b then b else a }

  /** Go's `/` on integers: truncation toward zero. */
  function Quo(a: int, b: int): int
    requires b > 0
  {
    if a >= 0 then a / b else -((-a) / b)
  }

  /** The int64 value that a mathematical result wraps to. */
  function Wrap64(x: int): int
  {
    var r := x % TWO_64;
    if r > MAX_INT64 then r - TWO_64 else r
  }

  /** The sequences laid end to end. */
  function Flatten<T>(xss: seq<seq<T>>): seq<T>
  {
    if xss == [] then [] else Flatten(xss[..|xss| - 1]) + xss[|xss| - 1]
  }

  /** xs is what ys holds at the places `at`, from left to right. */
  ghost predicate PicksAt<T>(xs: seq<T>, ys: seq<T>, at: seq<int>)
  {
    && |xs| == |at|
    && (forall j :: 0 <= j < |at| ==> 0 <= at[j] < |ys| && xs[j] == ys[at[j]])
    && (forall i, j :: 0 <= i < j < |at| ==> at[i] < at[j])
  }

  predicate InInt64(x: int) { -MAX_INT64 - 1 <= x <= MAX_INT64 }

  lemma WrapIsIdentity(x: int)
    requires InInt64(x)
    ensures Wrap64(x) == x
  {
    if x >= 0 {
      assert x % TWO_64 == x;
    } else {
      assert (x + TWO_64) % TWO_64 == x + TWO_64;
      assert x % TWO_64 == x + TWO_64;
    }
  }
}
