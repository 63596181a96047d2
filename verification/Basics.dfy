/** Small vocabulary shared by the other modules. */
module Basics {
  newtype Byte = x: int | 0 <= x < 0x100
  newtype Word = x: int | 0 <= x < 0x1_0000_0000

  /** The longest path name with its terminating zero. */
  const PATH_MAX := 4096

  datatype Option<+T> = None | Some(value: T)

  /** Concatenation of a sequence of sequences, in order. */
  function Flatten<T>(parts: seq<seq<T>>): seq<T> {
    if parts == [] then [] else Flatten(parts[..|parts| - 1]) + parts[|parts| - 1]
  }

  lemma FlattenAppend<T>(parts: seq<seq<T>>, last: seq<T>)
    ensures Flatten(parts + [last]) == Flatten(parts) + last
  {
    assert (parts + [last])[..|parts|] == parts;
  }

  lemma {:induction false} FlattenConcat<T>(left: seq<seq<T>>, right: seq<seq<T>>)
    ensures Flatten(left + right) == Flatten(left) + Flatten(right)
    decreases |right|
  {
    if right == [] {
      assert left + right == left;
    } else {
      var init := right[..|right| - 1];
      FlattenConcat(left, init);
      assert (left + right)[..|left + right| - 1] == left + init;
    }
  }

  function Pow2(n: nat): (p: nat)
    ensures p >= 1
  {
    if n == 0 then 1 else 2 * Pow2(n - 1)
  }

  lemma PowerDoubles(n: nat)
    requires n >= 1
    ensures Pow2(n) == 2 * Pow2(n - 1)
  {}

  function Min(a: nat, b: nat): nat { if a < b then a else b }

  lemma MultiplesApart(k: nat, d: int)
    ensures d >= 1 ==> k * d >= k
    ensures d <= -1 ==> k * d + k <= 0
  {
    if d >= 1 {
      assert k * (d - 1) >= 0;
    } else if d <= -1 {
      assert k * (-1 - d) >= 0;
    }
  }

  lemma DivisionIs(x: nat, k: nat, q: nat, r: nat)
    requires r < k && x == k * q + r
    ensures x / k == q && x % k == r
  {
    MultiplesApart(k, q - x / k);
    assert k * (q - x / k) == x % k - r by {
      assert x == k * (x / k) + x % k;
    }
  }
}
