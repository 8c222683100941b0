/** Types and arithmetic shared by every module: options, bytes, chunk lists and
    the fixed-width integer operations of the proxy. */
module Basics {

  datatype Option<+T> = None | Some(value: T)

  newtype byte = x: int | 0 <= x < 0x100

  type Bytes = seq<byte>

  const U64_LIMIT: int := 0x1_0000_0000_0000_0000
  const U64_MAX: int := U64_LIMIT - 1

  type u64 = x: int | 0 <= x < U64_LIMIT

  /** `+=` on u64 as a release build computes it. */
  function WrappingAdd(x: u64, y: nat): u64 {
    (x + y) % U64_LIMIT
  }

  lemma WrappingAddOfTotal(total: nat, y: nat)
    ensures WrappingAdd(total % U64_LIMIT, y) == (total + y) % U64_LIMIT
  {
    var q := total / U64_LIMIT;
    assert total + y == (total % U64_LIMIT + y) + q * U64_LIMIT;
    ModOfMultiple(total % U64_LIMIT + y, q);
  }

  lemma {:induction false} ModOfMultiple(x: nat, q: nat)
    ensures (x + q * U64_LIMIT) % U64_LIMIT == x % U64_LIMIT
  {
    if q > 0 {
      ModOfMultiple(x, q - 1);
      assert x + q * U64_LIMIT == (x + (q - 1) * U64_LIMIT) + U64_LIMIT;
    }
  }

  function SaturatingAdd(x: u64, y: nat): u64 {
    if x + y < U64_LIMIT then x + y else U64_MAX
  }

  /** The bytes of a list of chunks, in order. */
  function Concat(chunks: seq<Bytes>): Bytes {
    if chunks == [] then [] else Concat(chunks[..|chunks| - 1]) + chunks[|chunks| - 1]
  }

  lemma ConcatSnoc(chunks: seq<Bytes>, c: Bytes)
    ensures Concat(chunks + [c]) == Concat(chunks) + c
  {
    assert (chunks + [c])[..|chunks|] == chunks;
  }

  /** Cutting a tail anywhere and joining it again changes nothing. */
  lemma CutAndJoin<T>(a: seq<T>, b: seq<T>, n: nat)
    requires n <= |b|
    ensures (a + b[..n]) + b[n..] == a + b
  {
  }

  lemma AppendAssociates<T>(a: seq<T>, b: seq<T>, c: seq<T>)
    ensures a + (b + c) == (a + b) + c
  {
  }

  lemma {:induction false} ConcatGrows(a: seq<Bytes>, b: seq<Bytes>)
    ensures |Concat(a)| <= |Concat(a + b)|
    decreases |b|
  {
    if b == [] {
      assert a + b == a;
    } else {
      var init, last := b[..|b| - 1], b[|b| - 1];
      assert a + b == (a + init) + [last];
      ConcatSnoc(a + init, last);
      ConcatGrows(a, init);
    }
  }
}
