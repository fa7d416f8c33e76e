/** Bytes, optional values, decoding results and little-endian scalars shared by every codec. */
module Bytes {

  type byte = x: int | 0 <= x < 256

  const TWO32: nat := 0x1_0000_0000
  const TWO64: nat := 0x1_0000_0000_0000_0000

  /** Unsigned wrap-around at 32 and at 64 bits. */
  function Wrap32(v: nat): (r: nat)
    ensures r < TWO32 && (v < TWO32 ==> r == v)
  {
    v % 0x1_0000_0000
  }

  function Wrap64(v: nat): (r: nat)
    ensures r < TWO64 && (v < TWO64 ==> r == v)
  {
    v % 0x1_0000_0000_0000_0000
  }

  datatype Option<+T> = None | Some(value: T)

  /** What a decoder returns: a value and the bytes it left; or `Short` when the input ran out; or `Abort` when an
      assertion fails or an exception is raised for any other reason. */
  datatype Read<+T> = Short | Abort | Got(value: T, rest: seq<byte>) {
    predicate IsFailure() { !Got? }

    function PropagateFailure<U>(): Read<U>
      requires !Got?
    {
      if Short? then Short else Abort
    }

    function Extract(): (T, seq<byte>)
      requires Got?
    {
      (value, rest)
    }
  }

  function Min(a: int, b: int): int { if a < b then a else b }

  function Pow256(k: nat): (p: nat)
    ensures p > 0
  {
    if k == 0 then 1 else 256 * Pow256(k - 1)
  }

  /** The low `k` bytes of `n`, least significant first. */
  function LE(n: nat, k: nat): (b: seq<byte>)
    ensures |b| == k
  {
    if k == 0 then [] else [n % 256] + LE(n / 256, k - 1)
  }

  function FromLE(b: seq<byte>): (n: nat)
    ensures n < Pow256(|b|)
  {
    if b == [] then 0 else b[0] + 256 * FromLE(b[1..])
  }

  lemma {:induction false} LERoundTrip(n: nat, k: nat)
    ensures n < Pow256(k) ==> FromLE(LE(n, k)) == n
  {
    if k == 0 {
    } else {
      LERoundTrip(n / 256, k - 1);
      assert LE(n, k)[1..] == LE(n / 256, k - 1);
    }
  }

  /** A scalar of `k` bytes from the front of the input. */
  function ReadLE(b: seq<byte>, k: nat): Read<nat> {
    if |b| < k then Short else Got(FromLE(b[..k]), b[k..])
  }

  lemma ReadLEAfterLE(n: nat, k: nat, rest: seq<byte>)
    requires n < Pow256(k)
    ensures ReadLE(LE(n, k) + rest, k) == Got(n, rest)
  {
    LERoundTrip(n, k);
    assert (LE(n, k) + rest)[..k] == LE(n, k);
    assert (LE(n, k) + rest)[k..] == rest;
  }

  /** Exactly `n` bytes from the front of the input. */
  function Take(b: seq<byte>, n: nat): Read<seq<byte>> {
    if |b| < n then Short else Got(b[..n], b[n..])
  }

  lemma TakePrefix(d: seq<byte>, rest: seq<byte>)
    ensures Take(d + rest, |d|) == Got(d, rest)
  {
    assert (d + rest)[..|d|] == d;
    assert (d + rest)[|d|..] == rest;
  }

  lemma SliceOfSuffix<T>(b: seq<T>, k: nat, i: nat, j: nat)
    requires k <= |b| && i <= j <= |b| - k
    ensures b[k..][i..j] == b[k + i..k + j]
    ensures b[k..][..j] == b[k..k + j]
    ensures b[k..][j..] == b[k + j..]
  {
  }

  lemma Joined<T>(b: seq<T>, i: nat, n: nat)
    requires i + n <= |b|
    ensures b == b[..i] + b[i..][..n] + b[i..][n..]
  {
  }

  lemma Prefixed<T>(b: seq<T>, i: nat, before: seq<T>, part: seq<T>, after: seq<T>)
    requires i <= |b| && b[i..] == before + part + after
    ensures b == b[..i] + before + part + after
  {
  }

  lemma Assoc<T>(a: seq<T>, b: seq<T>, c: seq<T>)
    ensures a + b + c == a + (b + c)
  {
  }

  lemma Pieces3<T>(a: seq<T>, b: seq<T>, c: seq<T>)
    ensures [] + a + b + c == a + (b + c)
  {
    assert [] + a == a;
    Assoc(a, b, c);
  }

  lemma SliceOfSlice<T>(b: seq<T>, at: nat, w: nat, i: nat, j: nat)
    requires i <= j <= w && at + w <= |b|
    ensures b[at..at + w][i..j] == b[at + i..at + j]
  {
    var s := b[at..at + w];
    forall k | 0 <= k < j - i ensures s[i..j][k] == b[at + i..at + j][k] {
      assert s[i + k] == b[at + i + k];
    }
  }

  lemma DropOfConcat<T>(a: seq<T>, b: seq<T>, n: nat)
    requires n <= |a|
    ensures (a + b)[n..] == a[n..] + b && (a + b)[..n] == a[..n]
  {
  }
}
