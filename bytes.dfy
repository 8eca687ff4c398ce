/**
 * Byte sizes of the containers handed to the buffer upload (bytes.h).
 * `sizeof(T)` is a positive parameter; the result is a `size_t`, whose
 * multiplication wraps modulo 2^64.
 */
module Bytes {

  /** One more than the largest `size_t` value on a 64-bit target. */
  const SizeTModulus: nat := 0x1_0000_0000_0000_0000

  type SizeT = x: int | 0 <= x < 0x1_0000_0000_0000_0000

  /** `BytesIn(const std::vector<T>&)`: element size times element count, as a `size_t`. */
  function BytesInVector<T>(elemSize: SizeT, value: seq<T>): (r: SizeT)
    requires 0 < elemSize
  {
    (elemSize * |value|) % SizeTModulus
  }

  /** `BytesIn(const std::array<T, len>&)`: element size times the array's static length. */
  function BytesInArray<T>(elemSize: SizeT, len: SizeT, value: seq<T>): (r: SizeT)
    requires 0 < elemSize
    requires |value| == len
  {
    (elemSize * len) % SizeTModulus
  }

  /** When the byte count fits in a `size_t` (it does for every vector that can exist), no wrap-around happens. */
  lemma VectorBytes<T>(elemSize: SizeT, value: seq<T>)
    requires 0 < elemSize
    requires elemSize * |value| < SizeTModulus
    ensures BytesInVector(elemSize, value) == elemSize * |value|
  {
  }

  lemma ArrayBytes<T>(elemSize: SizeT, len: SizeT, value: seq<T>)
    requires 0 < elemSize
    requires |value| == len
    requires elemSize * len < SizeTModulus
    ensures BytesInArray(elemSize, len, value) == elemSize * len
  {
  }

  /** An empty vector occupies no bytes. */
  lemma EmptyVectorHasNoBytes<T>(elemSize: SizeT)
    requires 0 < elemSize
    ensures BytesInVector<T>(elemSize, []) == 0
  {
  }

  /**
   * The byte count is a whole number of elements: it is a multiple of the
   * element size, and dividing by the element size gives back the count.
   */
  lemma BytesAreWholeElements<T>(elemSize: SizeT, value: seq<T>)
    requires 0 < elemSize
    requires elemSize * |value| < SizeTModulus
    ensures BytesInVector(elemSize, value) % elemSize == 0
    ensures BytesInVector(elemSize, value) / elemSize == |value|
  {
    VectorBytes(elemSize, value);
    MultipleOf(elemSize, |value|);
  }

  lemma MultipleOf(d: nat, n: nat)
    requires 0 < d
    ensures (d * n) % d == 0 && (d * n) / d == n
  {
    var q, r := (d * n) / d, (d * n) % d;
    assert d * n == d * q + r && 0 <= r < d;
    assert d * (n - q) == r by {
      assert d * n - d * q == d * (n - q);
    }
    if n - q >= 1 {
      ScaleAtLeast(d, n - q);
    } else if n - q <= -1 {
      ScaleAtLeast(d, q - n);
    }
  }

  lemma ScaleAtLeast(d: nat, k: int)
    requires 1 <= k
    ensures d * k >= d
  {
  }

  /** The size of an array does not depend on what it holds. */
  lemma ArrayBytesIgnoreContents<T>(elemSize: SizeT, len: SizeT, a: seq<T>, b: seq<T>)
    requires 0 < elemSize
    requires |a| == len && |b| == len
    ensures BytesInArray(elemSize, len, a) == BytesInArray(elemSize, len, b)
  {
  }

  /** A vector and an array with the same element count have the same byte size. */
  lemma VectorAndArrayAgree<T>(elemSize: SizeT, v: seq<T>, a: seq<T>)
    requires 0 < elemSize
    requires |v| == |a| < SizeTModulus
    ensures BytesInVector(elemSize, v) == BytesInArray(elemSize, |a|, a)
  {
  }
}
