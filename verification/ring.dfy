/**
  Index arithmetic shared by the receive and transmit rings of the UART
  driver. The driver's headers (not part of this model) define the helpers
  `inc` and `previous` and the buffer sizes; here the size is a parameter
  `n >= 2`, `inc(i)` is `(i + 1) mod n` and `previous(i)` is `(i + n - 1) mod n`.
  Every index handed to them is at least -1 (the transmit indices start at
  -1), so both operands of `%` are non-negative and C's truncating remainder
  coincides with Dafny's Euclidean one.
 */
module Ring {

  /** One octet as stored in the driver's `uint8_t` / `unsigned char` buffers. */
  type byte = b: int | 0 <= b < 256

  /** A remainder of a value below `2 * n` is at most one subtraction away. */
  lemma ModWrap(x: int, n: int)
    requires n > 0 && 0 <= x < 2 * n
    ensures x % n == if x < n then x else x - n
  {
    if x >= n {
      assert x == (x - n) + n;
    }
  }

  /** `inc(i, n)`: the slot after `i`, wrapping from the last slot to 0. */
  function Inc(i: int, n: int): (r: int)
    requires n >= 2 && -1 <= i < n
    ensures 0 <= r < n
    ensures r == if i == n - 1 then 0 else i + 1
  {
    ModWrap(i + 1, n);
    (i + 1) % n
  }

  /** `previous(i, n)`: the slot before `i`, wrapping from 0 to the last slot. */
  function Previous(i: int, n: int): (r: int)
    requires n >= 2 && -1 <= i < n
    ensures 0 <= r < n
    ensures r == if i <= 0 then i + n - 1 else i - 1
  {
    ModWrap(i + n - 1, n);
    (i + n - 1) % n
  }

  /** On proper slots `previous` undoes `inc` and vice versa. */
  lemma PreviousInverts(i: int, j: int, n: int)
    requires n >= 2 && 0 <= i < n && 0 <= j < n
    ensures Previous(i, n) == j <==> Inc(j, n) == i
  {
  }

  /** The slot `k` steps after `i` in a ring of `n` slots. */
  function Offset(i: int, k: int, n: int): (r: int)
    requires n >= 2 && 0 <= i < n && 0 <= k < n
    ensures 0 <= r < n
    ensures r == (i + k) % n
  {
    ModWrap(i + k, n);
    if i + k < n then i + k else i + k - n
  }

  /** Number of steps from `from` forward to `to`. */
  function Dist(from: int, to: int, n: int): (r: nat)
    requires n >= 2 && 0 <= from < n && 0 <= to < n
    ensures r < n
    ensures Offset(from, r, n) == to
    ensures r == 0 <==> from == to
  {
    if from <= to then to - from else n + to - from
  }

  /** `Dist` is the only step count below `n` that reaches `to`. */
  lemma DistUnique(from: int, to: int, k: int, n: int)
    requires n >= 2 && 0 <= from < n && 0 <= to < n && 0 <= k < n
    ensures Offset(from, k, n) == to <==> k == Dist(from, to, n)
  {
  }

  /** Stepping once more from an offset is one application of `inc`. */
  lemma OffsetSucc(i: int, k: int, n: int)
    requires n >= 2 && 0 <= i < n && 0 <= k && k + 1 < n
    ensures Offset(i, k + 1, n) == Inc(Offset(i, k, n), n)
  {
  }

  /** Starting one slot later is the same as taking one more step. */
  lemma OffsetFromInc(i: int, k: int, n: int)
    requires n >= 2 && 0 <= i < n && 0 <= k && k + 1 < n
    ensures Offset(Inc(i, n), k, n) == Offset(i, k + 1, n)
  {
  }

  /** Distinct step counts below `n` reach distinct slots. */
  lemma OffsetInjective(i: int, j: int, k: int, n: int)
    requires n >= 2 && 0 <= i < n && 0 <= j < n && 0 <= k < n
    ensures Offset(i, j, n) == Offset(i, k, n) <==> j == k
  {
  }
}
