/** Values shared by every container model: Java's nullable references and the
    exceptions the containers throw, turned into ordinary results. */
module Common {

  /** A nullable Java reference: `None` stands for `null`. */
  datatype Option<T> = None | Some(value: T)

  /** The exceptional outcomes of the containers. `EmptyList` is the
      linked list's `RuntimeException("Empty List")`;
      `NegativeArraySize` is the exception of allocating an array whose
      length has overflowed to a negative `int`; `NonTermination` stands
      for a loop of the source that never exits, so the call never
      returns. */
  datatype Error =
    | IllegalArgument
    | NullPointer
    | IndexOutOfBounds
    | EmptyStack
    | EmptyList
    | ConcurrentModification
    | NegativeArraySize
    | NonTermination

  /** A call that either returns a value or throws. */
  datatype Result<T> = Ok(value: T) | Err(error: Error)

  /** Java's `int`. */
  type Int32 = x: int | -0x8000_0000 <= x < 0x8000_0000

  /** `normalizeIndex` of both hash tables: `(keyHash & 0x7FFFFFFF) %
      capacity`. Masking the sign bit of a 32-bit value leaves a
      non-negative value unchanged and adds 2^31 to a negative one, so the
      index always lies in `[0, capacity)`. */
  function NormalizeIndex(keyHash: Int32, capacity: int): (r: int)
    requires capacity > 0
    ensures 0 <= r < capacity
    ensures keyHash >= 0 ==> r == keyHash % capacity
    ensures keyHash < 0 ==> r == (keyHash + 0x8000_0000) % capacity
  {
    (keyHash % 0x8000_0000) % capacity
  }

  function Max(a: int, b: int): int
  {
    if a >= b then a else b
  }

  /** 2^n. */
  function Pow2(n: nat): (p: nat)
    ensures p >= 1
  {
    if n == 0 then 1 else 2 * Pow2(n - 1)
  }

  lemma {:induction false} Pow2Monotone(a: nat, b: nat)
    requires a <= b
    ensures Pow2(a) <= Pow2(b)
    decreases b
  {
    if a < b {
      Pow2Monotone(a, b - 1);
    }
  }
}
