/** The check as the filter writes it, on Java's 32-bit `int`: `requests++`
    wraps from Integer.MAX_VALUE to Integer.MIN_VALUE. RequestGate counts
    with unbounded naturals instead; this module shows where the two part. */
module JavaInt {
  import opened RequestGate

  newtype int32 = x: int | -0x8000_0000 <= x < 0x8000_0000

  const MinValue: int32 := -0x8000_0000
  const MaxValue: int32 := 0x7fff_ffff

  /** Java int arithmetic: the exact result reduced to 32 bits in two's
      complement (section 15.18.2 of the Java Language Specification). */
  function Wrap(v: int): (r: int32)
    ensures (r as int - v) % 0x1_0000_0000 == 0
    ensures MinValue as int <= v <= MaxValue as int ==> r as int == v
  {
    ((v + 0x8000_0000) % 0x1_0000_0000 - 0x8000_0000) as int32
  }

  /** The result of one check and the count it writes back. */
  datatype Outcome32 = Outcome32(exceeded: bool, next: int32)

  /** One successful check as written: compare the int read, then write
      back `requests + 1` in int arithmetic. */
  function Check32(requests: int32, max: int32): Outcome32
  {
    Outcome32(requests >= max, Wrap(requests as int + 1))
  }

  /** The int count after n successful checks starting from `start`. */
  function Count32(start: int32, max: int32, n: nat): int32
    decreases n
  {
    if n == 0 then start else Count32(Check32(start, max).next, max, n - 1)
  }

  /** Below Integer.MAX_VALUE the int check and the unbounded check agree,
      both on the decision and on the count written back. */
  lemma Check32AgreesBelowMaxValue(requests: int32, max: int32)
    requires 0 <= requests < MaxValue
    requires 0 <= max
    ensures Check32(requests, max).exceeded
        == Check(map[KeyName := requests as nat], max as nat, false).exceeded
    ensures Check32(requests, max).next as int
        == Read(Check(map[KeyName := requests as nat], max as nat, false).store)
  {
  }

  /** Up to Integer.MAX_VALUE the int count is exact. */
  lemma {:induction false} Count32Exact(start: int32, max: int32, n: nat)
    requires 0 <= start
    requires start as int + n <= MaxValue as int
    ensures Count32(start, max, n) as int == start as int + n
    decreases n
  {
    if n > 0 {
      Count32Exact(Check32(start, max).next, max, n - 1);
    }
  }

  /** From an empty bucket, after Integer.MAX_VALUE successful calls the
      count stands at Integer.MAX_VALUE: that call is rejected, it writes
      back Integer.MIN_VALUE, and the call after it is admitted again. */
  lemma WrapReopensGate(max: int32)
    requires 0 <= max
    ensures Count32(0, max, MaxValue as nat) == MaxValue
    ensures Check32(MaxValue, max).exceeded
    ensures Check32(MaxValue, max).next == MinValue
    ensures !Check32(Check32(MaxValue, max).next, max).exceeded
  {
    Count32Exact(0, max, MaxValue as nat);
  }
}
