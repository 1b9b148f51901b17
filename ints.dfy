/**
 * The fixed-width integers the Go program uses, with their wrap-around
 * written out where the program relies on it.
 */
module Ints {

  type uint8 = x: int | 0 <= x < 0x100
  type uint32 = x: int | 0 <= x < 0x1_0000_0000
  type int32 = x: int | -0x8000_0000 <= x < 0x8000_0000
  type int64 = x: int | -0x8000_0000_0000_0000 <= x < 0x8000_0000_0000_0000
  type uint64 = x: int | 0 <= x < 0x1_0000_0000_0000_0000

  const Modulus32: int := 0x1_0000_0000

  /** `atomic.AddUint32(&ctr, 1)`: the counter's successor, wrapping from 2^32-1 to 0. */
  function NextCounter(c: uint32): (r: uint32)
    ensures c < Modulus32 - 1 ==> r == c + 1
    ensures c == Modulus32 - 1 ==> r == 0
  {
    (c + 1) % Modulus32
  }

  /** The counter after `n` increments from `start`. */
  function CounterAfter(start: uint32, n: nat): (r: uint32)
    decreases n
  {
    if n == 0 then start else NextCounter(CounterAfter(start, n - 1))
  }

  /** `n` increments add `n` modulo 2^32. */
  lemma {:induction false} CounterAfterAdds(start: uint32, n: nat)
    ensures CounterAfter(start, n) == (start + n) % Modulus32
    decreases n
  {
    if n > 0 {
      CounterAfterAdds(start, n - 1);
      var p := start + n - 1;
      assert CounterAfter(start, n - 1) == p % Modulus32;
      if p % Modulus32 == Modulus32 - 1 {
        assert (p + 1) % Modulus32 == 0;
      } else {
        assert (p + 1) % Modulus32 == p % Modulus32 + 1;
      }
    }
  }

  /** `atomic.AddInt32(&x, d)`: two's-complement addition on 32 bits. */
  function AddInt32(x: int32, d: int): (r: int32)
    ensures -0x8000_0000 <= x + d < 0x8000_0000 ==> r == x + d
    ensures (x + d - r) % Modulus32 == 0
  {
    (x + d + 0x8000_0000) % Modulus32 - 0x8000_0000
  }

  /** A number of receivers as an int32 counter holds it: reduced to the two's-complement range. */
  function ToInt32(n: nat): (r: int32)
    ensures n < 0x8000_0000 ==> r == n
    decreases n
  {
    if n < 0x8000_0000 then n
    else if n < Modulus32 then n - Modulus32
    else ToInt32(n - Modulus32)
  }

  /** ToInt32 is two's-complement reduction modulo 2^32. */
  lemma {:induction false} ToInt32Mod(n: nat)
    ensures ToInt32(n) == (n + 0x8000_0000) % Modulus32 - 0x8000_0000
    decreases n
  {
    if n >= Modulus32 {
      ToInt32Mod(n - Modulus32);
    }
  }

  /** Counting one more or one fewer on the wrapped counter wraps the true count. */
  lemma AddToInt32(n: nat, d: int)
    requires n + d >= 0
    ensures AddInt32(ToInt32(n), d) == ToInt32(n + d)
  {
    ToInt32Mod(n);
    ToInt32Mod(n + d);
  }

  /** Adding one and then minus one gives back the start value, even across the wrap. */
  lemma AddInt32Inverse(x: int32)
    ensures AddInt32(AddInt32(x, 1), -1) == x
  {
  }
}
