/**
 * Message and receiver identifiers: `fmt.Sprintf("%X.%X", unix, ctr)`,
 * the Unix time in seconds and the 32-bit counter, both in upper-case hex.
 */
module Ids {
  import opened Ints
  import opened Numerals

  /** `%X.%X` of the Unix time and the counter; DotPosition and FormatIDInjective say how it parses. */
  function FormatID(unix: int64, ctr: uint32): string {
    Signed(unix, 16) + "." + Hex(ctr)
  }

  /** The fixed id of the greeting a receive session writes first. */
  const HelloID: string := "SERVER-HELLO"

  /** The time part of an id never holds a '.', so the '.' separates the two parts. */
  lemma DotPosition(unix: int64, ctr: uint32)
    ensures var a := Signed(unix, 16);
      && |FormatID(unix, ctr)| == |a| + 1 + |Hex(ctr)|
      && FormatID(unix, ctr)[..|a|] == a
      && FormatID(unix, ctr)[|a|] == '.'
      && FormatID(unix, ctr)[|a| + 1..] == Hex(ctr)
      && forall i :: 0 <= i < |a| ==> FormatID(unix, ctr)[i] != '.'
  {
  }

  /** Two ids are equal only when both their times and their counters are. */
  lemma FormatIDInjective(t1: int64, c1: uint32, t2: int64, c2: uint32)
    requires FormatID(t1, c1) == FormatID(t2, c2)
    ensures t1 == t2 && c1 == c2
  {
    var a1, a2 := Signed(t1, 16), Signed(t2, 16);
    DotPosition(t1, c1);
    DotPosition(t2, c2);
    assert |a1| == |a2|;
    assert a1 == a2 && Hex(c1) == Hex(c2);
    SignedInjective(t1, t2, 16);
    DigitsInjective(c1, c2, 16);
  }

  /** No generated id can be mistaken for the greeting's id. */
  lemma HelloIsNotGenerated(unix: int64, ctr: uint32)
    ensures FormatID(unix, ctr) != HelloID
  {
    DotPosition(unix, ctr);
  }

  /**
   * A log of the ids a generator has issued, in order, starting from a zero
   * counter: the i-th id carries the counter value i + 1, wrapped to 32 bits,
   * and the time it was issued at.
   */
  ghost predicate IssuedLog(ids: seq<string>, times: seq<int64>) {
    && |ids| == |times|
    && forall i {:trigger times[i]} :: 0 <= i < |ids| ==> ids[i] == FormatID(times[i], (i + 1) % Modulus32)
  }

  /** Issuing the next id extends the log. */
  lemma IssuedLogExtend(ids: seq<string>, times: seq<int64>, unix: int64)
    requires IssuedLog(ids, times)
    ensures IssuedLog(ids + [FormatID(unix, (|ids| + 1) % Modulus32)], times + [unix])
  {
  }

  /** The counter kept modulo 2^32 is the number of ids issued, modulo 2^32. */
  lemma CounterTracksLog(n: nat)
    ensures NextCounter(n % Modulus32) == (n + 1) % Modulus32
  {
  }

  /** Two different log positions before the wrap carry different counter values. */
  lemma CountersDiffer(i: nat, j: nat)
    requires i < j < Modulus32
    ensures (i + 1) % Modulus32 != (j + 1) % Modulus32
  {
    if j + 1 < Modulus32 {
      assert (j + 1) % Modulus32 == j + 1;
    } else {
      assert (j + 1) % Modulus32 == 0;
    }
    assert (i + 1) % Modulus32 == i + 1;
  }

  /** Until the counter has gone all the way round, every issued id is new. */
  lemma IssuedDistinct(ids: seq<string>, times: seq<int64>)
    requires IssuedLog(ids, times)
    requires |ids| <= Modulus32
    ensures forall i, j :: 0 <= i < j < |ids| ==> ids[i] != ids[j]
  {
    forall i, j | 0 <= i < j < |ids|
      ensures ids[i] != ids[j]
    {
      CountersDiffer(i, j);
      if ids[i] == ids[j] {
        FormatIDInjective(times[i], (i + 1) % Modulus32, times[j], (j + 1) % Modulus32);
        assert false;
      }
    }
  }

  /** The id issued next (counter |ids| + 1) differs from every earlier one. */
  lemma NextIsFresh(ids: seq<string>, times: seq<int64>, unix: int64)
    requires IssuedLog(ids, times)
    requires |ids| < Modulus32
    ensures FormatID(unix, (|ids| + 1) % Modulus32) !in ids
  {
    var id := FormatID(unix, (|ids| + 1) % Modulus32);
    IssuedDistinct(ids + [id], times + [unix]);
    assert (ids + [id])[|ids|] == id;
    forall i | 0 <= i < |ids| ensures ids[i] != id {
      assert (ids + [id])[i] == ids[i];
    }
  }
}
