/**
 * A simulated client's operation counters: how many gets, puts and deletes it issued and how many
 * of each failed, as Java `int`s that wrap around at 32 bits.
 */
module ClientStatistics {

  const MinInt: int := -0x8000_0000
  const MaxInt: int := 0x7FFF_FFFF

  /** Java's 32-bit two's-complement `int` arithmetic: the result is taken back into range modulo 2^32. */
  function Wrap32(x: int): (r: int)
    ensures MinInt <= r <= MaxInt
    ensures MinInt <= x <= MaxInt ==> r == x
    ensures (r - x) % 0x1_0000_0000 == 0
  {
    (x - MinInt) % 0x1_0000_0000 + MinInt
  }

  /** The counters of `ClientStats`; the time sums and the period event are not modelled. */
  datatype Stats = Stats(
    putCount: int, getCount: int, deleteCount: int,
    putFailCount: int, getFailCount: int, deleteFailCount: int)

  datatype Op = PutOp | GetOp | DeleteOp

  /** Every counter is a Java `int`. */
  predicate InRange(s: Stats) {
    && MinInt <= s.putCount <= MaxInt && MinInt <= s.getCount <= MaxInt && MinInt <= s.deleteCount <= MaxInt
    && MinInt <= s.putFailCount <= MaxInt && MinInt <= s.getFailCount <= MaxInt && MinInt <= s.deleteFailCount <= MaxInt
  }

  /** No counter is negative and no operation failed more often than it was issued. */
  predicate FailBounded(s: Stats) {
    && 0 <= s.putFailCount <= s.putCount && 0 <= s.getFailCount <= s.getCount
    && 0 <= s.deleteFailCount <= s.deleteCount
  }

  /** `reset`, and the constructor: every counter is zero. */
  function Reset(): (r: Stats)
    ensures InRange(r) && FailBounded(r)
    ensures r.putCount + r.getCount + r.deleteCount + r.putFailCount + r.getFailCount + r.deleteFailCount == 0
  {
    Stats(0, 0, 0, 0, 0, 0)
  }

  /**
   * `put`, `get` and `delete`: the operation's count goes up by one and its fail count by one
   * exactly when it failed, both wrapping; the other counters stay.
   */
  function Record(s: Stats, op: Op, fail: bool): (r: Stats)
    ensures InRange(s) ==> InRange(r)
    ensures InRange(s) && op == PutOp && s.putCount < MaxInt && s.putFailCount < MaxInt ==>
              r == s.(putCount := s.putCount + 1, putFailCount := s.putFailCount + if fail then 1 else 0)
    ensures InRange(s) && op == GetOp && s.getCount < MaxInt && s.getFailCount < MaxInt ==>
              r == s.(getCount := s.getCount + 1, getFailCount := s.getFailCount + if fail then 1 else 0)
    ensures InRange(s) && op == DeleteOp && s.deleteCount < MaxInt && s.deleteFailCount < MaxInt ==>
              r == s.(deleteCount := s.deleteCount + 1, deleteFailCount := s.deleteFailCount + if fail then 1 else 0)
  {
    var f := if fail then 1 else 0;
    match op
    case PutOp => s.(putCount := Wrap32(s.putCount + 1), putFailCount := Wrap32(s.putFailCount + f))
    case GetOp => s.(getCount := Wrap32(s.getCount + 1), getFailCount := Wrap32(s.getFailCount + f))
    case DeleteOp => s.(deleteCount := Wrap32(s.deleteCount + 1), deleteFailCount := Wrap32(s.deleteFailCount + f))
  }

  /** `add`: the component-wise sum, each component wrapping. */
  function Add(s: Stats, c: Stats): (r: Stats)
    ensures InRange(r)
    ensures r.putCount == Wrap32(s.putCount + c.putCount) && r.getCount == Wrap32(s.getCount + c.getCount)
    ensures r.deleteCount == Wrap32(s.deleteCount + c.deleteCount)
    ensures r.putFailCount == Wrap32(s.putFailCount + c.putFailCount)
    ensures r.getFailCount == Wrap32(s.getFailCount + c.getFailCount)
    ensures r.deleteFailCount == Wrap32(s.deleteFailCount + c.deleteFailCount)
  {
    Stats(Wrap32(s.putCount + c.putCount), Wrap32(s.getCount + c.getCount), Wrap32(s.deleteCount + c.deleteCount),
          Wrap32(s.putFailCount + c.putFailCount), Wrap32(s.getFailCount + c.getFailCount),
          Wrap32(s.deleteFailCount + c.deleteFailCount))
  }

  /**
   * The `totalSucc` column of the CSV line: `putCount - putFailCount + getCount - getFailCount +
   * deleteCount - deleteFailCount`, evaluated left to right in `int` arithmetic.
   */
  function TotalSucc(s: Stats): int {
    var a := Wrap32(s.putCount - s.putFailCount);
    var b := Wrap32(a + s.getCount);
    var c := Wrap32(b - s.getFailCount);
    var d := Wrap32(c + s.deleteCount);
    Wrap32(d - s.deleteFailCount)
  }

  /** The successful operations, counted exactly. */
  function Successes(s: Stats): int {
    (s.putCount - s.putFailCount) + (s.getCount - s.getFailCount) + (s.deleteCount - s.deleteFailCount)
  }

  /* ---------------- properties ---------------- */

  /** Wrapping an intermediate result does not change the wrapped final one. */
  lemma WrapAbsorbs(x: int, y: int)
    ensures Wrap32(Wrap32(x) + y) == Wrap32(x + y)
  {
    var m := 0x1_0000_0000;
    var w := Wrap32(x);
    assert (w - x) % m == 0;
    var q := (w - x) / m;
    assert w == x + q * m;
    assert (w + y - MinInt) % m == (x + y - MinInt + q * m) % m;
    ModShift(x + y - MinInt, q);
  }

  /** Adding a multiple of 2^32 does not change the remainder modulo 2^32. */
  lemma {:induction false} ModShift(a: int, q: int)
    ensures (a + q * 0x1_0000_0000) % 0x1_0000_0000 == a % 0x1_0000_0000
    decreases if q < 0 then -q else q
  {
    if q > 0 {
      ModShift(a, q - 1);
    } else if q < 0 {
      ModShift(a, q + 1);
    }
  }

  /** The CSV's `totalSucc` is the number of successful operations, wrapped once to 32 bits. */
  lemma TotalSuccIsSuccesses(s: Stats)
    ensures TotalSucc(s) == Wrap32(Successes(s))
  {
    var x1 := s.putCount - s.putFailCount;
    var x3 := x1 + s.getCount - s.getFailCount;
    WrapAbsorbsTwice(x1, s.getCount, s.getFailCount);
    WrapAbsorbsTwice(x3, s.deleteCount, s.deleteFailCount);
  }

  /** A wrapped addition followed by a wrapped subtraction wraps like the exact result. */
  lemma WrapAbsorbsTwice(x: int, y: int, z: int)
    ensures Wrap32(Wrap32(Wrap32(x) + y) - z) == Wrap32(x + y - z)
  {
    WrapAbsorbs(x, y);
    WrapAbsorbs(x + y, -z);
  }

  /** While the counters stay small, `totalSucc` is exactly the number of successful operations, and never negative. */
  lemma TotalSuccExact(s: Stats)
    requires FailBounded(s) && Successes(s) <= MaxInt
    ensures TotalSucc(s) == Successes(s) >= 0
  {
    TotalSuccIsSuccesses(s);
  }

  /** Recording an operation keeps fail counts within counts, as long as the count does not overflow. */
  lemma RecordKeepsFailBounded(s: Stats, op: Op, fail: bool)
    requires InRange(s) && FailBounded(s)
    requires op == PutOp ==> s.putCount < MaxInt
    requires op == GetOp ==> s.getCount < MaxInt
    requires op == DeleteOp ==> s.deleteCount < MaxInt
    ensures FailBounded(Record(s, op, fail))
  {
  }

  /** Adding two counter sets keeps fail counts within counts, as long as no sum overflows. */
  lemma AddKeepsFailBounded(s: Stats, c: Stats)
    requires InRange(s) && InRange(c) && FailBounded(s) && FailBounded(c)
    requires s.putCount + c.putCount <= MaxInt && s.getCount + c.getCount <= MaxInt
    requires s.deleteCount + c.deleteCount <= MaxInt
    ensures FailBounded(Add(s, c))
    ensures Successes(Add(s, c)) == Successes(s) + Successes(c)
  {
  }

  /** Past `Integer.MAX_VALUE` a count wraps to `Integer.MIN_VALUE`, below its own fail count. */
  lemma RecordOverflowWraps()
    ensures var s := Stats(MaxInt, 0, 0, 0, 0, 0);
            var r := Record(s, PutOp, false);
            FailBounded(s) && r.putCount == MinInt && !FailBounded(r)
  {
  }
}
