/** Throughput arithmetic shared by the download and upload estimators. */
module Speed {
  import opened Wrappers

  /** What Python's `str()` gives for the ZeroDivisionError a float division by zero raises. */
  const ZeroDivisionMessage: string := "float division by zero"

  /** Throughput in decimal megabits per second of `bytes` moved in `elapsed`
      seconds: bytes * 8 / (elapsed * 1_000_000). A zero elapsed time makes
      the division raise instead. */
  function Mbps(bytes: nat, elapsed: real): (r: Result<real, string>)
    ensures r.Failure? <==> elapsed == 0.0
    ensures r.Failure? ==> r.error == ZeroDivisionMessage
    ensures r.Success? ==> r.value * elapsed * 1000000.0 == (bytes * 8) as real
  {
    if elapsed == 0.0 then Failure(ZeroDivisionMessage)
    else Success((bytes * 8) as real / (elapsed * 1000000.0))
  }

  /** Ten million bytes in one second is 80 megabits per second: the unit is
      decimal, 1 Mb = 1,000,000 bits. */
  lemma DecimalMegabits()
    ensures Mbps(10000000, 1.0) == Success(80.0)
  {
  }

  /** The "1MB" upload payload is 1,048,576 bytes, so posting it in one second
      reports 8.388608 Mbps rather than 8: byte counts are binary while the
      speed unit is decimal. */
  lemma BinaryPayloadDecimalUnit()
    ensures Mbps(1 * 1024 * 1024, 1.0) == Success(8.388608)
  {
  }

  /** For a positive duration the speed grows with the bytes moved and
      shrinks as the same bytes take longer. */
  lemma MbpsMonotonic(b1: nat, b2: nat, e1: real, e2: real)
    requires 0.0 < e1 && 0.0 < e2
    ensures b1 <= b2 ==> Mbps(b1, e1).value <= Mbps(b2, e1).value
    ensures e1 <= e2 ==> Mbps(b1, e2).value <= Mbps(b1, e1).value
  {
    var s1 := Mbps(b1, e1).value;
    var s2 := Mbps(b2, e1).value;
    var s3 := Mbps(b1, e2).value;
    assert s1 * (e1 * 1000000.0) == (b1 * 8) as real;
    assert s2 * (e1 * 1000000.0) == (b2 * 8) as real;
    assert s3 * (e2 * 1000000.0) == (b1 * 8) as real;
    if b1 <= b2 {
      assert (b1 * 8) as real <= (b2 * 8) as real;
    }
    if e1 <= e2 {
      assert 0.0 <= s3;
      assert s3 * (e1 * 1000000.0) <= s3 * (e2 * 1000000.0);
    }
  }
}
