/** The statistics page's runtime breakdown as the code computes it: in JavaScript numbers,
    that is binary64 doubles, rather than in integers. */
module RuntimeFloat {
  import opened Binary64
  import opened Stats

  /** The loader's steps on doubles: `days`, `hours` and `minutes` are the doubles that
      `total / (24 * 60)`, `(days % 1) * 24` and `(hours % 1) * 60` round to. (`% 1` of a
      non-negative double is exact, and so is `24 * 60`.) */
  predicate Steps(total: nat, days: Double, hours: Double, minutes: Double) {
    && RoundsTo(total as real / 1440.0, days)
    && RoundsTo(Frac(Value(days)) * 24.0, hours)
    && RoundsTo(Frac(Value(hours)) * 60.0, minutes)
  }

  /** What the page shows for those doubles: `Math.floor` of each. */
  function Shown(total: nat, days: Double, hours: Double, minutes: Double): Runtime {
    Runtime(Value(days).Floor, Value(hours).Floor, Value(minutes).Floor, total)
  }

  lemma Pow2NatValues()
    ensures Pow2Nat(49) == 0x2_0000_0000_0000
    ensures Pow2Nat(55) == 0x80_0000_0000_0000
    ensures Pow2Nat(59) == 0x800_0000_0000_0000
  {
    assert Pow2Nat(1) == 2;
    assert Pow2Nat(4) == 16;
    Pow2NatSum(4, 4);
    assert Pow2Nat(8) == 0x100;
    Pow2NatSum(8, 8);
    assert Pow2Nat(16) == 0x1_0000;
    Pow2NatSum(16, 16);
    assert Pow2Nat(32) == 0x1_0000_0000;
    Pow2NatSum(32, 16);
    assert Pow2Nat(48) == 0x1_0000_0000_0000;
    Pow2NatSum(48, 1);
    Pow2NatSum(49, 6);
    assert Pow2Nat(6) == 64;
    Pow2NatSum(55, 4);
  }

  lemma Pow2Values()
    ensures Pow2(-59) == 1.0 / 0x800_0000_0000_0000 as real
    ensures Pow2(-55) == 1.0 / 0x80_0000_0000_0000 as real
    ensures Pow2(-49) == 1.0 / 0x2_0000_0000_0000 as real
  {
    Pow2NatValues();
  }

  /** The doubles the loader's three steps give for a total of 13 minutes. */
  const Days13 := Double(5204159569405906, -59)
  const Hours13 := Double(7806239354108859, -55)
  const Minutes13 := Double(7318349394477055, -49)

  lemma Days13Step()
    ensures RoundsTo(13 as real / 1440.0, Days13)
    ensures Value(Days13).Floor == 0 && Frac(Value(Days13)) == Value(Days13)
  {
    Pow2Values();
    assert Value(Days13) == 5204159569405906.0 / 0x800_0000_0000_0000 as real;
  }

  lemma Hours13Step()
    ensures RoundsTo(Value(Days13) * 24.0, Hours13)
    ensures Value(Hours13).Floor == 0 && Frac(Value(Hours13)) == Value(Hours13)
  {
    Pow2Values();
    assert Value(Days13) == 5204159569405906.0 / 0x800_0000_0000_0000 as real;
    assert Value(Hours13) == 7806239354108859.0 / 0x80_0000_0000_0000 as real;
  }

  lemma Minutes13Step()
    ensures RoundsTo(Value(Hours13) * 60.0, Minutes13)
    ensures Value(Minutes13).Floor == 12
  {
    Pow2Values();
    assert Value(Hours13) == 7806239354108859.0 / 0x80_0000_0000_0000 as real;
    assert Value(Minutes13) == 7318349394477055.0 / 0x2_0000_0000_0000 as real;
  }

  /** A total of 13 minutes is shown as 0 days, 0 hours and 12 minutes: the double nearest
      13/1440 is a little below it, its product with 24 is exact, and the product of that with
      60 rounds to the double just below 13. The integer breakdown is 13 minutes. */
  lemma ThirteenMinutesShowTwelve()
    ensures Steps(13, Days13, Hours13, Minutes13)
    ensures forall d, h, m :: Steps(13, d, h, m) ==> Shown(13, d, h, m) == Runtime(0, 0, 12, 13)
    ensures Decompose(13) == Runtime(0, 0, 13, 13)
  {
    Days13Step();
    Hours13Step();
    Minutes13Step();
    forall d, h, m | Steps(13, d, h, m)
      ensures Shown(13, d, h, m) == Runtime(0, 0, 12, 13)
    {
      OneRunFor13(d, h, m);
    }
  }

  /** The steps for 13 minutes have a single outcome. */
  lemma OneRunFor13(d: Double, h: Double, m: Double)
    requires Steps(13, d, h, m)
    ensures d == Days13 && h == Hours13 && m == Minutes13
  {
    Days13Step();
    Hours13Step();
    Minutes13Step();
    RoundingUnique(13 as real / 1440.0, d, Days13);
    RoundingUnique(Value(Days13) * 24.0, h, Hours13);
    RoundingUnique(Value(Hours13) * 60.0, m, Minutes13);
  }
}
