/** The sample record line `Star 10 red 1000 1 2 3 4` of the parsers'
    documentation, worked through the model in both directions. */
module Samples {
  import opened Wrappers
  import opened Text
  import opened Numbers
  import opened Bodies
  import opened Scenario

  /** A single non-zero digit reads as itself. */
  lemma ReadDigit(c: char)
    requires IsDigit(c) && c != '0'
    ensures ParseNumber([c]) == Some(Decimal(DigitValue(c), 0))
  {
    ParseInteger(false, [c]);
    assert SignText(false) + [c] == [c];
    assert [c][..0] == [];
    NormalizeCanonical(Decimal(DigitValue(c), 0));
  }

  /** A one followed by `k` zeros reads as ten to the `k`. */
  lemma ReadPowerOfTen(k: nat)
    ensures ParseNumber("1" + Zeros(k)) == Some(Decimal(1, k))
  {
    assert DigitsValue("1") == 1 by { assert "1"[..0] == []; }
    TrailingZeros("1", k);
    ParseInteger(false, "1" + Zeros(k));
    assert SignText(false) + ("1" + Zeros(k)) == "1" + Zeros(k);
    NormalizeShift(1, k, k);
    NormalizeCanonical(Decimal(1, k));
  }

  lemma ReadTen()
    ensures ParseNumber("10") == Some(Decimal(1, 1))
  {
    ReadPowerOfTen(1);
    assert "1" + Zeros(1) == "10";
  }

  lemma ReadThousand()
    ensures ParseNumber("1000") == Some(Decimal(1, 3))
  {
    ReadPowerOfTen(3);
    assert "1" + Zeros(3) == "1000";
  }

  /** The sample body of the parser's documentation: radius 10, colour
      `red`, mass 1000, position (1, 2) and velocity (3, 4). */
  const SampleBody := Body("star", Decimal(1, 1), "red", Decimal(1, 3),
                           Decimal(1, 0), Decimal(2, 0), Decimal(3, 0), Decimal(4, 0))

  /** The numbers of the sample line, as `float()` reads them. */
  lemma SampleNumbers()
    ensures ParseNumber("10") == Some(Decimal(1, 1)) && ParseNumber("1000") == Some(Decimal(1, 3))
    ensures ParseNumber("1") == Some(Decimal(1, 0)) && ParseNumber("2") == Some(Decimal(2, 0))
    ensures ParseNumber("3") == Some(Decimal(3, 0)) && ParseNumber("4") == Some(Decimal(4, 0))
  {
    ReadTen();
    ReadThousand();
    ReadDigit('1');
    ReadDigit('2');
    ReadDigit('3');
    ReadDigit('4');
  }

  /** A line whose lower-cased tokens are the sample's parses to the sample
      body. */
  lemma ParseSampleTokens(line: string)
    requires RecordTokens(line) == ["star", "10", "red", "1000", "1", "2", "3", "4"]
    ensures ParseRecord(line, "star") == Ok(SampleBody)
  {
    SampleNumbers();
    ParseRecordOf(line, "star", "10", "1000", "1", "2", "3", "4", SampleBody);
  }

  /** Any line whose tokens are `Star 10 red 1000 1 2 3 4`, however they are
      spaced, parses to the sample body. */
  lemma SampleStarLine(line: string)
    requires Split(line) == ["Star", "10", "red", "1000", "1", "2", "3", "4"]
    ensures ParseRecord(line, "star") == Ok(SampleBody)
  {
    SplitLower(line);
    SampleLowerAll();
    ParseSampleTokens(line);
  }

  lemma SampleLowerAll()
    ensures LowerAll(["Star", "10", "red", "1000", "1", "2", "3", "4"])
         == ["star", "10", "red", "1000", "1", "2", "3", "4"]
  {
    var ts := ["Star", "10", "red", "1000", "1", "2", "3", "4"];
    assert Lower("Star") == "star";
    forall i | 1 <= i < 8
      ensures Lower(ts[i]) == ts[i]
    {
      LowerOfLower(ts[i]);
    }
  }

  /** The sample radius is written `10`. */
  lemma SampleRadiusText()
    ensures FormatInt(Decimal(1, 1)) == "10"
  {
    assert Trunc(Decimal(1, 1)) == 10;
    assert NatToDigits(10) == NatToDigits(1) + [DigitChar(0)];
  }

  /** The sample mass is written by `%s` as `1000.0`, not with six
      decimals. */
  lemma SampleMassText()
    ensures FormatRepr(Decimal(1, 3)) == "1000.0"
  {
    NormalizeCanonical(Decimal(1, 3));
    assert NatToDigits(1) == "1";
    assert PointParts("1", 3) == ("1000", "0") by { assert "1" + Zeros(3) == "1000"; }
  }

  /** A whole-number coordinate of one non-zero digit `c` is written by `%f`
      as `c.000000`. */
  lemma SampleCoordinateText(c: char)
    requires IsDigit(c) && c != '0'
    ensures FormatFixed(Decimal(DigitValue(c), 0)) == [c, '.', '0', '0', '0', '0', '0', '0']
  {
    var n := DigitValue(c);
    assert Pow10(6) == 1000000 by {
      assert Pow10(2) == 100;
      assert Pow10(4) == 10000;
    }
    assert RoundMicros(Decimal(n, 0)) == n * 1000000;
    assert Quot(n * 1000000, 1000000) == n;
    assert DigitChar(n) == c;
    assert NatToDigits(n) == [c];
    assert NatToDigits(0) == "0";
    assert PadDigits(0, 6) == "000000" by { assert Zeros(5) + "0" == "000000"; }
  }

  /** The writer's fields for the sample body:
      `Star 10 red 1000.0 1.000000 2.000000 3.000000 4.000000`. */
  lemma SampleFields()
    ensures Fields(SampleBody)
         == ["Star", "10", "red", "1000.0", "1.000000", "2.000000", "3.000000", "4.000000"]
  {
    SampleRadiusText();
    SampleMassText();
    SampleCoordinateText('1');
    SampleCoordinateText('2');
    SampleCoordinateText('3');
    SampleCoordinateText('4');
  }

  /** The sample body is its own reloaded form: every field survives the
      writer's formatting unchanged. */
  lemma SampleReloaded()
    ensures Reloaded(SampleBody) == SampleBody
  {
    NormalizeShift(1, 1, 1);
    NormalizeCanonical(Decimal(1, 1));
    NormalizeCanonical(Decimal(1, 3));
    LowerOfLower("red");
    SampleCoordinateMicros(1);
    SampleCoordinateMicros(2);
    SampleCoordinateMicros(3);
    SampleCoordinateMicros(4);
  }

  lemma SampleCoordinateMicros(n: nat)
    requires 0 < n < 10
    ensures Normalize(Decimal(RoundMicros(Decimal(n, 0)), -6)) == Decimal(n, 0)
  {
    NormalizeShift(n, 0, 6);
    NormalizeCanonical(Decimal(n, 0));
  }
}
