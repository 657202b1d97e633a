/**
 * Properties of the transmission record that relate several accessors or
 * several transmissions: how the `(raw + 5) / 10` rounding behaves on both
 * sides of zero, the tenfold read-back scale, the change-detection
 * predicate, and what the CSV line does and does not carry.
 */
module PuLoggerProperties {
  import opened CArith
  import opened PuLogger

  // ---------------------------------------------------------------------
  // Rounding to tenths: getRawTemp / getRawHum
  // ---------------------------------------------------------------------

  /** Hand-computed values of getRawTemp on both sides of zero. */
  lemma RawTempExamples()
    ensures Transmission(1, 2134, 0).GetRawTemp() == 213
    ensures Transmission(1, 2135, 0).GetRawTemp() == 214
    ensures Transmission(1, 2130, 0).GetRawTemp() == 213
    ensures Transmission(1, 14, 0).GetRawTemp() == 1
    ensures Transmission(1, -14, 0).GetRawTemp() == 0
    ensures Transmission(1, -16, 0).GetRawTemp() == -1
  {
  }

  /**
   * getRawTemp equals the true round-half-up `floor((raw + 5) / 10)`
   * exactly when the reading is at least -5 hundredths or `raw + 5` is a
   * multiple of ten; otherwise it is one more than that.
   */
  lemma {:induction false} RawTempIsHalfUpIff(t: Transmission)
    requires t.tempRaw as int + 5 <= INT_MAX
    ensures t.GetRawTemp() as int == (t.tempRaw as int + 5) / 10
            <==> (-5 <= t.tempRaw as int || (t.tempRaw as int + 5) % 10 == 0)
    ensures t.GetRawTemp() as int == (t.tempRaw as int + 5) / 10
            || t.GetRawTemp() as int == (t.tempRaw as int + 5) / 10 + 1
  {
    TruncDivVersusEuclidean(t.tempRaw as int + 5);
  }

  /**
   * The rounding is not symmetric about zero: for a reading of 5
   * hundredths or more, the negated reading rounds to one tenth more than
   * the negation of the rounded reading (e.g. 14 gives 1 but -14 gives 0).
   * Only readings 0..4, which both round to 0, behave symmetrically.
   */
  lemma {:induction false} NegatedReadingRoundsHigher(t: Transmission, u: Transmission)
    requires 0 <= t.tempRaw && t.tempRaw as int + 5 <= INT_MAX
    requires u.tempRaw as int == -(t.tempRaw as int)
    ensures t.tempRaw < 5 ==> u.GetRawTemp() == 0 && t.GetRawTemp() == 0
    ensures 5 <= t.tempRaw ==> u.GetRawTemp() as int == 1 - t.GetRawTemp() as int
  {
    var x := t.tempRaw as int;
    var r, s := t.GetRawTemp() as int, u.GetRawTemp() as int;
    if 5 <= x {
      assert 10 * r - 5 <= x < 10 * r + 5;
      if -x < -5 {
        assert 10 * s - 15 < -x <= 10 * s - 5;
      } else {
        assert x == 5 && s == 0;
      }
    }
  }

  /** getRawTemp never decreases when the reading increases. */
  lemma {:induction false} RawTempMonotone(a: Transmission, b: Transmission)
    requires a.tempRaw <= b.tempRaw && b.tempRaw as int + 5 <= INT_MAX
    ensures a.GetRawTemp() <= b.GetRawTemp()
  {
    var x, y := a.tempRaw as int + 5, b.tempRaw as int + 5;
    TruncDivVersusEuclidean(x);
    TruncDivVersusEuclidean(y);
    assert x / 10 <= y / 10;
  }

  /**
   * getRawHum is the same rounding as getRawTemp, applied to the humidity
   * field, and reads no other field.
   */
  lemma RawHumIsRawTempOfHumidity(t: Transmission, u: Transmission)
    requires t.humRaw as int + 5 <= INT_MAX
    requires u.tempRaw == t.humRaw
    ensures t.GetRawHum() == u.GetRawTemp()
  {
  }

  // ---------------------------------------------------------------------
  // Construction and the tenfold read-back scale
  // ---------------------------------------------------------------------

  /**
   * A transmission built from `temp` degrees reads back through getTemp as
   * ten times `temp` (stored times 100, read divided by 10), truncated
   * toward zero by less than a tenth; exactly ten times `temp` when `temp`
   * is a whole number of hundredths.
   */
  lemma {:induction false} ReadBackTempIsTenfold(id: Int32, temp: real, hum: real)
    requires InInt32(TruncReal(temp * 100.0)) && InInt32(TruncReal(hum * 100.0))
    ensures 0.0 <= temp ==> 10.0 * temp - 0.1 < Make(id, temp, hum).GetTemp() <= 10.0 * temp
    ensures temp < 0.0 ==> 10.0 * temp <= Make(id, temp, hum).GetTemp() < 10.0 * temp + 0.1
    ensures (temp * 100.0).Floor as real == temp * 100.0 ==> Make(id, temp, hum).GetTemp() == 10.0 * temp
  {
    var t := Make(id, temp, hum);
    assert t.GetTemp() * 10.0 == t.tempRaw as real;
    if (temp * 100.0).Floor as real == temp * 100.0 {
      assert t.tempRaw as int == (temp * 100.0).Floor;
    }
  }

  /** The same tenfold read-back for humidity through getHum. */
  lemma {:induction false} ReadBackHumIsTenfold(id: Int32, temp: real, hum: real)
    requires InInt32(TruncReal(temp * 100.0)) && InInt32(TruncReal(hum * 100.0))
    ensures 0.0 <= hum ==> 10.0 * hum - 0.1 < Make(id, temp, hum).GetHum() <= 10.0 * hum
    ensures hum < 0.0 ==> 10.0 * hum <= Make(id, temp, hum).GetHum() < 10.0 * hum + 0.1
    ensures (hum * 100.0).Floor as real == hum * 100.0 ==> Make(id, temp, hum).GetHum() == 10.0 * hum
  {
    var t := Make(id, temp, hum);
    assert t.GetHum() * 10.0 == t.humRaw as real;
    if (hum * 100.0).Floor as real == hum * 100.0 {
      assert t.humRaw as int == (hum * 100.0).Floor;
    }
  }

  /** Transmission(7, 21.3, 55.0) worked through every accessor. */
  lemma EndToEndExample()
    ensures Make(7, 21.3, 55.0) == Transmission(7, 2130, 5500)
    ensures Make(7, 21.3, 55.0).GetTemp() == 213.0 && Make(7, 21.3, 55.0).GetHum() == 550.0
    ensures Make(7, 21.3, 55.0).GetRawTemp() == 213 && Make(7, 21.3, 55.0).GetRawHum() == 550
    ensures Make(7, 21.3, 55.0).CsvFields() == (213, 550)
  {
    var t := Make(7, 21.3, 55.0);
    assert t.tempRaw == 2130 && t.humRaw == 5500;
  }

  // ---------------------------------------------------------------------
  // Change detection: changed
  // ---------------------------------------------------------------------

  /** Swapping the two transmissions does not change the verdict. */
  lemma ChangedSymmetric(a: Transmission, b: Transmission, tempHys: real, humHys: real)
    ensures a.Changed(b, tempHys, humHys) == b.Changed(a, tempHys, humHys)
  {
  }

  /**
   * A transmission differs from itself exactly when a hysteresis is
   * negative; with non-negative hysteresis it never does.
   */
  lemma ChangedSelfIff(a: Transmission, tempHys: real, humHys: real)
    ensures a.Changed(a, tempHys, humHys) <==> (tempHys < 0.0 || humHys < 0.0)
  {
  }

  /**
   * The comparison is strict: a hysteresis exactly equal to the difference
   * in each reading reports no change, and lowering either one by any
   * positive amount reports a change.
   */
  lemma ChangedAtExactDifference(a: Transmission, b: Transmission, e: real)
    requires 0.0 < e
    ensures var dt, dh := RealAbs(a.GetTemp() - b.GetTemp()), RealAbs(a.GetHum() - b.GetHum());
            && !a.Changed(b, dt, dh)
            && a.Changed(b, dt - e, dh)
            && a.Changed(b, dt, dh - e)
  {
  }

  /** Raising a hysteresis can only turn a reported change into none. */
  lemma ChangedAntitoneInHysteresis(a: Transmission, b: Transmission,
                                    tempHys: real, humHys: real, tempHys': real, humHys': real)
    requires tempHys <= tempHys' && humHys <= humHys'
    requires a.Changed(b, tempHys', humHys')
    ensures a.Changed(b, tempHys, humHys)
  {
  }

  /**
   * "Not changed" is not transitive: readings that creep up by exactly the
   * hysteresis at each step are never reported against their predecessor,
   * yet the first and the last differ by more than the hysteresis.
   */
  lemma ChangedNotTransitive()
    ensures exists a: Transmission, b: Transmission, c: Transmission ::
              && !a.Changed(b, 1.0, 0.0)
              && !b.Changed(c, 1.0, 0.0)
              && a.Changed(c, 1.0, 0.0)
  {
    var a, b, c := Transmission(1, 0, 0), Transmission(1, 10, 0), Transmission(1, 20, 0);
    assert !a.Changed(b, 1.0, 0.0) && !b.Changed(c, 1.0, 0.0) && a.Changed(c, 1.0, 0.0);
  }

  /** No two neighbours in `s` differ by more than the hysteresis. */
  predicate Steady(s: seq<Transmission>, tempHys: real, humHys: real) {
    forall i :: 0 < i < |s| ==> !s[i - 1].Changed(s[i], tempHys, humHys)
  }

  /**
   * Unreported differences add up: if `a` is not changed against `b` and
   * `b` not against `c`, then `a` is not changed against `c` under the
   * summed hysteresis.
   */
  lemma UnchangedTriangle(a: Transmission, b: Transmission, c: Transmission,
                          tempHys: real, humHys: real, tempHys': real, humHys': real)
    requires !a.Changed(b, tempHys, humHys) && !b.Changed(c, tempHys', humHys')
    ensures !a.Changed(c, tempHys + tempHys', humHys + humHys')
  {
  }

  /** Every prefix of a steady run is steady. */
  lemma SteadyPrefix(s: seq<Transmission>, n: nat, tempHys: real, humHys: real)
    requires n <= |s| && Steady(s, tempHys, humHys)
    ensures Steady(s[..n], tempHys, humHys)
  {
    var p := s[..n];
    forall i | 0 < i < |p| ensures !p[i - 1].Changed(p[i], tempHys, humHys) {
      assert p[i - 1] == s[i - 1] && p[i] == s[i];
    }
  }

  /** `h` added up `k` times. */
  function Times(k: nat, h: real): (r: real)
    ensures 0.0 <= h ==> 0.0 <= r
  {
    if k == 0 then 0.0 else Times(k - 1, h) + h
  }

  /** Adding `h` up `k` times is multiplying it by `k`. */
  lemma {:induction false} TimesIsProduct(k: nat, h: real)
    ensures Times(k, h) == k as real * h
  {
    if k > 0 {
      TimesIsProduct(k - 1, h);
      assert (k - 1) as real * h + h == k as real * h;
    }
  }

  /**
   * How far unreported drift can go: along a run of transmissions where no
   * neighbour differs from the next by more than the hysteresis, the first
   * and the last differ by at most the hysteresis times the number of steps.
   */
  lemma {:induction false} SteadyDriftBound(s: seq<Transmission>, tempHys: real, humHys: real)
    requires |s| >= 1 && Steady(s, tempHys, humHys)
    ensures !s[0].Changed(s[|s| - 1], Times(|s| - 1, tempHys), Times(|s| - 1, humHys))
  {
    var n := |s| - 1;
    if n > 0 {
      SteadyPrefix(s, n, tempHys, humHys);
      SteadyDriftBound(s[..n], tempHys, humHys);
      assert s[..n][0] == s[0] && s[..n][n - 1] == s[n - 1];
      UnchangedTriangle(s[0], s[n - 1], s[n], Times(n - 1, tempHys), Times(n - 1, humHys), tempHys, humHys);
    }
  }

  /** The sender ID plays no part in change detection. */
  lemma ChangedIgnoresSender(a: Transmission, b: Transmission, id: Int32, tempHys: real, humHys: real)
    ensures a.(xmitterID := id).Changed(b, tempHys, humHys) == a.Changed(b, tempHys, humHys)
  {
  }

  // ---------------------------------------------------------------------
  // The CSV line
  // ---------------------------------------------------------------------

  /**
   * The temperature the CSV line carries is truncated where getRawTemp
   * rounds: the two differ by at most one tenth, and for non-negative
   * readings they differ exactly when the hundredths digit is 5 or more.
   */
  lemma {:induction false} CsvTruncatesWhereRawTempRounds(t: Transmission)
    requires t.tempRaw as int + 5 <= INT_MAX
    ensures 0 <= t.GetRawTemp() as int - t.CsvFields().0 <= 1
    ensures 0 <= t.tempRaw ==> (t.GetRawTemp() as int - t.CsvFields().0 == 1 <==> t.tempRaw as int % 10 >= 5)
  {
    var x := t.tempRaw as int;
    var r, c := t.GetRawTemp() as int, t.CsvFields().0;
    if 0 <= x {
      assert 10 * r - 5 <= x < 10 * r + 5;
      assert c * 10 <= x < c * 10 + 10;
      assert c == x / 10;
    } else if -5 <= x {
      assert 10 * r - 5 <= x < 10 * r + 5;
      assert c * 10 - 10 < x <= c * 10;
    } else {
      assert 10 * r - 15 < x <= 10 * r - 5;
      assert c * 10 - 10 < x <= c * 10;
    }
  }

  /**
   * The third computed value never reaches the CSV line: bumping the last
   * digit of a non-negative humidity changes that value but leaves both
   * emitted fields as they were.
   */
  lemma {:induction false} TenthsDigitNotInCsv(t: Transmission)
    requires 0 <= t.humRaw && t.humRaw as int < INT_MAX && t.humRaw as int % 10 != 9
    ensures var u := t.(humRaw := t.humRaw + 1);
            && u.CsvFields() == t.CsvFields()
            && u.HumTenthsDigit() == t.HumTenthsDigit() + 1
  {
    var n := t.humRaw as int;
    var u := t.(humRaw := t.humRaw + 1);
    assert (n + 1) / 10 == n / 10;
    assert u.CsvFields().1 == (n + 1) / 10;
    assert t.CsvFields().1 == n / 10;
  }
}
