/**
 * One radio transmission from a remote temperature/humidity sensor (an
 * "xmitter"): the sender's ID and two fixed-point readings kept as integer
 * counts of hundredths, with the accessors that convert them, the
 * change-detection predicate and the two integers the CSV line carries.
 *
 * `float` and `double` values are idealised as exact reals throughout.
 */
module PuLogger {
  import opened CArith

  /** The default initialiser of `xmitterID`: the "sender unknown" sentinel. */
  const UNSET_XMITTER_ID: Int32 := -1

  datatype Transmission = Transmission(xmitterID: Int32, tempRaw: Int32, humRaw: Int32)
  {
    /**
     * getRawTemp: `(tempRaw + 5) / 10` with C++ truncating division. From
     * -5 hundredths upward this rounds to the nearest ten, ties upward;
     * below that the truncation pulls the other way, and the result is the
     * ten just ABOVE the reading or one step further.
     */
    function GetRawTemp(): (r: Int32)
      requires tempRaw as int + 5 <= INT_MAX
      ensures -5 <= tempRaw as int ==> 10 * r as int - 5 <= tempRaw as int < 10 * r as int + 5
      ensures tempRaw as int < -5 ==> 10 * r as int - 15 < tempRaw as int <= 10 * r as int - 5
    {
      TruncDiv(tempRaw as int + 5, 10) as Int32
    }

    /** getRawHum: the same rounding, applied to `humRaw`. */
    function GetRawHum(): (r: Int32)
      requires humRaw as int + 5 <= INT_MAX
      ensures -5 <= humRaw as int ==> 10 * r as int - 5 <= humRaw as int < 10 * r as int + 5
      ensures humRaw as int < -5 ==> 10 * r as int - 15 < humRaw as int <= 10 * r as int - 5
    {
      TruncDiv(humRaw as int + 5, 10) as Int32
    }

    /**
     * getTemp: `float(tempRaw) / 10.0`. The store is in hundredths but the
     * read divides by ten, so the value is ten times the reading in degrees.
     */
    function GetTemp(): (r: real)
      ensures r * 10.0 == tempRaw as real
      ensures r * 100.0 == 10.0 * tempRaw as real
    {
      tempRaw as real / 10.0
    }

    /** getHum: `float(humRaw) / 10.0`, with the same tenfold scale. */
    function GetHum(): (r: real)
      ensures r * 10.0 == humRaw as real
      ensures r * 100.0 == 10.0 * humRaw as real
    {
      humRaw as real / 10.0
    }

    /**
     * changed: either converted reading differs from `other`'s by strictly
     * more than its hysteresis. Measured in hundredths, the hysteresis is
     * multiplied by ten.
     */
    function Changed(other: Transmission, tempHys: real, humHys: real): (r: bool)
      ensures r <==> (RealAbs(tempRaw as real - other.tempRaw as real) > 10.0 * tempHys
                      || RealAbs(humRaw as real - other.humRaw as real) > 10.0 * humHys)
    {
      RealAbs(GetTemp() - other.GetTemp()) > tempHys || RealAbs(GetHum() - other.GetHum()) > humHys
    }

    /**
     * The two integers that printCSV formats, `int(getTemp())` and
     * `int(getHum())`: each raw value truncated (not rounded) toward zero
     * to a multiple of ten hundredths.
     */
    function CsvFields(): (fields: (int, int))
      ensures fields.0 == TruncDiv(tempRaw as int, 10) && fields.1 == TruncDiv(humRaw as int, 10)
      ensures 0 <= tempRaw ==> fields.0 * 10 <= tempRaw as int < fields.0 * 10 + 10
      ensures tempRaw < 0 ==> fields.0 * 10 - 10 < tempRaw as int <= fields.0 * 10
    {
      TruncRealOfTenth(tempRaw as int);
      TruncRealOfTenth(humRaw as int);
      (TruncReal(GetTemp()), TruncReal(GetHum()))
    }

    /**
     * The third value printCSV computes, `int(getHum() * 10) % 10`, which
     * its format string never consumes: the last decimal digit of `humRaw`,
     * carrying the sign of `humRaw`.
     */
    function HumTenthsDigit(): (d: int)
      ensures 0 <= humRaw ==> d == humRaw as int % 10
      ensures humRaw < 0 ==> d == -((-(humRaw as int)) % 10)
      ensures humRaw as int == CsvFields().1 * 10 + d
    {
      var n := humRaw as int;
      assert TruncReal(GetHum() * 10.0) == n;
      assert 0 <= n ==> TruncDiv(n, 10) == n / 10;
      assert n < 0 ==> TruncDiv(n, 10) == -((-n) / 10);
      TruncRem(TruncReal(GetHum() * 10.0), 10)
    }
  }

  /**
   * The constructor `Transmission(xmitterID, temp, hum)`: the ID is stored
   * as given and each reading as `int(value * 100)`, its count of
   * hundredths truncated toward zero. The conversion must fit an `int`.
   */
  function Make(id: Int32, temp: real, hum: real): (t: Transmission)
    requires InInt32(TruncReal(temp * 100.0)) && InInt32(TruncReal(hum * 100.0))
    ensures t.xmitterID == id
    ensures 0.0 <= temp ==> 0 <= t.tempRaw && t.tempRaw as real <= temp * 100.0 < t.tempRaw as real + 1.0
    ensures temp < 0.0 ==> t.tempRaw <= 0 && t.tempRaw as real - 1.0 < temp * 100.0 <= t.tempRaw as real
    ensures 0.0 <= hum ==> 0 <= t.humRaw && t.humRaw as real <= hum * 100.0 < t.humRaw as real + 1.0
    ensures hum < 0.0 ==> t.humRaw <= 0 && t.humRaw as real - 1.0 < hum * 100.0 <= t.humRaw as real
  {
    Transmission(id, TruncReal(temp * 100.0) as Int32, TruncReal(hum * 100.0) as Int32)
  }
}
