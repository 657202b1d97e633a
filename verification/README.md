# PuLogger transmission record in Dafny

PuLogger receives radio transmissions from remote temperature/humidity
sensors ("xmitters"). Each one is held in a `Transmission` record. The record
keeps the sender's ID and two readings, temperature and relative humidity.
Each reading is stored as an integer count of hundredths. Beside the fields
the record offers:

- rounding accessors `getRawTemp`/`getRawHum`, computing `(raw + 5) / 10`;
- floating accessors `getTemp`/`getHum`, computing `raw / 10.0`;
- a change-detection predicate `changed`, comparing two records against a
  temperature hysteresis and a humidity hysteresis;
- `printCSV`, which prints `int(getTemp())` and `int(getHum())` as
  `"%i;%i;\n"`.

This project models the record as a Dafny datatype with pure functions and
proves how its fixed-point arithmetic behaves.

Files:

- `c_arith.dfy` (module `CArith`): the C++ semantics the record depends on.
  It covers the 32-bit `int`, and `/` and `%` on `int`, which truncate
  toward zero. Dafny's own operators are Euclidean. It also covers `int(x)`
  of a floating value, which truncates toward zero, and `abs` of a floating
  value.
- `transmission.dfy` (module `PuLogger`): the record, its accessors, and the
  constructor that converts degrees and percent into hundredths.
- `transmission_properties.dfy` (module `PuLoggerProperties`): lemmas that
  relate several accessors or several records.

What the model shows about the code as written:

- The rounding is round-half-up only from -5 hundredths upward. Below that,
  truncating division rounds toward zero. A negated reading of 5 hundredths
  or more therefore rounds one tenth higher than the negated result: 14
  gives 1, but -14 gives 0.
- Readings are stored times 100 but read back divided by 10. So `getTemp()`
  of a record built from 21.34 degrees is 213.4, ten times the reading.
  `changed` compares these tenfold values, so in hundredths each hysteresis
  counts ten times.
- `printCSV` computes a third value, `int(getHum() * 10) % 10`. Its format
  string has only two conversions, so that value never reaches the line.

All three are modelled as the code behaves.

Floating values are idealised as exact reals. This covers the `double`
arguments of the constructor, the `float` results of `getTemp`/`getHum`,
and the hysteresis arguments of `changed`.

## Model

| member | source | states |
|---|---|---|
| `CArith.TruncDiv` | libraries/PuLogger/Transmission.h:11-12 | C++ `/` by a positive divisor. For n >= 0 the quotient q satisfies q*d <= n < q*d + d. For n < 0 it satisfies q*d - d < n <= q*d. So it truncates toward zero. |
| `CArith.TruncRem` | libraries/PuLogger/Transmission.h:17 | C++ `%`. It satisfies n == TruncDiv(n, d)*d + r. The remainder takes the sign of n and is smaller than d in magnitude. |
| `CArith.TruncDivVersusEuclidean` | libraries/PuLogger/Transmission.h:11-12 | Truncating division by ten equals Euclidean division exactly when n >= 0 or n is a multiple of ten. Otherwise it is one more. |
| `CArith.TruncReal` | libraries/PuLogger/Transmission.h:8 | `int(x)` of a floating value, idealised as exact: truncation toward zero. The result n satisfies n <= x < n + 1 for x >= 0, and n - 1 < x <= n for x < 0. |
| `CArith.RealAbs` | libraries/PuLogger/Transmission.h:15 | `abs` of a floating value: a non-negative value equal to x or to -x. |
| `CArith.TruncRealOfTenth` | libraries/PuLogger/Transmission.h:16 | `int(n / 10.0)` equals the C++ integer quotient `n / 10`. |
| `PuLogger.Make` | libraries/PuLogger/Transmission.h:5-8 | The constructor stores the ID unchanged. Each reading becomes its count of hundredths, truncated toward zero. The conversion must fit a 32-bit int. |
| `PuLogger.Transmission.GetRawTemp` | libraries/PuLogger/Transmission.h:11 | For tempRaw >= -5 the result r satisfies 10r - 5 <= tempRaw < 10r + 5, i.e. round half up to tenths. For tempRaw < -5 it satisfies 10r - 15 < tempRaw <= 10r - 5. `tempRaw + 5` must not overflow. |
| `PuLogger.Transmission.GetRawHum` | libraries/PuLogger/Transmission.h:12 | The same two rounding bands, applied to humRaw. |
| `PuLogger.Transmission.GetTemp` | libraries/PuLogger/Transmission.h:13 | Ten times the result is tempRaw. So one hundred times the result is ten times the stored hundredths. |
| `PuLogger.Transmission.GetHum` | libraries/PuLogger/Transmission.h:14 | Ten times the result is humRaw, with the same tenfold scale. |
| `PuLogger.Transmission.Changed` | libraries/PuLogger/Transmission.h:15 | True iff the difference in tempRaw exceeds ten times the temperature hysteresis, or the difference in humRaw exceeds ten times the humidity hysteresis. Both comparisons are strict. |
| `PuLogger.Transmission.CsvFields` | libraries/PuLogger/Transmission.h:16 | The two printed integers are tempRaw and humRaw, each truncated-divided by 10. This truncation bounds the temperature field. |
| `PuLogger.Transmission.HumTenthsDigit` | libraries/PuLogger/Transmission.h:16-17 | The third computed value is the last decimal digit of humRaw, with humRaw's sign. With the printed humidity h it satisfies humRaw == 10h + digit. |
| `PuLoggerProperties.RawTempExamples` | libraries/PuLogger/Transmission.h:11 | 2134 gives 213, 2135 gives 214, 2130 gives 213, 14 gives 1, -14 gives 0, -16 gives -1. |
| `PuLoggerProperties.RawTempIsHalfUpIff` | libraries/PuLogger/Transmission.h:11 | getRawTemp equals floor((tempRaw + 5)/10) iff tempRaw >= -5 or tempRaw + 5 is a multiple of ten. Otherwise it is one more. |
| `PuLoggerProperties.NegatedReadingRoundsHigher` | libraries/PuLogger/Transmission.h:11 | For x >= 5, getRawTemp of -x is 1 minus getRawTemp of x. For 0 <= x <= 4 both are 0. |
| `PuLoggerProperties.RawTempMonotone` | libraries/PuLogger/Transmission.h:11 | getRawTemp is non-decreasing in tempRaw. |
| `PuLoggerProperties.RawHumIsRawTempOfHumidity` | libraries/PuLogger/Transmission.h:11-12 | getRawHum is getRawTemp's function applied to humRaw, and it reads no other field. |
| `PuLoggerProperties.ReadBackTempIsTenfold` | libraries/PuLogger/Transmission.h:8-13 | A record built from t degrees reads back through getTemp as 10t, less than 0.1 toward zero. It is exactly 10t when t is a whole number of hundredths. |
| `PuLoggerProperties.ReadBackHumIsTenfold` | libraries/PuLogger/Transmission.h:8-14 | The same tenfold read-back for humidity through getHum. |
| `PuLoggerProperties.EndToEndExample` | libraries/PuLogger/Transmission.h:8-16 | Transmission(7, 21.3, 55.0) stores 2130 and 5500. It reads back 213.0 and 550.0, rounds to 213 and 550, and prints 213 and 550. |
| `PuLoggerProperties.ChangedSymmetric` | libraries/PuLogger/Transmission.h:15 | changed(a, b) == changed(b, a) for every pair of hysteresis values. |
| `PuLoggerProperties.ChangedSelfIff` | libraries/PuLogger/Transmission.h:15 | A record is changed against itself iff a hysteresis is negative. |
| `PuLoggerProperties.ChangedAtExactDifference` | libraries/PuLogger/Transmission.h:15 | Hysteresis equal to the actual differences gives false. Lowering either hysteresis by any positive amount gives true. |
| `PuLoggerProperties.ChangedAntitoneInHysteresis` | libraries/PuLogger/Transmission.h:15 | A change reported under larger hysteresis values is also reported under smaller ones. |
| `PuLoggerProperties.ChangedNotTransitive` | libraries/PuLogger/Transmission.h:15 | Three records exist where neither neighbouring pair is changed but the first and last are. Readings that rise by exactly the hysteresis at each step show this. |
| `PuLoggerProperties.UnchangedTriangle` | libraries/PuLogger/Transmission.h:15 | If a is not changed against b and b is not changed against c, then a is not changed against c under the summed hysteresis values. |
| `PuLoggerProperties.SteadyDriftBound` | libraries/PuLogger/Transmission.h:15 | Take a run of k+1 records in which no neighbour is changed against the next. Then the first is not changed against the last under k times each hysteresis. So drift that changed never reports can grow at most linearly in the number of steps. |
| `PuLoggerProperties.ChangedIgnoresSender` | libraries/PuLogger/Transmission.h:15 | The sender ID does not affect changed. |
| `PuLoggerProperties.CsvTruncatesWhereRawTempRounds` | libraries/PuLogger/Transmission.h:11-16 | The printed temperature is at most one tenth below getRawTemp. For non-negative readings it is one below exactly when the hundredths digit is at least 5. |
| `PuLoggerProperties.TenthsDigitNotInCsv` | libraries/PuLogger/Transmission.h:16-17 | Raising humRaw by one within a decade changes the third computed value by one. Both printed fields stay the same, so that value is not in the line. |

## Left out

- Floating-point rounding. `float` and `double` are exact reals here, so
  conversions and divisions do not round. The real code can differ in
  these cases:
  - The double product `temp * 100` can fall just below a whole number.
    For example, `0.29 * 100` is 28.999999999999996 in IEEE double, so
    `int(...)` stores one hundredth less than the model.
  - `float(tempRaw)` is exact only while |tempRaw| < 2^24.
  - `getTemp`/`getHum` round their quotient to `float`.
- `changed` uses `abs`. It is modelled as the real absolute value. Which
  overload the real code calls depends on the toolchain: the Arduino macro
  and `std::abs(float)` behave that way, but a plain C `abs(int)` would
  truncate its argument first.
- The printed text of `printCSV` is output to a sink. Only the integers it
  formats are modelled (`CsvFields`, `HumTenthsDigit`). Decimal formatting
  is not modelled.
- The width of `int` is fixed at 32 bits. On 8-bit AVR boards `int` is
  16 bits, which would lower the overflow bounds in `Make`, `GetRawTemp`
  and `GetRawHum`. Signed overflow in `tempRaw + 5` and an
  out-of-range `int(temp * 100)` are undefined behaviour in C++. They are
  modelled as preconditions, not as wrap-around.
- The `xmitterID` default of -1 is the constant `UNSET_XMITTER_ID`. The
  struct declares a constructor, so it has no default constructor. Its only
  constructor always overwrites the ID, and no path in this file yields
  the sentinel.
- The fields are public and mutable in C++, but nothing in this file writes
  them after construction. The record is modelled as an immutable value.
- Radio reception, logging, persistence and concurrent use are not part of
  this model.
