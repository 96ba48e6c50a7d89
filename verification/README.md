# Verification of the observation control program's core

This project models the parts of the program whose correctness is least obvious and proves what they are for:

- **Linear algebra** (`RealSums`, `Matrices`, `LuDecomposition`, `LuCorrectness`, `LuPivoting`, `Determinant`,
  `LuDeterminant`, `LuSingular`, `FlatMatrix`, `Elimination`, `Substitution`, `Columns`, `LeastSquares`, `NormalEquations`, `AMath.dfy`):
  in-place LU decomposition with scaled partial pivoting on a row-major array, forward and back substitution, inverse,
  determinant and linear least squares. `LuRun` is the decomposition as a function of the matrix, the methods of
  class `AMath` are proved to compute it on the array, and the lemmas carry a nonsingular matrix through
  "every column has a pivot", "P A = L U", "A x = b", "the residual is minimal".
- **Selection and interpolation** (`KSelect`, `Polynomials`, `Lagrange`, `Spline`, `SplineMethods`).
- **Time** (`Calendar`, `JulianDates`, `TimeScale`, `Sexagesimal`, `SexagesimalText`, `Almanac`): calendar conversion, the
  leap-second table, sexagesimal text, and the memo table of `ATimeSpace`.
- **Observation system** (`ObservationState`, `ObservationSafety`, `ObservationPlans`, `ObservationSystem`): every callback and every
  round of the plan thread is one step of a state machine (`ObservationState.Next`); the lemmas hold for every run, and
  the methods of the class are proved to make exactly these steps.
- **Resend queue** (`ResendQueue`): serials, answers, devices going off line, and the resending thread.
- **Protocol text and byte streams** (`KVText`, `KVNumbers`, `KVSpelling`, `KVMessages`, `KVWire`, `KVProtocol`,
  `ByteStream`, `KVStream`).

Doubles are modelled as exact reals, 32-bit integers as a bounded subset of the integers where they are read from text,
and unbounded elsewhere. `sin`, `cos`, the nutation series and the other series are parameters.

## What the proofs show about the code

- `LUdcmp` accepts every matrix without a zero row. A singular one can be accepted: the pivot search then keeps the row
  of the step before (or the pivot becomes TINY). The factors are right exactly for the nonsingular matrices.
- `LUDet` returns the determinant of every nonsingular matrix and 0 for one with a zero row. For an accepted singular
  matrix the result is right exactly when a zero is left on the diagonal of the array: -1 for [[1, 1], [1, 1]]
  (`LuSingular.SingularAccepted`), but 0, as it should be, for [[1, 1, 1], [0, 1, 2], [1, 1, 1]]
  (`LuSingular.SingularRight`). Given the array that the last call refused, it returns 0 whatever that array holds now:
  right exactly when it is still singular (`LinearAlgebra.AMath.LUDet`, `LinearAlgebra.RefusedArray`).
- `Mjd2Cal` and `ModifiedJulianDay` undo each other from the zero point of the Modified Julian Date on; before it only
  for whole days, because the fraction comes out negative and `SetUTC` refuses it (`Calendar.MjdRoundTrip`, at -0.5
  `Calendar.NegativeFraction`).
- Before the Gregorian reform `Mjd2Cal` gives dates of the Julian calendar, which `ModifiedJulianDay` does not know: the
  two undo each other only in the third century (`JulianDates.EarlyRoundTrip`, at the reform `JulianDates.Reform`).
- `spline` gives the curve the slope asked for at its last knot, but not at its first, although the documentation
  promises both (`SplineMethods.LastSlopeMet`, `SplineMethods.FirstSlopeMissed`, from 0 to 2 over one unit
  `SplineMethods.NotLevel`).
- `DeltaAT` counts the fraction of the day twice before 1972, and `UTC2TAI` then misses every midnight by a little
  (`TimeScale.DriftTwice`, `TimeScale.EarlyMidnight`).
- The TAI getter and `UTC2TAI` are not the same function: within a day that ends with a leap second the getter falls
  behind (`Almanac.TaiGetter`).
- `HourDbl2Str` reduces its argument from 36 hours on only, so hours from 24 to 36 are printed as they are, although the
  documentation names the range [0, 24) (`SexagesimalText.HoursNotReduced`, at 25 hours
  `SexagesimalText.HourTwentyFive`).
- `MoonPosition` sets its mark in the table of values instead of the table of validity, so the position of the
  Moon is computed anew at every call (`Almanac.Session`); the results are still right.
- The cached local sidereal time and the overload that takes a time and a longitude are not the same function: the
  overload adds the nutation after reducing to one turn and does not reduce again. They agree exactly when its sum stays
  within the turn, and always up to whole turns (`Almanac.OverloadAgrees`).
- `SetSite` forgets nothing. Filled local sidereal times stay right exactly when the longitude changes by whole turns
  (`Almanac.ATimeSpace.SetSite`).
- The counter of exposing cameras rests on one assumption: a status report that says exposing comes over a coupled
  connection. Such a report over another connection would make it wrong, and only such a report
  (`ObservationSafety.ReportKeepsCounts`, at the first report `ObservationSafety.StrayReport`). The program registers
  its callback for reports when a camera is coupled, so none is known to arrive.
- A plan ends when the last exposing camera reports that it stopped. One whose last exposing camera loses its
  connection stays open (`ObservationPlans.LinksLeavePlan`).
- The counter of cameras that wait for a flat goes wrong exactly when a camera comes to wait without exposing before,
  or stops or loses its connection while it waits (`ObservationPlans.ReportCountsWaiting`,
  `ObservationPlans.CloseCountsWaiting`, in a run of four events `ObservationPlans.WaitingStays`).
- The answer to a command removes another command from the resend queue exactly when a queued command was issued a
  multiple of 99999 commands away and the answered one is not queued before it (`ResendQueue.RunAnswer`, after 100000
  commands `ResendQueue.SerialsRunOut`).
- The receive loop of the observation system does not ask whether the connection is still open: as long as the lines
  before can be resolved without the null pointer below, it runs forever exactly when a line is too long for a packet
  (`ByteStream.RoundsEnd`, at 1500 characters `ByteStream.LongLineSticks`). The loop of the general control does ask.
- After a failed write nothing more is ever sent over that connection (`ByteStream.FailedStays`).
- When a number in a line cannot be read or does not fit, the resolver drops the message and then reads its type
  through the null pointer left behind, for the log. This happens, over all kinds of messages, exactly for lines in
  which a number of the message's kind is unreadable (`KVMessages.NullAccessExact`), such as "plan state=x," and
  "camera state=x," (`KVMessages.UnreadableLine`).
- A focus message comes back from its text with the fields that its operation does not print at their defaults
  (`KVMessages.RoundTrip`).

## Model

| member | source | states |
|---|---|---|
| LuCorrectness.PivotFound | src/AMath.cpp:224-229 | If the column has a nonzero entry at or below the diagonal, the search ends on such a row, and no candidate has a larger scaled size. |
| LuCorrectness.PivotExists | src/AMath.cpp:223-242 | For a nonsingular matrix every column reached has a nonzero candidate at or below the diagonal: neither the stale row nor TINY is ever used. |
| LuCorrectness.RunKeeps | src/AMath.cpp:223-249 | After k columns of a nonsingular matrix, L times U over the first k columns plus the rest still gives the matrix with its rows exchanged. |
| LuCorrectness.RunFactors | src/AMath.cpp:202-252 | For every nonsingular matrix the decomposition yields unit lower L and upper U with nonzero diagonal whose product is the matrix with the recorded exchanges applied in order. |
| LuCorrectness.FactorsNonsingular | src/AMath.cpp:202-252 | The converse: a matrix that has such factors is nonsingular. |
| LuCorrectness.NonsingularNoZeroRow | src/AMath.cpp:212-221 | The zero-row refusal never hits a nonsingular matrix. |
| LuCorrectness.SolutionSolves | src/AMath.cpp:254-280 | Exchanging b, forward and back substitution with right factors gives a solution of A x = b. |
| LuCorrectness.SolutionUnique | src/AMath.cpp:254-280 | A nonsingular system has one solution. |
| Matrices.ExchangedSolves | src/AMath.cpp:230-241 | Applying the recorded exchanges to the matrix and to b does not change which vectors solve the system. |
| LuDecomposition.EntryEliminated | src/AMath.cpp:243-248 | One elimination step leaves every recombined entry (L times U so far) as it was. |
| LuDecomposition.EntryIsProduct | src/AMath.cpp:243-248 | The short form of a recombined entry equals the full product of the partial factors. |
| LuDecomposition.ForwardSolves | src/AMath.cpp:263-272 | Forward substitution solves the unit lower triangular system. |
| LuDecomposition.BackSolves | src/AMath.cpp:273-277 | Back substitution solves the upper triangular system. |
| LuPivoting.ScaleInverse | src/AMath.cpp:212-220 | The scale of a row is the reciprocal of its largest magnitude. |
| LuPivoting.RunScales | src/AMath.cpp:230-241 | Through the exchanges every row that is not yet reduced keeps the scale it had in the original matrix. |
| LuPivoting.PivotRelative | src/AMath.cpp:223-242 | In every column of a nonsingular matrix the pivot has the greatest magnitude relative to the largest entry that its row had in the original matrix. |
| Elimination.RowScales | src/AMath.cpp:212-221 | Accepts exactly the matrices without a zero row, and returns the reciprocals of the largest row entries. |
| Elimination.FindPivot | src/AMath.cpp:224-229 | The loop over the flat array finds the row of the functional search, including the row kept from before when nothing is found. |
| Elimination.ExchangeRows | src/AMath.cpp:230-240 | Swapping entry by entry through moving pointers exchanges two rows of the matrix and nothing else. |
| Elimination.ReduceRow | src/AMath.cpp:243-248 | One row is reduced in place by the pivot row, with the factor left in the pivot's column. |
| Elimination.ReduceAll | src/AMath.cpp:223-249 | The nested loops leave in the array, the index vector and the exchange count what the functional run gives. |
| Substitution.ForwardInPlace | src/AMath.cpp:263-272 | Permuting while substituting, and skipping leading zeros, gives the forward substitution of the permuted right side. |
| Substitution.BackInPlace | src/AMath.cpp:273-277 | The downward loop computes the back substitution in place. |
| LinearAlgebra.AMath.LUdcmp | src/AMath.cpp:202-252 | Returns true exactly when there is no zero row; a refused matrix is unchanged; a nonsingular one leaves right factors. |
| LinearAlgebra.AMath.LUsolve | src/AMath.cpp:254-280 | After a decomposition of nonsingular A the result solves A x = b for every b, also when x and b are one array; without a decomposition x is unchanged. |
| LinearAlgebra.AMath.LUsolveColumns | src/AMath.cpp:282-297 | After a decomposition of nonsingular A every column of the result solves A x = b for that column of b, also in place. |
| LinearAlgebra.AMath.LUDet | src/AMath.cpp:299-309 | Returns the determinant of a nonsingular matrix, and 0 for a refused one; for every input it says exactly when the result is the determinant. |
| LinearAlgebra.RefusedArray | src/AMath.cpp:299-302 | A refused array rewritten to the identity still has the result 0. |
| LinearAlgebra.AMath.MatrixInvert | src/AMath.cpp:312-328 | A nonsingular matrix is replaced by its two-sided inverse. |
| LinearAlgebra.InverseTimesOriginal | src/AMath.cpp:312-354 | The inverse that MatrixInvert leaves, multiplied with the original by MatrixMultiply, is the identity. |
| LinearAlgebra.AMath.LSFitLinear | src/AMath.cpp:165-200 | When the Gram matrix is nonsingular, no coefficients give a smaller sum of squared residuals; the samples are unchanged. |
| LinearAlgebra.InverseByColumns | src/AMath.cpp:312-328 | Solving for the columns of the identity gives a left and right inverse. |
| LinearAlgebra.LeftInverse | src/AMath.cpp:312-328 | A right inverse of a nonsingular matrix is a left inverse. |
| Columns.MatrixMultiply | src/AMath.cpp:331-354 | Every entry is the product of row and column of the operands as they were on entry, also when the result overwrites an operand. |
| Determinant.DetSwap | src/AMath.cpp:230-241 | The recursively defined determinant changes its sign when two rows are exchanged. |
| Determinant.DetAddRow | src/AMath.cpp:243-248 | It does not change when a multiple of one row is added to another. |
| Determinant.DetTriangular | src/AMath.cpp:299-309 | On a triangular matrix it is the product of the diagonal. |
| LuDeterminant.RunDet | src/AMath.cpp:223-249 | After k columns the working matrix has the determinant of the input up to the sign of the exchanges counted. |
| LuDeterminant.PivotProduct | src/AMath.cpp:299-309 | The product of U's diagonal, negated for an odd exchange count, is the determinant of a nonsingular matrix. |
| LuDeterminant.RunOrZero | src/AMath.cpp:223-249 | Either every column so far had a candidate and the factors and the determinant are kept, or the determinant is zero. |
| LuDeterminant.DetDecides | src/AMath.cpp:299-309 | A square matrix is nonsingular exactly when its determinant is not zero. |
| LuSingular.SingularAccepted | src/AMath.cpp:224-242 | The singular matrix of ones is accepted with a stale pivot row, and its diagonal product with sign is -1. |
| LuSingular.SingularRight | src/AMath.cpp:224-242 | Another singular matrix is accepted with a stale pivot row, and its diagonal product is the right 0. |
| LeastSquares.CostDifference | src/AMath.cpp:165-200 | Any other coefficients cost more by exactly the sum of squares of the difference of the fits. |
| LeastSquares.Minimises | src/AMath.cpp:165-200 | A solution of the normal equations minimises the sum of squared residuals. |
| LeastSquares.MinimumUnique | src/AMath.cpp:165-200 | With a nonsingular Gram matrix it is the only minimum. |
| LeastSquares.GramNonsingular | src/AMath.cpp:176-190 | The Gram matrix is nonsingular exactly when the basis functions are independent on the samples. |
| NormalEquations.NormalSystem | src/AMath.cpp:176-190 | The double loop over all pairs of basis functions fills the Gram matrix and the right side. |
| KSelect.Select | src/AMath.h:89-149 | The array is permuted, the result is the element of rank k of the array as it was, everything left of k is no larger and everything right no smaller; for k out of range -1 and no change. |
| KSelect.MedianOfThree | src/AMath.h:111-129 | The three exchanges shuffle within the range and order its first two entries and its last, which are the sentinels of the scans. |
| KSelect.ScanUp | src/AMath.h:134-134 | The upward scan stops inside the range, at the first entry that is not smaller than the pivot. |
| KSelect.ScanDown | src/AMath.h:135-135 | The downward scan stops inside the range, at the first entry that is not larger than the pivot. |
| KSelect.Partition | src/AMath.h:130-142 | The scans stop with i = j or i = j + 1, and the pivot at j separates the range. |
| KSelect.Narrow | src/AMath.h:111-145 | One round keeps what is left of the range below and what is right of it above, and shrinks the range around k. |
| KSelect.RankOfRearranged | src/AMath.h:89-149 | If a rearrangement is split at k, its entry at k has rank k in the original. |
| KSelect.RankUnique | src/AMath.h:89-149 | At most one value has rank k, duplicates included. |
| Polynomials.TooManyRoots | src/AMath.cpp:564-601 | A polynomial with as many distinct roots as coefficients vanishes everywhere. |
| Polynomials.DerivativeTangent | src/AMath.cpp:489-509 | The formal derivative of a polynomial is the slope of its tangent at every point. |
| Polynomials.TangentUnique | src/AMath.cpp:489-509 | A polynomial has one value and one tangent slope at each point. |
| Lagrange.Reproduces | src/AMath.cpp:564-601 | Samples of a polynomial with no more coefficients than the order are interpolated exactly at every point. |
| Lagrange.WindowReproduces | src/AMath.cpp:591-599 | The same for each window of points. |
| Lagrange.ReturnsKnots | src/AMath.cpp:564-601 | With increasing knots, the window around a knot contains it and the result there is the sample. |
| Lagrange.Window | src/AMath.cpp:576-590 | The clamped window lies inside the knots and has exactly as many points as the order; with increasing knots half of them, rounded down, are not above the point, or the window lies at the end that is short of knots. |
| Lagrange.StartCentred | src/AMath.cpp:576-590 | The start computed is one around which the knots are counted so. |
| Lagrange.CentredUnique | src/AMath.cpp:576-590 | There is no other such window. |
| Lagrange.OrderUsed | src/AMath.cpp:566-567 | The order asked for is used when there are that many knots and it is at least two, otherwise the nearest possible. |
| Lagrange.Interpolate | src/AMath.cpp:564-601 | For every query point the loops store the interpolant over its window, and with increasing knots that window lies around the point in this sense. |
| Spline.SecondsSolve | src/AMath.cpp:454-487 | The elimination (whose factors stay in (-1, 0], so no division by zero) solves the tridiagonal system with any two end rows of the program's form. |
| Spline.Gamma | src/AMath.cpp:454-474 | Every elimination factor lies in (-1, 0]. |
| Spline.Pivot | src/AMath.cpp:454-474 | Every pivot is larger than one, so the elimination never divides by zero. |
| Spline.SystemUnique | src/AMath.cpp:454-487 | The system has no other solution. |
| Spline.SmoothIffSolves | src/AMath.cpp:454-509 | Coefficients solve the system exactly when the end rows hold and neighbouring cubic pieces have equal first derivatives at every inner knot. |
| Spline.PieceIsLocal | src/AMath.cpp:504-506 | The evaluated formula is a cubic polynomial of the distance from the left knot. |
| Spline.EndsOfPiece | src/AMath.cpp:504-506 | First derivatives of a piece at its ends, and the coefficients as its second derivatives there. |
| Spline.NaturalEnds | src/AMath.cpp:460-463 | The natural end rows say that the second derivatives vanish at both ends. |
| Spline.EndSlopes | src/AMath.cpp:464-481 | The other end rows fix the slope of the curve at the first and at the last knot. |
| SplineMethods.LastSlopeMet | src/AMath.cpp:475-481 | A slope asked for at the last knot is the slope of the curve there. |
| SplineMethods.FirstSlopeMissed | src/AMath.cpp:464-467 | A slope asked for at the first knot is met exactly when (chord - slope) (rise - slope) = rise; the slope the curve has instead is given for every input. |
| SplineMethods.NotLevel | src/AMath.cpp:464-467 | From 0 at 0 to 2 at 1, asked to start level, the curve starts with slope 1. |
| SplineMethods.SplineCoefficients | src/AMath.cpp:454-487 | For increasing knots and any ends, unless the first row divides by zero, the sweep that uses c for two purposes leaves the solution of the system. |
| SplineMethods.BackSweep | src/AMath.cpp:482-486 | The downward sweep turns elimination factors into second derivatives in place. |
| SplineMethods.Bisect | src/AMath.cpp:494-500 | The binary search ends on neighbouring knots around the point, or on the first or last pair. |
| SplineMethods.SplineValue | src/AMath.cpp:489-509 | For spaced knots the value is the curve at the point; with one knot the call fails. |
| SplineMethods.CurveAtKnot | src/AMath.cpp:489-509 | The curve passes through every knot. |
| SplineMethods.Smooth | src/AMath.cpp:454-509 | At every inner knot both pieces of the computed spline take the given value, with one tangent, and with equal second derivatives, whatever the ends. |
| SplineMethods.SplineGrid | src/AMath.cpp:511-525 | Every row of the coefficient grid is the natural spline of its row of values. |
| SplineMethods.SplineGridValue | src/AMath.cpp:527-552 | The value is the spline across the values of the row splines. |
| SplineMethods.GridNodes | src/AMath.cpp:527-552 | At every grid node this is the given value. |
| Calendar.MjdRoundTrip | src/ATimeSpace.cpp:73-89 | From the Gregorian reform on: the date is valid, and it gives the day back and passes SetUTC's check exactly when the day is not a negative fraction. |
| Calendar.NegativeFraction | src/ATimeSpace.cpp:73-89 | Half a day before the zero point is refused by SetUTC's check, and its date gives another day. |
| JulianDates.EarlyRoundTrip | src/ATimeSpace.cpp:73-89 | Before the Gregorian reform, from Julian day 0 on: a whole day comes back exactly in the years from March 200 to February 300, and a day with a fraction exactly in the century before. |
| JulianDates.EarlyNumber | src/ATimeSpace.cpp:73-89 | By how many days the two formulas differ for each of these days. |
| JulianDates.Reform | src/ATimeSpace.cpp:73-89 | 15 October 1582 follows 4 October, and the earlier of the two days does not come back. |
| Calendar.DateRoundTrip | src/ATimeSpace.cpp:891-903 | Every valid date in that range survives conversion to a day and back. |
| Calendar.DateOfNumber | src/ATimeSpace.cpp:73-89 | The date of a Julian day number has that day number by the other formula. |
| Calendar.DateOfValid | src/ATimeSpace.cpp:34-49 | Every date produced passes the month-length check. |
| Calendar.NextDay | src/ATimeSpace.cpp:891-903 | From each valid date to the next the day number rises by exactly one, for years from -4799 on. |
| Calendar.NumberInjective | src/ATimeSpace.cpp:891-903 | Two valid dates with one day number are the same date. |
| Calendar.UtcCodes | src/ATimeSpace.cpp:34-42 | The code names the first of year, month, day and fraction that is out of range; zero is a date of the calendar and a fraction below one. |
| TimeScale.FindEntry | src/ATimeSpace.cpp:996-998 | The downward search ends inside the table on the entry in force, for dates from 1960 on. |
| TimeScale.ScaleIsLine | src/ATimeSpace.cpp:95-121 | From 1972 on UTC2TAI runs linearly through each day, by an amount that holds the leap second of that day. |
| TimeScale.MidnightMeets | src/ATimeSpace.cpp:95-121 | The end of every day, one with a leap second included, meets the start of the next. |
| TimeScale.ScaleRises | src/ATimeSpace.cpp:95-121 | UTC2TAI is strictly increasing from 1972 on. |
| TimeScale.TaiBetweenMidnights | src/ATimeSpace.cpp:95-121 | Between two midnights TAI elapses by the days plus the leap seconds listed between them. |
| TimeScale.DayLength | src/ATimeSpace.cpp:913-1006 | The offset grows from one day to the next by the leap seconds listed, at most one. |
| TimeScale.EntryByDay | src/ATimeSpace.cpp:913-1006 | A table row is reached exactly from its first day on. |
| TimeScale.LeapSecondDays | src/ATimeSpace.cpp:936-985 | A leap second ends the day before exactly for the 27 listed Modified Julian Days. |
| TimeScale.FixedPoints | src/ATimeSpace.cpp:95-121 | TAI is 10 seconds ahead at the start of 1972, and 37 seconds at every midnight from 2017 on. |
| TimeScale.DriftTwice | src/ATimeSpace.cpp:1003-1004 | Before 1972 the fraction of the day is counted twice: the offset moves by two days' drift within one day. |
| TimeScale.EarlyDay | src/ATimeSpace.cpp:95-121 | What UTC2TAI is throughout a day before 1972. |
| TimeScale.EarlyMidnight | src/ATimeSpace.cpp:95-121 | Before 1972 the scale misses every midnight inside a row of the table, by twice the square of the drift, which is never zero. |
| Sexagesimal.PackedForm | src/ATimeSpace.cpp:1008-1054 | Text without separators is read like the text with colons. |
| Sexagesimal.FullNeedsNoSeparator | src/ATimeSpace.cpp:1019-1047 | A full field followed by a digit closes as a separator would close it. |
| Sexagesimal.RunThree | src/ATimeSpace.cpp:1008-1054 | Three fields with a decimal point are taken apart into their numbers. |
| Sexagesimal.HourFields | src/ATimeSpace.cpp:1008-1054 | One, two or three fields with any separators read as units, sixtieths and sixtieths of those; the last field may have decimals or be empty. |
| Sexagesimal.DegreeFields | src/ATimeSpace.cpp:1056-1106 | The same for degrees, with no sign, a plus or a minus in front. |
| Sexagesimal.ShortForms | src/ATimeSpace.cpp:1050-1052 | Text with two fields or one reads as with 00 in the fields left out. |
| Sexagesimal.ExtraSeparator | src/ATimeSpace.cpp:1029-1037 | More separators in a row change nothing, in front or behind the first field. |
| Sexagesimal.HourErrors | src/ATimeSpace.cpp:1028-1046 | Behind a text that can be read, a foreign character is error -4, a second point -3, a separator after a point -2. |
| Sexagesimal.HourThirdSeparator | src/ATimeSpace.cpp:1029-1030 | A third separator is error -2. |
| Sexagesimal.DegreeErrors | src/ATimeSpace.cpp:1079-1099 | The same errors for degrees, a sign that is not in front being a foreign character. |
| Sexagesimal.DegreeThirdSeparator | src/ATimeSpace.cpp:1081-1082 | The same for degrees, with any sign. |
| SexagesimalText.HourDbl2Str | src/ATimeSpace.cpp:1108-1118 | For every hour the text parses, to a value that is the input modulo 24 hours within 0.001 s. |
| SexagesimalText.HoursNotReduced | src/ATimeSpace.cpp:1108-1110 | The printed hour is below 24 exactly when the input is, or its remainder modulo a day is at least 12. |
| SexagesimalText.HourTwentyFive | src/ATimeSpace.cpp:1108-1118 | 25 hours are not reduced and are printed with 25. |
| SexagesimalText.DegDbl2Str | src/ATimeSpace.cpp:1120-1130 | For every angle the text parses, to a value that is the input modulo 360 degrees within 0.01 arcseconds. |
| SexagesimalText.DecDbl2Str | src/ATimeSpace.cpp:1132-1147 | There is a text exactly for declinations from -90 to 90, and it parses back with its sign within 0.01 arcseconds. |
| SexagesimalText.DeclinationReadsBack | src/ATimeSpace.cpp:1132-1147 | They parse back with their sign within 0.01 arcseconds. |
| SexagesimalText.HoursReadBack | src/ATimeSpace.cpp:1008-1054 | Printed hours, with colons or packed, parse back within 0.001 s, and both forms to the same value. |
| SexagesimalText.DegreesReadBack | src/ATimeSpace.cpp:1056-1106 | Printed degrees parse back within 0.01 arcseconds. |
| SexagesimalText.HourForm | src/ATimeSpace.cpp:1111-1117 | Printed hours are two digits each and three decimals: whole hours, whole minutes, and seconds to the nearest millisecond but never 60. |
| SexagesimalText.DegreeForm | src/ATimeSpace.cpp:1123-1129 | Printed degrees have no leading zero, two digits of minutes and seconds with two decimals, to the nearest hundredth but never 60. |
| SexagesimalText.DeclinationForm | src/ATimeSpace.cpp:1135-1146 | Printed declinations have a sign, minus exactly below zero, and otherwise that form. |
| SexagesimalText.Wrap | src/ATimeSpace.cpp:1109-1110 | The two loops leave the value that differs by whole turns and is nonnegative and below the limit. |
| SexagesimalText.Scan | src/ATimeSpace.cpp:1014-1048 | The character loop computes the fields, or the error code, of the scanning function. |
| SexagesimalText.HourStr2Dbl | src/ATimeSpace.cpp:1008-1054 | Returns the parsed hour or the error code for every text. |
| SexagesimalText.DegStr2Dbl | src/ATimeSpace.cpp:1056-1106 | Returns the parsed angle with its sign or the error code for every text. |
| Almanac.SiteFree | src/ATimeSpace.cpp:24-29 | Of the single slots only the two local sidereal times depend on the site. |
| Almanac.SiteSlots | src/ATimeSpace.cpp:463-479 | At another site each local sidereal time is the same exactly when the longitude differs by whole turns. |
| Almanac.TaiGetter | src/ATimeSpace.cpp:431-437 | From 1972 on the TAI getter falls behind UTC2TAI by the part of the day's leap second that has passed, and agrees with it exactly at midnight and on days without one. |
| Almanac.TaiAtMidnight | src/ATimeSpace.cpp:431-437 | At every midnight from day 41317 on it is UTC2TAI of that day. |
| Almanac.TaiAfterDate | src/ATimeSpace.cpp:34-49 | So after every date from 1972 on that SetUTC accepts. |
| Almanac.SiderealByDay | src/ATimeSpace.cpp:140-144 | Mean sidereal time at Greenwich counts from Julian day 2451545 by 360.98564736629 degrees a day. |
| Almanac.LocalIsGreenwich | src/ATimeSpace.cpp:463-479 | Local sidereal times are those of Greenwich and the longitude up to whole turns, within one turn. |
| Almanac.Reductions | src/ATimeSpace.cpp:450-461 | Apparent and mean sidereal time differ by the projected nutation, true and mean longitude and anomaly of the Sun by one and the same equation of the centre. |
| Almanac.CentreExpanded | src/ATimeSpace.cpp:731-743 | The equation of the centre, written out in powers of the time. |
| Almanac.Session | src/ATimeSpace.cpp:34-49 | Whatever the order of calls after an accepted date, every answer is that of evaluation from scratch at the moment set last, and the Moon's mark is not set after any of them. |
| Almanac.OverloadAgrees | src/ATimeSpace.cpp:161-170 | The overload of the local sidereal time differs from the cached one by whole turns, and equals it exactly when its sum stays within a turn. |
| Almanac.ATimeSpace.Keep | src/ATimeSpace.h:674-717 | Storing a freshly evaluated value keeps the whole table in agreement with evaluation from scratch. |
| Almanac.ATimeSpace.SetUTC | src/ATimeSpace.cpp:34-49 | A refused date changes nothing; an accepted one sets the moment and leaves no stale slot. |
| Almanac.ATimeSpace.SetMJD | src/ATimeSpace.cpp:66-71 | Taking the day apart and passing it on sets the object to that very moment. |
| Almanac.ATimeSpace.ValueOf | src/ATimeSpace.cpp:411-487 | Every getter of one slot returns evaluation from scratch and keeps the table right. |
| Almanac.ATimeSpace.Do | src/ATimeSpace.cpp:400-491 | Any single call answers as evaluation from scratch does and keeps the table right and the Moon's mark clear. |
| Almanac.ATimeSpace.SetSite | src/ATimeSpace.cpp:24-29 | The table stays right exactly when filled local sidereal times see a change by whole turns, and a filled place of the Moon looks the same from both sites. |
| Almanac.ATimeSpace.GreenwichSiderealTime | src/ATimeSpace.cpp:450-461 | Cached or not, through the getters it calls, the result is that of evaluation from scratch; the table stays right. |
| Almanac.ATimeSpace.LocalSiderealTime | src/ATimeSpace.cpp:472-479 | The same for the local sidereal time. |
| Almanac.ATimeSpace.LocalMeanSiderealTime | src/ATimeSpace.cpp:463-470 | The same for the local mean sidereal time. |
| Almanac.ATimeSpace.Nutation | src/ATimeSpace.cpp:493-637 | The series over the century and five cached arguments gives the nutation evaluated from scratch, whichever of them were filled. |
| Almanac.ATimeSpace.NutationLongitude | src/ATimeSpace.cpp:639-651 | The same through the nutation and its five arguments, filling both nutation slots at once. |
| Almanac.ATimeSpace.NutationObliquity | src/ATimeSpace.cpp:653-665 | The same through the nutation and its five arguments, filling both nutation slots at once. |
| Almanac.ATimeSpace.MeanAnomalyMoon | src/ATimeSpace.cpp:675-681 | The same for an argument of the nutation. |
| Almanac.ATimeSpace.MeanElongationMoonSun | src/ATimeSpace.cpp:683-689 | The same for an argument of the nutation. |
| Almanac.ATimeSpace.MeanLongAscNodeMoon | src/ATimeSpace.cpp:691-697 | The same for an argument of the nutation. |
| Almanac.ATimeSpace.RelLongMoon | src/ATimeSpace.cpp:699-705 | The same for an argument of the nutation. |
| Almanac.ATimeSpace.CenterSun | src/ATimeSpace.cpp:731-743 | The same for the equation of the centre. |
| Almanac.ATimeSpace.TrueLongSun | src/ATimeSpace.cpp:745-751 | The same for the Sun's true longitude, over two getters. |
| Almanac.ATimeSpace.SunPosition | src/ATimeSpace.cpp:761-773 | The same for the Sun's position in its two slots. |
| Almanac.ATimeSpace.MoonPosition | src/ATimeSpace.cpp:841-854 | The place over the true obliquity and the Sun's mean longitude and anomaly, all cached, is that of evaluation from scratch; its mark stays as it was. |
| Almanac.ATimeSpace.StoreMoon | src/ATimeSpace.cpp:844-847 | Stores the place and writes the mark into the values, which keeps the table right. |
| Almanac.ATimeSpace.MoonTopo | src/ATimeSpace.cpp:856-885 | The same for the Moon seen from the site, over the local mean sidereal time and the place of the Moon. |
| ObservationSafety.RunLogIsBlocks | src/ObservationSystem.cpp:351-372 | In every run the callback log is blocks of CATALOGED, perhaps RUNNING with no camera exposing, and one of OVER or INTERRUPTED; only the last may be open, exactly while a plan is held. |
| ObservationSafety.RunLogged | src/ObservationSystem.cpp:958-987 | In every run the held plan, its state and its serial agree with the end of the log. |
| ObservationSafety.StepKeepsLog | src/ObservationSystem.cpp:765-819 | Every step keeps that agreement. |
| ObservationSafety.StatusKeepsLog | src/ObservationSystem.cpp:884-924 | A camera report keeps it too, when it closes the plan. |
| ObservationSafety.RunCounts | src/ObservationSystem.h:67-92 | In every run the counters are the numbers of exposing and of connected cameras, and the first is not larger than the second. |
| ObservationSafety.StepKeepsCounts | src/ObservationSystem.cpp:182-240 | Every step keeps the counters right. |
| ObservationSafety.CloseKeepsCounts | src/ObservationSystem.cpp:826-843 | Losing a connection keeps the counters right. |
| ObservationSafety.ReportKeepsCounts | src/ObservationSystem.cpp:884-924 | A camera report keeps them right exactly when its connection is coupled or it does not say exposing. |
| ObservationSafety.StrayReport | src/ObservationSystem.cpp:884-924 | A first report over a connection that is not coupled leaves a counter of one without any camera. |
| ObservationSafety.LastOneLeaves | src/ObservationSystem.h:84-88 | When a camera stops, the counter was positive, and the result is true exactly when no camera exposes any more. |
| ObservationPlans.ReportEnds | src/ObservationSystem.cpp:884-924 | A report ends the plan exactly when its camera stops exposing and no camera of the new list exposes; any other report leaves plan and log alone. |
| ObservationPlans.RunReportEnds | src/ObservationSystem.cpp:884-924 | So in every run. |
| ObservationPlans.RunOver | src/ObservationSystem.cpp:909-919 | In every run no plan is reported over or started while a camera is counted as exposing. |
| ObservationPlans.RunTick | src/ObservationSystem.cpp:958-987 | In every run a round of the plan thread starts the plan exactly when it waits, the mount and some camera are on line and no camera exposes; interrupts it exactly when it runs and is late by more than its exposure time; and changes nothing otherwise. |
| ObservationPlans.RunTimed | src/ObservationSystem.cpp:971-977 | While a plan runs, the end time watched is that of this plan. |
| ObservationPlans.PlanTaken | src/ObservationSystem.cpp:351-372 | A new plan is refused exactly when no plan is held and some camera exposes; otherwise it replaces the plan held, which is interrupted first. |
| ObservationPlans.InterruptEnds | src/ObservationSystem.cpp:392-424 | Abort and Park end the plan held and nothing else. |
| ObservationPlans.LinksLeavePlan | src/ObservationSystem.cpp:826-843 | Connections gained and lost leave plan and log alone: a plan whose last exposing camera goes off line stays open. |
| ObservationPlans.RunMount | src/ObservationSystem.cpp:969-969 | The mount is on line when the last news of its link says so. |
| ObservationPlans.CameraTaken | src/ObservationSystem.cpp:182-240 | A camera is refused exactly when the first entry of its name, whatever the case, is connected; otherwise that entry or a new one holds the connection. |
| ObservationPlans.CameraLost | src/ObservationSystem.cpp:826-843 | A lost connection leaves its entry unconnected and in error, and the others as they are. |
| ObservationPlans.ReportCountsWaiting | src/ObservationSystem.cpp:909-923 | The counter of cameras waiting for a flat stays right exactly when the camera neither comes to wait without exposing before nor stops while it waits. |
| ObservationPlans.CloseCountsWaiting | src/ObservationSystem.cpp:826-843 | A lost connection leaves it right exactly when the camera was not waiting. |
| ObservationPlans.WaitingStays | src/ObservationSystem.cpp:909-923 | A camera that exposes, waits and stops leaves it at one with no camera waiting. |
| ObservationSystem.SystemState.LeaveExpose | src/ObservationSystem.h:84-88 | Lowers the counter unless it is zero and tells whether it is zero now. |
| ObservationSystem.ObservationSystem.NotifyPlan | src/ObservationSystem.cpp:351-372 | Makes exactly the step of a new plan: refused while exposing without a plan, else the held plan is interrupted and the new one cataloged. Keeps counters and log in order. |
| ObservationSystem.ObservationSystem.Abort | src/ObservationSystem.cpp:392-424 | Makes exactly the interrupting step. Keeps counters and log in order. |
| ObservationSystem.ObservationSystem.Park | src/ObservationSystem.cpp:452-487 | Makes exactly the interrupting step. Keeps counters and log in order. |
| ObservationSystem.ObservationSystem.WatchPlan | src/ObservationSystem.cpp:958-987 | Makes exactly the step of the plan thread: start, interrupt when late, or nothing. Keeps counters and log in order. |
| ObservationSystem.ObservationSystem.CoupleCamera | src/ObservationSystem.cpp:182-240 | Makes exactly the coupling step, and changes nothing when it refuses. A new camera that does not start out exposing keeps counters and log in order. |
| ObservationSystem.ObservationSystem.CloseCamera | src/ObservationSystem.cpp:826-843 | Makes exactly the step of a lost camera connection. Keeps counters and log in order. |
| ObservationSystem.ObservationSystem.ReceiveStatus | src/ObservationSystem.cpp:884-924 | Makes exactly the step of a camera report. From a coupled connection it keeps counters and log in order, and ends the plan exactly when the last exposing camera stops. |
| ResendQueue.RunValid | src/ObservationSystem.h:109-172 | In every run of issues, answers, lost devices and expired waits: queued commands are in order of issue and are the issued ones, the n-th command carries serial 1 + n mod 99999, only the head has tries, and no count of resends exceeds the tries. |
| ResendQueue.RunSpares | src/ObservationSystem.cpp:990-1007 | In every run only the head has been tried, each command is resent at most four times, and only issued commands are resent. |
| ResendQueue.TimeoutResends | src/ObservationSystem.cpp:998-1005 | An expired wait sends the head of the queue again exactly when its own device is connected. |
| ResendQueue.RunResends | src/ObservationSystem.cpp:990-1007 | In every run a command whose device stays connected, and that is neither answered nor cleared, has been sent again exactly four times when it has left the queue, and as often as it was tried while it is in it. |
| ResendQueue.RunInOrder | src/ObservationSystem.cpp:990-1007 | In every run commands are sent again in the order of their issue. |
| ResendQueue.IssueQueued | src/ObservationSystem.h:134-138 | A command is queued last, untried, for its own device and under the serial of its number. |
| ResendQueue.TimeoutLowers | src/ObservationSystem.cpp:990-1007 | An expired wait lowers four times the length less the head's tries by exactly one. |
| ResendQueue.Drains | src/ObservationSystem.cpp:990-1007 | Without new commands and answers the queue is empty after exactly that many expired waits and no sooner. |
| ResendQueue.OfflineKeeps | src/ObservationSystem.h:155-163 | After a device went off line exactly the commands of the others are left. |
| ResendQueue.AnswerTakes | src/ObservationSystem.h:140-148 | In a queue in order of issue, what is left after an answer is all but the answered command exactly when no queued command is mistaken for it. |
| ResendQueue.RunAnswer | src/ObservationSystem.cpp:346-348 | In every run the answer to a command takes out that command and no other, exactly when every queued command whose number differs by a multiple of 99999 is later and has the answered one before it. |
| ResendQueue.RunWindow | src/NonKVProtocol.cpp:42-46 | While queue and answered command lie within 99999 consecutive issues, serials are distinct and the answer removes its own command only. |
| ResendQueue.SerialsRunOut | src/NonKVProtocol.cpp:42-46 | After 100000 unanswered commands the answer to the last does not take out that one alone. |
| ResendQueue.NonKVProtocol.IncreaseSerno | src/NonKVProtocol.cpp:42-46 | Returns the serial and moves on, from 99999 to 1. |
| ResendQueue.NonKVProtoBuff.PopSerno | src/ObservationSystem.h:140-148 | Removes the first entry of the serial and nothing else. |
| ResendQueue.NonKVProtoBuff.Clear | src/ObservationSystem.h:155-163 | Erasing while walking leaves the entries of the other devices in order. |
| ResendQueue.CommandLink.Rewrite | src/ObservationSystem.cpp:990-1007 | Makes exactly the step of an expired wait. |
| KVText.PairsReadBack | src/KVProtocol.cpp:96-127 | Printed key-value pairs are split, trimmed and read back as they were, with or without a newline behind them. |
| KVText.SplitPiece | src/KVProtocol.cpp:113-127 | A piece in front of a single separator is split off whole. |
| KVText.StoiItoa | src/ProtoKVBase.h:39-43 | Every 32-bit integer is read back from its printed form. |
| KVNumbers.StoiReads | src/KVProtocol.cpp:229-229 | Blanks, a sign, zeros, the digits of n and anything that does not begin with a digit read as that number if it fits into 32 bits, and not at all otherwise. |
| KVNumbers.StoiExact | src/KVProtocol.cpp:229-229 | A text reads as v exactly when it is such a text for v. |
| KVSpelling.PairExact | src/KVProtocol.cpp:96-105 | A piece reads as a pair exactly when it is that pair with blanks around key and value and equals signs in a row between them. |
| KVSpelling.LooseRead | src/KVProtocol.cpp:113-127 | Pairs are read as they are, however they are spaced out and however many commas stand between them. |
| KVSpelling.IEqualsExact | src/KVProtocol.cpp:39-80 | Keywords are equal exactly when they have one length and differ only in the case of letters. |
| KVSpelling.LooseReadBack | src/KVProtocol.cpp:22-127 | A printed message with its word and keys in any case, and with blanks put around word, keys, values and at the end of the line, resolves to the same message. |
| KVSpelling.RejectedExact | src/KVProtocol.cpp:38-82 | A line is rejected exactly when its word is none of the 26 known ones, in any case. |
| KVSpelling.BareWord | src/ProtoKV.h:343-349 | A word alone resolves to the message as it is constructed. |
| KVWire.OnTheWire | src/ProtoKV.h:511-532 | The text of every message of the seven kinds, field by field. |
| KVMessages.RoundTrip | src/KVProtocol.cpp:22-85 | Resolving the text of a message of the seven kinds gives it back, with unprinted focus fields at their defaults; it is the same message exactly when they were there already. |
| KVMessages.LineReadBack | src/KVProtocol.cpp:22-85 | The same for the line without its newline, as the receiver hands it on. |
| KVMessages.NullAccessExact | src/KVProtocol.cpp:22-85 | For every line of any kind: the resolver reaches the null pointer exactly when a number that the line's kind reads, whole or floating-point, cannot be read. |
| KVMessages.BaseReadable | src/KVProtocol.cpp:113-127 | A header pair is never read as a number, by any kind. |
| KVMessages.UnreadableLine | src/KVProtocol.cpp:307-332 | The lines "plan state=x," and "camera state=x," are two of them. |
| KVMessages.PlanReadBack | src/KVProtocol.cpp:220-240 | The fields of a plan state are read back from the pairs it prints. |
| KVMessages.SerialReadBack | src/KVProtocol.cpp:196-215 | The same for the messages that check or remove a plan. |
| KVMessages.ObssReadBack | src/KVProtocol.cpp:253-271 | The same for the state of an observation system. |
| KVMessages.GuideReadBack | src/KVProtocol.cpp:412-432 | The same for guiding, also when both offsets are zero and not printed. |
| KVMessages.ExposeReadBack | src/KVProtocol.cpp:477-496 | The same for the exposure command. |
| KVMessages.FocusReadBack | src/KVProtocol.cpp:536-557 | The same for focus, on the fields its operation prints. |
| KVMessages.BaseReadBack | src/ProtoKVBase.h:92-100 | The header fields are read back, empty ones being left out of the text. |
| KVMessages.WordReadBack | src/KVProtocol.cpp:39-79 | The dispatch by first letter and name finds the kind of every printed message. |
| KVMessages.OwnApart | src/KVProtocol.cpp:113-127 | Header pairs go to the header and the others stay in order. |
| KVProtocol.ResolvePairs | src/KVProtocol.cpp:113-127 | The loop over the pieces sorts the pairs as the functional reading does. |
| KVProtocol.ResolveFields | src/KVProtocol.cpp:220-240 | The loop over the pairs assigns the fields, and stops without a message at a number that cannot be read. |
| KVProtocol.ResolveNumbers | src/KVProtocol.cpp:307-332 | The loop of a kind whose fields are not modelled ends well exactly when none of its pairs is an unreadable number. |
| KVProtocol.ResolveLine | src/KVProtocol.cpp:22-85 | The walk over the text computes the functional resolver on every text, the null pointer access of any kind included. |
| ByteStream.RunConserves | src/AsioTCP.cpp:203-210 | Lines handed on and buffer together are the stream received exactly when no packet overflowed the ring buffer. |
| ByteStream.RunSuffix | src/AsioTCP.cpp:203-210 | In every run, with or without overflow, the buffer is the end of what was received. |
| ByteStream.PushedKeeps | src/AsioTCP.cpp:203-210 | An overflow loses the oldest bytes and no more than needed. |
| ByteStream.TakenFits | src/AsioTCP.cpp:102-114 | A write takes the longest part of the data that fits. |
| ByteStream.PacketsDoNotMatter | src/GeneralControl.cpp:85-127 | Two connections that received the same bytes have handed on the same lines after the callback, however the bytes were cut into packets. |
| ByteStream.RunSplits | src/GeneralControl.cpp:85-127 | After the callback the connection is open exactly when every complete line fits and the handling of none of them, which may depend on all lines before, closes it; then the lines of the stream were handed on and no newline is left. |
| ByteStream.RunLines | src/GeneralControl.cpp:85-127 | Every stream received without overflow splits into lines and a rest such that this holds. |
| ByteStream.HandleMore | src/GeneralControl.cpp:85-127 | Handling a part first and the rest later comes to handling all at once. |
| ByteStream.RoundsEnd | src/ObservationSystem.cpp:850-876 | The loop without the test for an open connection ends exactly when no complete line is too long. |
| ByteStream.LongLineSticks | src/ObservationSystem.cpp:850-876 | A line of 1500 characters keeps that loop going in every round. |
| ByteStream.RunOrderly | src/AsioTCP.cpp:102-114 | In every run bytes sent followed by the buffer are the bytes accepted, and a write is under way exactly while the buffer is nonempty and no write has failed. |
| ByteStream.WriteKeeps | src/AsioTCP.cpp:212-219 | Each write and each end of a write keeps that. |
| ByteStream.FailedStays | src/AsioTCP.cpp:212-219 | In every run, after a failed write nothing more is ever sent. |
| ByteStream.TcpClient.Read | src/AsioTCP.cpp:87-100 | Copies the bytes asked for and drops them with everything before them; otherwise changes nothing. |
| ByteStream.TcpClient.Lookup | src/AsioTCP.cpp:123-135 | Finds the first place of the flag from the start position on, or none. |
| ByteStream.TcpClient.HandleRead | src/AsioTCP.cpp:203-210 | Pushing byte by byte appends the packet and overwrites the oldest bytes of a full ring. |
| ByteStream.TcpClient.Write | src/AsioTCP.cpp:102-114 | Accepts what fits, and starts a write exactly when the buffer was empty. |
| ByteStream.TcpClient.HandleWrite | src/AsioTCP.cpp:212-219 | Drops the bytes sent and starts the next write while there is something left. |
| ByteStream.OnTcpReceive | src/GeneralControl.cpp:85-127 | The loop hands on the lines of the functional callback and leaves its buffer. |
| KVStream.MessagesArrive | src/GeneralControl.cpp:85-127 | Printed messages sent in any packets arrive as one line each, and each line resolves to the message it was printed from. |

## Left out

- Rounding, overflow, infinities and NaN of doubles: arithmetic is exact, and division by zero yields an arbitrary value.
- LinearAlgebra.AMath.LUsolve: says nothing about the result for a singular matrix that was accepted, because the factors are meaningless then.
- LinearAlgebra.AMath.MatrixInvert: says nothing about the contents for an accepted singular matrix, for the same reason.
- LinearAlgebra.AMath.LSFitLinear: says nothing about the coefficients when the Gram matrix is singular without a zero row.
- SplineMethods.SplineCoefficients: says nothing when the slope asked for at the first knot is the first rise itself, because the first row then divides by zero.
- Arrays are taken to have exactly the length their dimensions call for; NULL pointers are not modelled.
- Freed memory: LSFitLinear frees the matrix it decomposed and keeps the pointer to it, so a solve that follows without a new decomposition would read freed memory.
- SexagesimalText.HourStr2Dbl: does not model the capacity of the 20-byte buffer, so fields longer than that are read instead of overrunning it.
- SexagesimalText.DegStr2Dbl: does not model the capacity of the 20-byte buffer either.
- Almanac.ATimeSpace.SetUTC: covers dates from 1960 on, where the leap-second table has an entry; before that the search leaves the table.
- Days before Julian day 0, where the truncations of the inverse formula go the other way.
- The values of the series: the polynomials and tables of the Sun, the Moon and the nutation are parameters; which cached values they take, and which slots they fill, is modelled.
- Almanac.ATimeSpace.SetSite: the condition on the Moon seen from the site stays an equality of the two views, because the parallax formula is a parameter.
- ObservationSystem.ObservationSystem.Abort: does not model the device commands sent beside the plan handling; they are the subject of the resend queue.
- ObservationSystem.ObservationSystem.WatchPlan: does not model the slew and exposure commands sent when a plan starts.
- ObservationSystem.ObservationSystem.Park: does not model the device commands sent beside the plan handling.
- ObservationSystem.ObservationSystem.CoupleCamera: does not model the focus position and the plan sent to a camera that comes back.
- ObservationSystem.ObservationSystem.ReceiveStatus: does not model the message that asks for a new pointing when all exposing cameras wait for flats, nor the fields of a report other than name and state.
- Mount state and position notices, focus and flat-field handling, and manual exposure.
- Threads, mutexes, sockets, the message queue and logging: each callback or thread round is one step.
- A plan is held by one system, and a resend item is copied before it is popped.
- ByteStream.OnTcpReceive: whether the handling of a line closes the connection depends on the lines of that connection alone; other state of the program does not enter.
- The coupling of connections to systems in the general control.
- ResendQueue.CommandLink.Rewrite: takes the commands' texts as given; the builders that print them are not modelled.
- KVMessages.RoundTrip: does not cover the messages with floating-point fields, nor the append, sync and slew messages, whose printed keys differ from those read.
- KVProtocol.ResolveFields: one loop stands for the loops of the seven kinds with modelled fields, which differ only in their fields.
- KVProtocol.ResolveNumbers: of the other kinds only the reading of numbers is modelled, and not the fields; which texts can be read as floating-point numbers is a parameter.
- Spherical geometry, projections, refraction, Bilinear, Correlation, the error function and matrix transposition.
