# Countdown timer: remaining-time arithmetic

A Dafny model of the logic in the countdown timer component
`src/components/CountdownTimer.tsx`. The component fixes a target instant
thirty days after it mounts. Once a second it recomputes how long remains
until that target, as whole days, hours, minutes and seconds, and shows each
field as zero-padded two-digit text.

The model has three modules:

- `Countdown` (`countdown.dfy`): the `TimeLeft` record and `CalculateTimeLeft`.
  The current instant is an explicit integer-millisecond parameter instead of
  a clock read. The function is proved to be the unique in-range record whose
  fields add back to the difference cut to whole seconds. A second definition,
  `CalculateTimeLeftAsWritten`, follows the source's own formulas on exact
  reals (division, JavaScript `%`, `Math.floor`). It is proved to agree with
  the integer version.
- `Padding` (`pad_number.dfy`): `padNumber` as `PadStart(ToDecimal(n), 2, '0')`,
  with JavaScript's `toString` and `padStart` written out. Its text is proved
  to read back as the same number, and its length is proved to be the larger
  of 2 and the digit count.
- `Timer` (`countdown_timer.dfy`): the component's state as a class. `target`
  is a constant set at construction. `timeLeft` is a field that `Tick(now)`
  overwrites.

One behaviour of the code is easy to misread. A target less than one second
ahead also shows all zeros, because every field rounds down to 0. So the
display is all zeros exactly when the difference is below 1000 ms, not only
when the target has passed (`ZeroExactlyUnderOneSecond`). The model follows
the code.

## Model

| member | source | states |
|---|---|---|
| `Countdown.CalculateTimeLeft` | src/components/CountdownTimer.tsx:11-24 | the result is in range (days ≥ 0, hours < 24, minutes and seconds < 60, none negative); it is all zeros when the target is not ahead; its fields add back to the difference less its sub-second part |
| `Countdown.DecompositionRebuilds` | src/components/CountdownTimer.tsx:19-22 | the proof step behind `CalculateTimeLeft`'s third ensures: for a positive difference the four field formulas add back to the difference less `difference % 1000` |
| `Countdown.InRangeDeterminedByTotal` | src/components/CountdownTimer.tsx:4-9 | two in-range records that stand for the same duration are equal |
| `Countdown.CalculateTimeLeftIsUnique` | src/components/CountdownTimer.tsx:14-23 | any in-range record whose duration is the difference cut to whole seconds (zero when not ahead) is the result, so the contract fully determines it |
| `Countdown.ZeroExactlyUnderOneSecond` | src/components/CountdownTimer.tsx:14-22 | the result is all zeros if and only if less than one second remains |
| `Countdown.DaysAreWholeDays` | src/components/CountdownTimer.tsx:19 | for a target ahead, `days` is the difference divided by 86,400,000 ms; those days fit in the difference and one more day would not |
| `Countdown.CountsDown` | src/components/CountdownTimer.tsx:11-24 | a later current instant never gives a longer remaining duration |
| `Countdown.DependsOnlyOnDifference` | src/components/CountdownTimer.tsx:12 | shifting both instants by the same amount gives the same record, so the result depends only on the two instants through their difference |
| `Countdown.OneOfEachExample` | src/components/CountdownTimer.tsx:18-23 | a difference of 90,061,000 ms gives 1 day, 1 hour, 1 minute, 1 second |
| `Countdown.PastTargetExample` | src/components/CountdownTimer.tsx:14-16 | a target 5,000 ms in the past gives all zeros |
| `Countdown.CalculateTimeLeftAsWritten` | src/components/CountdownTimer.tsx:18-23 | the field formulas as written (real division, JavaScript `%`, `Math.floor`) on exact reals give an in-range record, all zeros when the target is not ahead, whose fields add back to the difference less its sub-second part; its positive branch is `WrittenFields`, the four formulas of lines 19-22 |
| `Countdown.JsRemainder` | src/components/CountdownTimer.tsx:20-22 | JavaScript's `%`: the remainder has the sign of the dividend, is smaller in magnitude than the divisor, and differs from the dividend by a whole multiple of the divisor (together these fix it uniquely) |
| `Countdown.AsWrittenAgrees` | src/components/CountdownTimer.tsx:19-22 | the written formulas (real division, JavaScript `%`, `Math.floor`) compute the same record as integer division and remainder when arithmetic is exact |
| `Countdown.FloorOfQuotient` | src/components/CountdownTimer.tsx:19 | `Math.floor(d / u)` on exact reals is the integer quotient for non-negative `d` |
| `Countdown.FloorOfRemainder` | src/components/CountdownTimer.tsx:20-22 | `Math.floor((d / u) % m)` on exact reals is `(d div u) mod m` for non-negative `d` |
| `Padding.Digits` | src/components/CountdownTimer.tsx:27 | the decimal text of a non-negative number has only digits, and exactly as many as the number needs |
| `Padding.PadStart` | src/components/CountdownTimer.tsx:27 | `padStart` gives the larger of the width and the text's length; the original text ends the result and only fill characters come before it |
| `Padding.PadNumber` | src/components/CountdownTimer.tsx:26-28 | the result is at least two characters; 0 to 9 become '0' then the digit; 10 or more is the plain decimal text, never cut; a negative number keeps its sign and is not padded |
| `Padding.ToDecimal` | src/components/CountdownTimer.tsx:27 | `toString` of a whole number starts with '-' exactly when the number is negative, and the rest is all digits, exactly as many as the magnitude needs (no leading zeros) |
| `Padding.ToDecimalRoundTrip` | src/components/CountdownTimer.tsx:27 | reading `toString`'s text back as a decimal gives the original number, for every integer |
| `Padding.PadNumberRoundTrip` | src/components/CountdownTimer.tsx:27 | reading the padded text back as a decimal gives the original number, for every integer |
| `Padding.LeadingZeroIgnored` | src/components/CountdownTimer.tsx:27 | a leading '0' does not change the value of a run of digits |
| `Padding.DigitsValueOfDigits` | src/components/CountdownTimer.tsx:27 | the decimal text of a non-negative number reads back as that number |
| `Padding.PadNumberLength` | src/components/CountdownTimer.tsx:26-28 | for a non-negative number with k digits, the text has length max(2, k) |
| `Padding.PadNumberExamples` | src/components/CountdownTimer.tsx:26-28 | 0, 7, 42 and 123 become "00", "07", "42" and "123" |
| `Timer.CountdownTimer.constructor` | src/components/CountdownTimer.tsx:48-49 | the target is the mount instant plus 30 days; the first display is the remaining time at the second clock reading, and it is in range |
| `Timer.CountdownTimer.Tick` | src/components/CountdownTimer.tsx:52-53 | a tick replaces the display with the remaining time to the unchanged target; it stays in range and is all zeros once the target is reached |
| `Timer.MountShowsThirtyDays` | src/components/CountdownTimer.tsx:48-49 | if both clock readings at mount agree, the first display is 30 days, 0 hours, 0 minutes, 0 seconds |
| `Timer.LateFirstReadingShowsOneSecondLess` | src/components/CountdownTimer.tsx:48-49 | if the second reading is up to one second later, the first display is 29 days, 23 hours, 59 minutes, 59 seconds |
| `Timer.ZeroStaysZero` | src/components/CountdownTimer.tsx:52-54 | once a tick shows all zeros, every later tick shows all zeros too; this covers zeros that first appear up to a second before the target |

## Left out

- Rendering: the `TimeUnit` and `Separator` components, the JSX layout and the
  styling (lines 30-45 and 59-73). They are presentation only.
- Scheduling: `setInterval` every 1000 ms, and `clearInterval` when the
  component unmounts (lines 51-57). The model has one `Tick(now)` per callback.
  It does not model when the callbacks fire or the teardown.
- Clock reads: `new Date()` at line 12 and `Date.now()` at line 48 become
  integer-millisecond parameters. Line 49 reads the clock separately, which is
  why the constructor takes two instants.
- Floating point: JavaScript numbers are IEEE doubles. The model uses
  unbounded integers, plus exact reals in `CalculateTimeLeftAsWritten`.
  Rounding in the division at lines 19-22 is not modelled. It cannot matter
  for differences of realistic size.
- `Padding.ToDecimal`: covers whole numbers only. JavaScript's exponent form
  for magnitudes of 10^21 or more, and fractional numbers, are not modelled.
  `padNumber` only ever gets whole, non-negative fields here.
- React state semantics: `useState` evaluates its initial argument on every
  render and keeps only the first result. The model constructs the state once.
- Determinism is not a separate lemma. A Dafny function is pure, so two calls
  with the same `(target, now)` give the same record by construction.
  `DependsOnlyOnDifference` states the stronger fact.
- No next-weekday or deadline roll-over computation exists in this component,
  so none is modelled.
