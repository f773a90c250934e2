/** Time arithmetic. Instants and durations are nanoseconds; float64 values are exact reals. */
module Times {
  import opened Text

  const SECOND: int := 1_000_000_000
  const MILLISECOND: int := 1_000_000

  // ----- The step of a range query

  const DATA_POINTS: int := 250

  /** `end.Sub(start)`, which saturates at the ends of the 64-bit range. */
  function Sub(end: int, start: int): Int64 {
    if end - start > MAX_INT64 then MAX_INT64
    else if end - start < MIN_INT64 then MIN_INT64
    else end - start
  }

  /** The automatic step, in nanoseconds, before conversion to a 64-bit duration. */
  function AutoStep(end: int, start: int): (step: int)
    ensures step > 0
  {
    var resolution := (Sub(end, start) as real / SECOND as real / DATA_POINTS as real).Floor;
    (if resolution < 1 then 1 else resolution) * SECOND
  }

  /** How many samples a range query evaluates: one at `start` and one each step until `end`. */
  function Points(end: int, start: int, step: int): int
    requires step > 0
  {
    if end < start then 0 else (end - start) / step + 1
  }

  const PART: int := 250_000_000_000

  lemma FloorOfPart(x: int)
    ensures (x as real / PART as real).Floor == x / PART
  {
    var q, r := x / PART, x % PART;
    assert x == q * PART + r;
    assert x as real == q as real * 250_000_000_000.0 + r as real;
  }

  /** In whole seconds, the step is one 250th of the range, rounded down, and at least 1. */
  lemma AutoStepSeconds(end: int, start: int)
    ensures var d := Sub(end, start);
      AutoStep(end, start) == (if d < DATA_POINTS * SECOND then 1 else d / (DATA_POINTS * SECOND)) * SECOND
  {
    var d := Sub(end, start);
    assert DATA_POINTS * SECOND == PART;
    assert d as real / SECOND as real / DATA_POINTS as real == d as real / PART as real;
    FloorOfPart(d);
  }

  /** The step is a whole number of seconds, at least one, and fits a duration. */
  lemma AutoStepFits(end: int, start: int)
    ensures var step := AutoStep(end, start);
      SECOND <= step <= MAX_INT64 && step % SECOND == 0
  {
    hide AutoStep;
    AutoStepSeconds(end, start);
    var d := Sub(end, start);
    var seconds := if d < DATA_POINTS * SECOND then 1 else d / (DATA_POINTS * SECOND);
    assert 1 <= seconds <= 36_893_488;
    assert (seconds * SECOND) % SECOND == 0;
  }

  /** A longer range never gets a smaller step. */
  lemma AutoStepMonotone(end: int, start: int, end': int, start': int)
    requires end - start <= end' - start'
    ensures AutoStep(end, start) <= AutoStep(end', start')
  {
    hide AutoStep;
    AutoStepSeconds(end, start);
    AutoStepSeconds(end', start');
  }

  /** For a range of at least 250 seconds that fits a duration, the step divides it into at least
      250 parts and fewer than 250 + 250 / step (in seconds): 251 to 500 samples. */
  lemma AutoStepPoints(end: int, start: int)
    requires DATA_POINTS * SECOND <= end - start <= MAX_INT64
    ensures var d, step := end - start, AutoStep(end, start);
      && DATA_POINTS * step <= d
      && d < DATA_POINTS * step + DATA_POINTS * SECOND
      && 251 <= Points(end, start, step) <= 500
  {
    AutoStepSeconds(end, start);
    var d, r := end - start, (end - start) / (DATA_POINTS * SECOND);
    assert r >= 1 && r * (DATA_POINTS * SECOND) <= d < (r + 1) * (DATA_POINTS * SECOND);
    var step := r * SECOND;
    assert DATA_POINTS * step <= d < DATA_POINTS * step + DATA_POINTS * SECOND <= 500 * step;
    QuotientBetween(d, step, 250, 500);
  }

  /** `Points` counts the sample times `start`, `start + step`, ... up to `end`. */
  lemma PointsCount(end: int, start: int, step: int, k: nat)
    requires step > 0
    ensures start + k * step <= end <==> k < Points(end, start, step)
  {
    if end >= start {
      var q := (end - start) / step;
      assert q * step <= end - start < q * step + step;
      if k <= q {
        TimesMonotone(k, q, step);
      } else {
        TimesMonotone(q + 1, k, step);
      }
    } else {
      TimesMonotone(0, k, step);
    }
  }

  lemma QuotientBetween(d: int, step: int, lo: int, hi: int)
    requires step > 0 && lo * step <= d < hi * step
    ensures lo <= d / step < hi
  {
    var q := d / step;
    assert q * step <= d < q * step + step;
    if q < lo {
      TimesMonotone(q + 1, lo, step);
    }
    if hi <= q {
      TimesMonotone(hi, q, step);
    }
  }

  lemma TimesMonotone(a: int, b: int, c: int)
    requires a <= b && c >= 0
    ensures a * c <= b * c
  {
    assert (b - a) * c >= 0;
  }

  /** Shorter ranges get the one-second step and at most 250 samples; reversed ones get none. */
  lemma AutoStepShort(end: int, start: int)
    requires end - start < DATA_POINTS * SECOND
    ensures AutoStep(end, start) == SECOND
    ensures Points(end, start, SECOND) <= 250
  {
    AutoStepSeconds(end, start);
  }

  /** For all ranges, those beyond a duration included: at most 500 samples, if and only if the
      range is below 500 steps of the largest automatic step, 36893488 seconds. */
  lemma AutoStepPointsIff(end: int, start: int)
    ensures Points(end, start, AutoStep(end, start)) <= 500 <==> end - start < 500 * 36_893_488 * SECOND
  {
    AutoStepSeconds(end, start);
    var d := end - start;
    if d < DATA_POINTS * SECOND {
      AutoStepShort(end, start);
    } else if d <= MAX_INT64 {
      AutoStepPoints(end, start);
    } else {
      assert AutoStep(end, start) == 36_893_488 * SECOND;
    }
  }

  // ----- Numeric timestamps

  /** `math.Modf`: the integer part towards zero, and the rest with the same sign. */
  function IntegerPart(t: real): int {
    if t >= 0.0 then t.Floor else -((-t).Floor)
  }

  /** `math.Round`: to the nearest integer, halves away from zero. */
  function Round(x: real): int {
    if x >= 0.0 then (x + 0.5).Floor else -((-x + 0.5).Floor)
  }

  /** `Round` is within one half, and on a tie goes away from zero. */
  lemma RoundIsNearest(x: real)
    ensures var r := Round(x) as real;
      && -0.5 <= r - x <= 0.5
      && (r - x == 0.5 ==> x > 0.0) && (r - x == -0.5 ==> x < 0.0)
  {
  }

  datatype Time = Time(sec: int, nsec: int)
  {
    function Nanos(): int {
      sec * SECOND + nsec
    }
  }

  /** Go's integer division, which truncates. */
  function Quo(a: int, b: int): int
    requires b > 0
  {
    if a >= 0 then a / b else -((-a) / b)
  }

  /** `time.Unix`: nanoseconds outside one second are carried into the seconds. */
  function Unix(sec: int, nsec: int): Time {
    if 0 <= nsec < SECOND then Time(sec, nsec)
    else
      var n := Quo(nsec, SECOND);
      var rest := nsec - n * SECOND;
      if rest < 0 then Time(sec + n - 1, rest + SECOND) else Time(sec + n, rest)
  }

  /** The numeric branch of `ParseTimestamp`. */
  function EpochTime(t: real): Time {
    var s := IntegerPart(t);
    var ns := Round((t - s as real) * 1000.0) as real / 1000.0;
    Unix(s, IntegerPart(ns * SECOND as real))
  }

  lemma UnixNormalises(sec: int, nsec: int)
    ensures var u := Unix(sec, nsec);
      0 <= u.nsec < SECOND && u.Nanos() == sec * SECOND + nsec
  {
  }

  lemma WholeMillis(ms: int)
    ensures IntegerPart(ms as real / 1000.0 * SECOND as real) == ms * MILLISECOND
  {
    var x := ms as real / 1000.0 * SECOND as real;
    assert x == (ms * MILLISECOND) as real;
    assert -x == (-(ms * MILLISECOND)) as real;
  }

  /** Rounding commutes with adding a whole number of the same sign. */
  lemma RoundShift(x: real, k: int)
    requires (x >= 0.0 && k >= 0) || (x <= 0.0 && k <= 0)
    ensures Round(x + k as real) == Round(x) + k
  {
    if x >= 0.0 {
      FloorShift(x + 0.5, k);
    } else {
      FloorShift(-x + 0.5, -k);
      assert -(x + k as real) + 0.5 == (-x + 0.5) + (-k) as real;
    }
    if x == 0.0 && k < 0 {
      FloorShift(0.5, -k);
      assert -(x + k as real) + 0.5 == 0.5 + (-k) as real;
    }
  }

  lemma FloorShift(x: real, k: int)
    ensures (x + k as real).Floor == x.Floor + k
  {
  }

  /** Splitting, rounding the fraction and normalising compose to rounding the whole value to the
      nearest millisecond, halves away from zero, whatever its sign; the nanoseconds are always
      within one second, even when the fraction rounds up to 1 or is negative. */
  lemma EpochRoundsToMillis(t: real)
    ensures EpochTime(t).Nanos() == Round(t * 1000.0) * MILLISECOND
    ensures 0 <= EpochTime(t).nsec < SECOND
  {
    hide Unix, Round, IntegerPart;
    var s := IntegerPart(t);
    var frac := (t - s as real) * 1000.0;
    var ms := Round(frac);
    WholeMillis(ms);
    UnixNormalises(s, ms * MILLISECOND);
    SplitSigns(t);
    assert t * 1000.0 == frac + (s * 1000) as real;
    RoundShift(frac, s * 1000);
  }

  /** The two parts of a number have its sign. */
  lemma SplitSigns(t: real)
    ensures var s := IntegerPart(t);
      var frac := (t - s as real) * 1000.0;
      (frac >= 0.0 && s >= 0) || (frac <= 0.0 && s <= 0)
  {
  }

  /** The result is within half a millisecond of the input. */
  lemma EpochWithinHalfMilli(t: real)
    ensures -500_000.0 <= EpochTime(t).Nanos() as real - t * SECOND as real <= 500_000.0
  {
    EpochRoundsToMillis(t);
    var r := Round(t * 1000.0);
    assert -0.5 <= r as real - t * 1000.0 <= 0.5;
    assert (r * MILLISECOND) as real == r as real * 1_000_000.0;
  }

  /** Later inputs never give earlier results. */
  lemma EpochMonotone(t: real, u: real)
    requires t <= u
    ensures EpochTime(t).Nanos() <= EpochTime(u).Nanos()
  {
    EpochRoundsToMillis(t);
    EpochRoundsToMillis(u);
    assert t * 1000.0 <= u * 1000.0;
    RoundMonotone(t * 1000.0, u * 1000.0);
  }

  lemma RoundMonotone(x: real, y: real)
    requires x <= y
    ensures Round(x) <= Round(y)
  {
  }

  // ----- Timestamps, durations and "now" expressions

  /** The library parsers: absolute timestamps, as instants, and unsigned durations. */
  datatype Parsers = Parsers(timestamp: string -> Option<int>, duration: string -> Option<nat>)

  /** `model.ParseDurationAllowNegative`. */
  function SignedDuration(p: Parsers, s: string): Option<int> {
    if s == "" || s[0] != '-' then
      match p.duration(s) { case None => None case Some(d) => Some(d) }
    else
      match p.duration(s[1..]) { case None => None case Some(d) => Some(0 - d as int) }
  }

  function Abs(x: int): int {
    if x < 0 then -x else x
  }

  /** Past the "now" of a trimmed expression other than bare "now", something that is not white
      space is left: reading its first byte is in bounds. */
  lemma NowLeavesSign(s: string)
    requires HasPrefix(Lower(s), "now") && Lower(s) != "now" && TrailingSpace(s) == 0
    ensures |s| > 3 && TrimSpace(s[3..]) != ""
  {
    TrimmedTailNotBlank(s, 3);
  }

  /** `parseNowExpression`: `now`, or `now`, a sign and an unsigned duration. */
  function NowExpression(p: Parsers, now: int, s: string): Result<int>
    requires HasPrefix(Lower(s), "now") && TrailingSpace(s) == 0
  {
    if Lower(s) == "now" then Ok(now)
    else
      NowLeavesSign(s);
      var rest := TrimSpace(s[3..]);
      var sign := rest[0];
      if sign != '-' && sign != '+' then Err
      else
        match p.duration(TrimSpace(rest[1..]))
        case None => Err
        case Some(d) => Ok(if sign == '-' then now - d else now + d)
  }

  /** `ParseTimestampOrDuration` at one clock reading. */
  function ParseTime(p: Parsers, now: int, input: string): Result<int> {
    var s := TrimSpace(input);
    TrimRightEndsClean(TrimLeftSpace(input));
    if HasPrefix(Lower(s), "now") then NowExpression(p, now, s)
    else
      match p.timestamp(s)
      case Some(t) => Ok(t)
      case None =>
        match SignedDuration(p, s)
        case Some(d) => Ok(now - Abs(d))
        case None => Err
  }

  /** Durations are written with a leading digit and without white space at the end. */
  ghost predicate Lexical(p: Parsers) {
    forall s :: p.duration(s).Some? ==> s != "" && IsDigit(s[0]) && TrailingSpace(s) == 0
  }

  /** Apart from a bare "0", no duration and no negated one is a timestamp. */
  ghost predicate Grammar(p: Parsers) {
    && Lexical(p)
    && p.duration("0") == Some(0)
    && forall s :: p.duration(s).Some? && s != "0" ==> p.timestamp(s).None? && p.timestamp("-" + s).None?
  }

  lemma TrimSpaceKeeps(s: string)
    requires LeadingSpace(s) == 0 && TrailingSpace(s) == 0
    ensures TrimSpace(s) == s
  {
  }

  /** ASCII text in front of a string adds no white space to its end. */
  lemma TrailingSpaceBehind(a: string, b: string)
    requires b != "" && TrailingSpace(b) == 0
    requires forall i :: 0 <= i < |a| ==> a[i] < '\U{80}'
    ensures TrailingSpace(a + b) == 0
  {
    var s, n, m := a + b, |a + b|, |b|;
    assert s[n - 1] == b[m - 1];
    assert n >= 2 ==> s[n - 2] == if m >= 2 then b[m - 2] else a[|a| - 1];
    assert n >= 3 ==> s[n - 3] == if m >= 3 then b[m - 3] else a[|a| - 3 + m];
  }

  /** A sign in front of a duration is kept by trimming, and so is the duration. */
  lemma TrimmedForms(p: Parsers, d: string, sign: char)
    requires Lexical(p) && p.duration(d).Some? && (sign == '-' || sign == '+')
    ensures TrimSpace(d) == d
    ensures TrimSpace([sign] + d) == [sign] + d
    ensures TrimSpace("now" + [sign] + d) == "now" + [sign] + d
  {
    TrimSpaceKeeps(d);
    TrailingSpaceBehind([sign], d);
    TrimSpaceKeeps([sign] + d);
    TrailingSpaceBehind("now" + [sign], d);
    TrimSpaceKeeps("now" + [sign] + d);
  }

  lemma NowForm(p: Parsers, now: int, d: string, sign: char)
    requires Lexical(p) && p.duration(d).Some? && (sign == '-' || sign == '+')
    ensures ParseTime(p, now, "now" + [sign] + d) ==
      Ok(if sign == '-' then now - p.duration(d).value else now + p.duration(d).value)
  {
    hide TrimSpace, TrailingSpace;
    TrimmedForms(p, d, sign);
    var s := "now" + [sign] + d;
    TrimRightEndsClean(TrimLeftSpace(s));
    assert Lower(s)[..3] == "now" && |Lower(s)| > 3;
    assert s[3..] == [sign] + d && ([sign] + d)[1..] == d;
    EndsClean(s);
  }

  lemma EndsClean(input: string)
    ensures TrailingSpace(TrimSpace(input)) == 0
  {
    TrimRightEndsClean(TrimLeftSpace(input));
  }

  /** What a valid duration means, bare or negated: its distance into the past, unless the text is
      also a timestamp, which is tried first. */
  lemma BareForms(p: Parsers, now: int, d: string)
    requires Lexical(p) && p.duration(d).Some?
    ensures ParseTime(p, now, d) ==
      Ok(if p.timestamp(d).Some? then p.timestamp(d).value else now - p.duration(d).value)
    ensures ParseTime(p, now, "-" + d) ==
      Ok(if p.timestamp("-" + d).Some? then p.timestamp("-" + d).value else now - p.duration(d).value)
  {
    hide TrimSpace, NowExpression, TrailingSpace;
    TrimmedForms(p, d, '-');
    assert Lower(d)[0] == d[0] && Lower("-" + d)[0] == '-';
    assert ("-" + d)[1..] == d;
  }

  /** For every valid duration and clock reading: `now-d` and `now+d` always lie as far in the past
      and in the future; `d`, and likewise `-d`, is the same past instant as `now-d` if and only if
      the text is no timestamp, or one of just that instant. */
  lemma DurationsMeanPastIff(p: Parsers, now: int, d: string)
    requires Lexical(p) && p.duration(d).Some?
    ensures var n := p.duration(d).value;
      && ParseTime(p, now, "now-" + d) == Ok(now - n)
      && ParseTime(p, now, "now+" + d) == Ok(now + n)
      && (ParseTime(p, now, d) == Ok(now - n) <==>
            p.timestamp(d).None? || p.timestamp(d) == Some(now - n))
      && (ParseTime(p, now, "-" + d) == Ok(now - n) <==>
            p.timestamp("-" + d).None? || p.timestamp("-" + d) == Some(now - n))
  {
    hide ParseTime;
    NowForm(p, now, d, '-');
    NowForm(p, now, d, '+');
    assert "now" + "-" + d == "now-" + d && "now" + "+" + d == "now+" + d;
    BareForms(p, now, d);
  }

  /** At one clock reading, `d`, `-d` and `now-d` are the same instant in the past, and `now+d`
      its mirror image, for every valid duration but a bare "0". */
  lemma RelativeFormsAgree(p: Parsers, now: int, d: string)
    requires Grammar(p) && p.duration(d).Some? && d != "0"
    ensures var n := p.duration(d).value;
      && ParseTime(p, now, d) == ParseTime(p, now, "-" + d) == ParseTime(p, now, "now-" + d) == Ok(now - n)
      && ParseTime(p, now, "now+" + d) == Ok(now + n)
  {
    hide ParseTime;
    DurationsMeanPastIff(p, now, d);
  }

  /** A bare "0", signed or not, is the epoch and not the present: it agrees with `now-0` only at
      the epoch. */
  lemma BareZeroIsEpoch(p: Parsers, now: int)
    requires Grammar(p) && p.timestamp("0") == Some(0) && p.timestamp("-0") == Some(0)
    ensures ParseTime(p, now, "now-0") == Ok(now)
    ensures ParseTime(p, now, "-0") == ParseTime(p, now, "0") == Ok(0)
    ensures ParseTime(p, now, "0") == ParseTime(p, now, "now-0") <==> now == 0
  {
    hide ParseTime;
    assert "now-" + "0" == "now-0" && "-" + "0" == "-0";
    DurationsMeanPastIff(p, now, "0");
    BareForms(p, now, "0");
  }

  /** An instant after the clock reading comes from an absolute timestamp or from `now+`. */
  lemma FutureOnlyByTimestampOrPlus(p: Parsers, now: int, input: string, t: int)
    requires ParseTime(p, now, input) == Ok(t) && t > now
    ensures var s := TrimSpace(input);
      || p.timestamp(s) == Some(t)
      || (HasPrefix(Lower(s), "now") && TrimSpace(s[3..]) != "" && TrimSpace(s[3..])[0] == '+')
  {
    hide TrimSpace, TrailingSpace;
    var s := TrimSpace(input);
    EndsClean(input);
    if HasPrefix(Lower(s), "now") && Lower(s) != "now" {
      NowLeavesSign(s);
    }
  }

  // ----- What an input says

  /** The letters of "now", in any case. */
  predicate NowWord(s: string) {
    && |s| == 3
    && (s[0] == 'n' || s[0] == 'N') && (s[1] == 'o' || s[1] == 'O') && (s[2] == 'w' || s[2] == 'W')
  }

  lemma LowerIsNow(s: string)
    ensures HasPrefix(Lower(s), "now") <==> |s| >= 3 && NowWord(s[..3])
    ensures Lower(s) == "now" <==> NowWord(s)
  {
    if |s| >= 3 {
      assert Lower(s)[..3] == [LowerByte(s[0]), LowerByte(s[1]), LowerByte(s[2])];
      assert |s| == 3 ==> Lower(s) == Lower(s)[..3];
    }
  }

  /** `s` is "now", perhaps white space, `sign`, perhaps white space, and the duration `d`. */
  ghost predicate NowForms(p: Parsers, s: string, sign: char, d: string) {
    && |s| > 3 && NowWord(s[..3]) && (sign == '-' || sign == '+')
    && (exists rest: string :: IsTrimmed(s[3..], [sign] + rest) && IsTrimmed(rest, d))
    && p.duration(d).Some?
  }

  /** `s`, without white space at its ends, names the instant `t`: it is "now", or "now" and a signed
      duration; or it does not start with "now" and is a timestamp, or else a duration, negated or
      not, which lies in the past. */
  ghost predicate Names(p: Parsers, now: int, s: string, t: int) {
    if NowWord(s) then t == now
    else if |s| >= 3 && NowWord(s[..3]) then
      exists sign, d :: NowForms(p, s, sign, d)
        && t == if sign == '-' then now - p.duration(d).value else now + p.duration(d).value
    else if p.timestamp(s).Some? then t == p.timestamp(s).value
    else
      exists d: string ::
        (s == "-" + d || (s == d && (s == "" || s[0] != '-'))) && p.duration(d).Some? && t == now - p.duration(d).value
  }

  /** For every input: the result is the instant that the trimmed input names, and an error if it
      names none. */
  lemma ParseTimeMeans(p: Parsers, now: int, input: string, t: int)
    ensures ParseTime(p, now, input) == Ok(t) <==> exists s :: IsTrimmed(input, s) && Names(p, now, s, t)
  {
    var s := TrimSpace(input);
    TrimSpaceMeans(input, s);
    forall r | IsTrimmed(input, r)
      ensures r == s
    {
      TrimSpaceMeans(input, r);
    }
    EndsClean(input);
    LowerIsNow(s);
    hide TrimSpace, IsTrimmed, NowWord, Lower, TrailingSpace;
    if HasPrefix(Lower(s), "now") {
      NowExpressionMeans(p, now, s, t);
    } else {
      PlainMeans(p, now, s, t);
    }
  }

  lemma NowExpressionMeans(p: Parsers, now: int, s: string, t: int)
    requires HasPrefix(Lower(s), "now") && TrailingSpace(s) == 0
    ensures NowExpression(p, now, s) == Ok(t) <==> Names(p, now, s, t)
  {
    LowerIsNow(s);
    hide Lower, NowWord, TrailingSpace, TrimSpace, IsTrimmed;
    if !NowWord(s) {
      NowLeavesSign(s);
      var rest := TrimSpace(s[3..]);
      assert rest == [rest[0]] + rest[1..];
      TrimSpaceMeans(s[3..], rest);
      TrimSpaceMeans(rest[1..], TrimSpace(rest[1..]));
      if rest[0] == '-' || rest[0] == '+' {
        if p.duration(TrimSpace(rest[1..])).Some? {
          assert NowForms(p, s, rest[0], TrimSpace(rest[1..]));
        }
      }
      forall sign, d | NowForms(p, s, sign, d)
        ensures sign == rest[0] && d == TrimSpace(rest[1..])
      {
        var more: string :| IsTrimmed(s[3..], [sign] + more) && IsTrimmed(more, d);
        TrimSpaceMeans(s[3..], [sign] + more);
        assert ([sign] + more)[1..] == more;
        TrimSpaceMeans(more, d);
      }
    }
  }

  lemma PlainMeans(p: Parsers, now: int, s: string, t: int)
    requires !(|s| >= 3 && NowWord(s[..3])) && !NowWord(s)
    ensures Names(p, now, s, t) <==>
      if p.timestamp(s).Some? then t == p.timestamp(s).value
      else SignedDuration(p, s).Some? && t == now - Abs(SignedDuration(p, s).value)
  {
    hide NowWord;
    if s != "" && s[0] == '-' {
      assert s == "-" + s[1..];
      assert forall d: string :: s == "-" + d ==> d == s[1..];
    } else {
      assert forall d: string :: s == "-" + d ==> s[0] == '-';
    }
  }
}
