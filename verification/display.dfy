/** The two text converters of the frame list: the field strength as a
    percentage (`mapVendorSpecificGainToPowerPercentage`) and the time since
    the previous frame (`mapDeltaToTimeText`). */
module Display {
  import opened Results
  import opened Strings

  /** The gain range the percentage spans. */
  const MaxGain := 12

  /** `vendorSpecificGain.coerceIn(0, 12) * 100 / 12`: the clamped gain as a
      whole percentage, rounded down. */
  function PowerPercentage(gain: int): (p: int)
    ensures 0 <= p <= 100
    ensures gain <= 0 ==> p == 0
    ensures gain >= MaxGain ==> p == 100
    ensures 0 <= gain <= MaxGain ==> MaxGain * p <= 100 * gain < MaxGain * (p + 1)
  {
    var squashed := if gain < 0 then 0 else if gain > MaxGain then MaxGain else gain;
    squashed * 100 / MaxGain
  }

  /** A stronger signal never shows a smaller percentage. */
  lemma PowerPercentageMonotone(a: int, b: int)
    requires a <= b
    ensures PowerPercentage(a) <= PowerPercentage(b)
  {
  }

  /** `mapVendorSpecificGainToPowerPercentage`: the percentage followed by
      a percent sign. */
  function GainText(gain: int): (r: string)
    ensures |r| >= 2 && r[|r| - 1] == '%'
    ensures ParseInt(r[..|r| - 1]) == Some(PowerPercentage(gain))
  {
    var digits := IntToString(PowerPercentage(gain));
    IntToStringRoundTrip(PowerPercentage(gain));
    assert (digits + "%")[..|digits|] == digits;
    digits + "%"
  }

  const MicrosPerMinute := 60_000_000
  const MicrosPerSecond := 1_000_000
  const MicrosPerMilli := 1_000

  datatype TimeUnit = Minutes | Seconds | Milliseconds | Microseconds

  /** What the text of a delta says: "Continuous" for the -1 sentinel, or an
      amount of some unit. */
  datatype Reading = Continuous | Amount(value: int, unit: TimeUnit)

  /** The smallest `q` with `a <= q * b`. */
  function CeilDiv(a: nat, b: nat): (q: nat)
    requires b > 0
    ensures (q - 1) * b < a <= q * b
  {
    if a % b == 0 then a / b else a / b + 1
  }

  /** The reading of `microseconds`: the largest unit the delta reaches,
      with the amount rounded up; below a millisecond the raw value. */
  function ReadingOf(us: int): (r: Reading)
    ensures r.Continuous? <==> us == -1
    ensures r.Amount? && r.unit == Minutes ==>
      MicrosPerMinute <= us && (r.value - 1) * MicrosPerMinute < us <= r.value * MicrosPerMinute
    ensures r.Amount? && r.unit == Seconds ==>
      MicrosPerSecond <= us < MicrosPerMinute && (r.value - 1) * MicrosPerSecond < us <= r.value * MicrosPerSecond
    ensures r.Amount? && r.unit == Milliseconds ==>
      MicrosPerMilli <= us < MicrosPerSecond && (r.value - 1) * MicrosPerMilli < us <= r.value * MicrosPerMilli
    ensures r.Amount? && r.unit == Microseconds ==> us < MicrosPerMilli && r.value == us
  {
    if us == -1 then Continuous
    else if us >= MicrosPerMinute then Amount(CeilDiv(us, MicrosPerMinute), Minutes)
    else if us >= MicrosPerSecond then Amount(CeilDiv(us, MicrosPerSecond), Seconds)
    else if us >= MicrosPerMilli then Amount(CeilDiv(us, MicrosPerMilli), Milliseconds)
    else Amount(us, Microseconds)
  }

  function UnitSuffix(u: TimeUnit): string {
    match u
    case Minutes => " min"
    case Seconds => " s"
    case Milliseconds => " ms"
    case Microseconds => " us"
  }

  /** `mapDeltaToTimeText(microseconds)` */
  function TimeText(us: int): (r: string)
    ensures r == "Continuous" <==> us == -1
  {
    match ReadingOf(us)
    case Continuous => "Continuous"
    case Amount(v, u) =>
      var t := IntToString(v) + UnitSuffix(u);
      AmountTextIsNotContinuous(v, u);
      t
  }

  /** Reads a time text back into the reading it shows. */
  function ParseTimeText(t: string): Option<Reading> {
    if t == "Continuous" then Some(Continuous)
    else if EndsWith(t, " min") then ParseAmount(t[..|t| - 4], Minutes)
    else if EndsWith(t, " ms") then ParseAmount(t[..|t| - 3], Milliseconds)
    else if EndsWith(t, " us") then ParseAmount(t[..|t| - 3], Microseconds)
    else if EndsWith(t, " s") then ParseAmount(t[..|t| - 2], Seconds)
    else None
  }

  function ParseAmount(digits: string, u: TimeUnit): Option<Reading> {
    match ParseInt(digits)
    case Some(v) => Some(Amount(v, u))
    case None => None
  }

  lemma AmountTextIsNotContinuous(v: int, u: TimeUnit)
    ensures IntToString(v) + UnitSuffix(u) != "Continuous"
  {
    var d := IntToString(v);
    var t := d + UnitSuffix(u);
    var n := |t| - |UnitSuffix(u)|;
    assert t[n - 1] == d[|d| - 1];
    if |t| == 10 {
      assert t[n] == ' ';
      assert "Continuous"[n] != ' ';
    }
  }

  /** The digits before the unit are those `IntToString` wrote. */
  lemma AmountTextSplits(v: int, u: TimeUnit)
    ensures var d := IntToString(v); var t := d + UnitSuffix(u);
      t[..|t| - |UnitSuffix(u)|] == d && IsDigit(t[|d| - 1]) && t[|d|..] == UnitSuffix(u)
  {
    var d := IntToString(v);
    var t := d + UnitSuffix(u);
    assert t[..|d|] == d;
    assert t[|d|..] == UnitSuffix(u);
  }

  /** A text whose `k`-th character from the end differs from that of
      `suffix` does not end with `suffix`. */
  lemma MissesSuffix(t: string, suffix: string, k: nat)
    requires 1 <= k <= |suffix| && k <= |t|
    requires t[|t| - k] != suffix[|suffix| - k]
    ensures !EndsWith(t, suffix)
  {
    if |suffix| <= |t| {
      assert t[|t| - |suffix|..][|suffix| - k] == t[|t| - k];
    }
  }

  /** The digits in front of the suffix are read back as `v`. */
  lemma AmountDigits(v: int, u: TimeUnit)
    ensures var t := IntToString(v) + UnitSuffix(u);
      EndsWith(t, UnitSuffix(u)) && ParseAmount(t[..|t| - |UnitSuffix(u)|], u) == Some(Amount(v, u))
  {
    AmountTextSplits(v, u);
    IntToStringRoundTrip(v);
  }

  /** Each unit's text is recognised by its own suffix test and by no
      earlier one. */
  lemma AmountTextRoundTrip(v: int, u: TimeUnit)
    ensures ParseTimeText(IntToString(v) + UnitSuffix(u)) == Some(Amount(v, u))
  {
    var d := IntToString(v);
    var t := d + UnitSuffix(u);
    AmountTextSplits(v, u);
    AmountTextIsNotContinuous(v, u);
    AmountDigits(v, u);
    assert t[|t| - 1] == UnitSuffix(u)[|UnitSuffix(u)| - 1];
    match u
    case Minutes =>
    case Milliseconds =>
      MissesSuffix(t, " min", 1);
    case Microseconds =>
      MissesSuffix(t, " min", 1);
      assert t[|t| - 2] == 'u';
      MissesSuffix(t, " ms", 2);
    case Seconds =>
      MissesSuffix(t, " min", 1);
      assert t[|t| - 2] == ' ';
      MissesSuffix(t, " ms", 2);
      MissesSuffix(t, " us", 2);
  }

  /** The text of a delta shows exactly its reading. */
  lemma TimeTextRoundTrip(us: int)
    ensures ParseTimeText(TimeText(us)) == Some(ReadingOf(us))
  {
    match ReadingOf(us)
    case Continuous =>
    case Amount(v, u) =>
      AmountTextRoundTrip(v, u);
  }
}
