// Time of day as the number of minutes since midnight: the timepicker's
// display text (`formatTime`/`parseInputTime`) and the stored ISO-like text
// (`serializeTime`/`parseIsoTime`) with its optional UTC offset suffix.
// The local time zone offset, which the viewer reads from the clock, is a
// parameter here.
module TimeOfDay {
  import opened Wrappers
  import opened Text
  import Decimal

  const MinutesInDay := 1440

  /** `TIME_SERIALISING_FORMATS`: `utc_offset`, `utc_normalized` and `no_timezone`. */
  datatype SerializingFormat = UtcOffset | UtcNormalized | NoTimezone

  /** `_getZeroPaddedString`: the number's text padded to two characters with zeros. */
  function Pad(i: int): string
  {
    PadTwo(IntToString(i))
  }

  /** `s.includes(t)`. */
  predicate Includes(s: string, t: string)
    decreases |s|
  {
    StartsWith(s, t) || (s != [] && Includes(s[1..], t))
  }

  /** `s.replace(c, '')` for a one-character pattern: only the first occurrence goes. */
  function RemoveFirst(s: string, c: char): (r: string)
    ensures c in s ==> |r| == |s| - 1
    ensures c !in s ==> r == s
  {
    var k := IndexOf(s, c);
    if k == -1 then s else s[..k] + s[k + 1..]
  }

  // ---------------------------------------------------------------------
  // parseInt and the digit runs of /\d+/g
  // ---------------------------------------------------------------------

  function DigitPrefixLen(s: string): (n: nat)
    ensures n <= |s| && AllDigits(s[..n])
    ensures n < |s| ==> !IsDigit(s[n])
  {
    if s == [] || !IsDigit(s[0]) then 0
    else
      var n := 1 + DigitPrefixLen(s[1..]);
      assert s[..n] == [s[0]] + s[1..][..n - 1];
      n
  }

  predicate IsHexDigit(c: char) { IsDigit(c) || 'a' <= c <= 'f' || 'A' <= c <= 'F' }

  function HexDigitValue(c: char): (v: nat)
    requires IsHexDigit(c)
    ensures v < 16
  {
    if IsDigit(c) then c as int - '0' as int
    else if 'a' <= c <= 'f' then c as int - 'a' as int + 10
    else c as int - 'A' as int + 10
  }

  predicate AllHex(s: string) { forall i :: 0 <= i < |s| ==> IsHexDigit(s[i]) }

  function HexPrefixLen(s: string): (n: nat)
    ensures n <= |s| && AllHex(s[..n])
  {
    if s == [] || !IsHexDigit(s[0]) then 0
    else
      var n := 1 + HexPrefixLen(s[1..]);
      assert s[..n] == [s[0]] + s[1..][..n - 1];
      n
  }

  function HexValue(s: string): nat
    requires AllHex(s)
  {
    if s == [] then 0 else 16 * HexValue(s[..|s| - 1]) + HexDigitValue(s[|s| - 1])
  }

  /**
   * `parseInt(s)` without a radix: leading white space is skipped, one sign
   * is read, a `0x`/`0X` prefix switches to hexadecimal, and the longest run
   * of digits that follows is the value. No digit at all is `NaN`, which is
   * `None` here.
   */
  function ParseInt(s: string): (r: Option<int>)
  {
    ParseSigned(TrimStart(s))
  }

  /** One optional sign, then the magnitude. */
  function ParseSigned(t: string): (r: Option<int>)
  {
    var neg := |t| > 0 && t[0] == '-';
    var body := if |t| > 0 && (t[0] == '-' || t[0] == '+') then t[1..] else t;
    var v := ParseMagnitude(body);
    if v.None? then None else Some(if neg then -(v.value as int) else v.value as int)
  }

  /** The longest run of hexadecimal digits after `0x`/`0X`, else of decimal digits. */
  function ParseMagnitude(body: string): (r: Option<nat>)
  {
    if |body| >= 2 && body[0] == '0' && (body[1] == 'x' || body[1] == 'X') then
      var hex := body[2..][..HexPrefixLen(body[2..])];
      if hex == [] then None else Some(HexValue(hex))
    else
      var digits := body[..DigitPrefixLen(body)];
      if digits == [] then None else Some(DigitsValue(digits))
  }

  /** A run of decimal digits reads back as its decimal value. */
  lemma ParseIntDigits(d: string)
    requires d != [] && AllDigits(d)
    ensures ParseInt(d) == Some(DigitsValue(d))
  {
    assert IsDigit(d[0]) && !IsWhitespace(d[0]);
    assert TrimStart(d) == d;
    hide *;
    UnsignedParse(d);
    DigitMagnitude(d);
  }

  /** Without a sign, the magnitude is the value. */
  lemma UnsignedParse(t: string)
    requires t != [] && IsDigit(t[0])
    ensures ParseSigned(t) == if ParseMagnitude(t).None? then None else Some(ParseMagnitude(t).value as int)
  {
    assert t[0] != '-' && t[0] != '+';
  }

  lemma DigitMagnitude(d: string)
    requires d != [] && AllDigits(d)
    ensures ParseMagnitude(d) == Some(DigitsValue(d))
  {
    DigitPrefixAll(d);
    assert d[..|d|] == d;
    assert |d| >= 2 ==> d[1] != 'x' && d[1] != 'X';
  }

  lemma {:induction false} DigitPrefixAll(d: string)
    requires AllDigits(d)
    ensures DigitPrefixLen(d) == |d|
  {
    if d != [] {
      DigitPrefixAll(d[1..]);
    }
  }

  /** The maximal runs of decimal digits in `s`, left to right: `s.match(/\d+/g)`, with no match as `[]`. */
  function DigitRuns(s: string): (runs: seq<string>)
    ensures forall i :: 0 <= i < |runs| ==> runs[i] != [] && AllDigits(runs[i])
    decreases |s|
  {
    if s == [] then []
    else if !IsDigit(s[0]) then DigitRuns(s[1..])
    else
      var n := DigitPrefixLen(s);
      [s[..n]] + DigitRuns(s[n..])
  }

  /** Characters that are not digits contribute no run. */
  lemma {:induction false} RunsSkip(a: string, b: string)
    requires forall i :: 0 <= i < |a| ==> !IsDigit(a[i])
    ensures DigitRuns(a + b) == DigitRuns(b)
    decreases |a|
  {
    if a != [] {
      assert (a + b)[0] == a[0] && (a + b)[1..] == a[1..] + b;
      RunsSkip(a[1..], b);
    } else {
      assert a + b == b;
    }
  }

  /** A block of digits followed by a non-digit is one run. */
  lemma RunsTake(d: string, b: string)
    requires d != [] && AllDigits(d)
    requires b == [] || !IsDigit(b[0])
    ensures DigitRuns(d + b) == [d] + DigitRuns(b)
  {
    DigitPrefixOf(d, b);
    assert (d + b)[..|d|] == d && (d + b)[|d|..] == b;
  }

  lemma {:induction false} DigitPrefixOf(d: string, b: string)
    requires AllDigits(d)
    requires b == [] || !IsDigit(b[0])
    ensures DigitPrefixLen(d + b) == |d|
    decreases |d|
  {
    if d != [] {
      assert (d + b)[1..] == d[1..] + b;
      DigitPrefixOf(d[1..], b);
    } else {
      assert d + b == b;
    }
  }

  /** `parseInt(digits && digits[k])`: the k-th run's value, or `NaN` when there is none. */
  function RunValue(runs: seq<string>, k: nat): Option<int>
  {
    if k < |runs| then ParseInt(runs[k]) else None
  }

  // ---------------------------------------------------------------------
  // Display text
  // ---------------------------------------------------------------------

  /**
   * `formatTime(use24h, minutes)`: `HH:MM` on the 24-hour clock, or
   * `HH:MM AM`/`HH:MM PM` with hours 12, 1, ..., 11. `null` stays `null`.
   * Remainders truncate toward zero as in JavaScript; the hour is floored.
   */
  function FormatTime(use24h: bool, minutes: Option<int>): (r: Option<string>)
    ensures r.None? <==> minutes.None?
  {
    if minutes.None? then None
    else
      var wrapped := Decimal.TruncRem(minutes.value, MinutesInDay);
      var minute := Decimal.TruncRem(minutes.value, 60);
      var hour := wrapped / 60;
      if use24h then Some(Pad(hour) + ":" + Pad(minute))
      else
        var h12 := if Decimal.TruncRem(hour, 12) == 0 then 12 else Decimal.TruncRem(hour, 12);
        Some(Pad(h12) + ":" + Pad(minute) + " " + (if wrapped >= 12 * 60 then "PM" else "AM"))
  }

  /**
   * `parseInputTime(text)`: text mentioning `am` or `pm` (in any case) is
   * read on the 12-hour clock, anything else on the 24-hour clock, from the
   * values of its first two digit runs.
   */
  function ParseInputTime(text: string): (r: Option<int>)
    ensures r.Some? ==> 0 <= r.value < MinutesInDay
  {
    var w := ToLower(text);
    var runs := DigitRuns(w);
    ReadClock(Includes(w, "am") || Includes(w, "pm"), Includes(w, "pm"), RunValue(runs, 0), RunValue(runs, 1))
  }

  /**
   * The checks of `parseInputTime` on the two numbers it read: on the
   * 12-hour clock the hour is 1-12 and a missing minute is 0; on the 24-hour
   * clock both are needed, the hour 0-23. The minute is 0-59 either way.
   * Any value that passes is a minute of the day.
   */
  function ReadClock(is12h: bool, isPM: bool, first: Option<int>, second: Option<int>): (r: Option<int>)
    ensures r.Some? ==> 0 <= r.value < MinutesInDay
  {
    if is12h then
      var minute := if second.Some? then second.value else 0;
      if first.None? || !(1 <= first.value <= 12) || !(0 <= minute <= 59) then None
      else Some((first.value % 12 + (if isPM then 12 else 0)) * 60 + minute)
    else
      if first.None? || !(0 <= first.value <= 23) || second.None? || !(0 <= second.value <= 59) then None
      else Some(first.value * 60 + second.value)
  }

  // ---------------------------------------------------------------------
  // Stored text
  // ---------------------------------------------------------------------

  /** `_getSignedPaddedHours`: a positive offset (west of UTC) is written with `-`. */
  function SignedPaddedHours(offset: int): string
  {
    if offset > 0 then "-" + Pad(offset / 60) else "+" + Pad((0 - offset) / 60)
  }

  /** `formatTimezoneOffset(offset)`: `-HH:MM` or `+HH:MM` for an offset in minutes. */
  function FormatTimezoneOffset(offset: int): string
  {
    SignedPaddedHours(offset) + ":" + Pad(Decimal.Abs(Decimal.TruncRem(offset, 60)))
  }

  /**
   * `serializeTime(minutes, offset, format)`: `HH:MMZ` for the minute shifted
   * to UTC, or the local `HH:MM` followed by the offset suffix when asked for.
   */
  function SerializeTime(minutes: int, offset: int, format: SerializingFormat): string
  {
    if format == UtcNormalized then
      var normalized := Decimal.TruncRem(minutes + offset + MinutesInDay, MinutesInDay);
      Pad(normalized / 60) + ":" + Pad(Decimal.TruncRem(normalized, 60)) + "Z"
    else
      var base := Pad(minutes / 60) + ":" + Pad(Decimal.TruncRem(minutes, 60));
      base + (if format == UtcOffset then FormatTimezoneOffset(offset) else "")
  }

  /** `parseBasicMinutes`: `H[:M]` with hour 0-24 and minute 0-60, both read by `parseInt`. */
  function ParseBasicMinutes(t: string): (r: Option<int>)
    ensures r.Some? ==> 0 <= r.value <= 24 * 60 + 60
  {
    var parts := Split(t, ':');
    BasicMinutes(ParseInt(parts[0]), if |parts| > 1 then ParseInt(parts[1]) else Some(0))
  }

  /** The range checks of `parseBasicMinutes` on the hour and minute it read. */
  function BasicMinutes(hour: Option<int>, minute: Option<int>): (r: Option<int>)
    ensures r.Some? ==> 0 <= r.value <= 24 * 60 + 60
  {
    if hour.None? || hour.value < 0 || hour.value > 24 || minute.None? || minute.value < 0 || minute.value > 60 then None
    else Some(hour.value * 60 + minute.value)
  }

  /**
   * `parseIsoTime(text)` for a viewer whose local offset is `localOffset`:
   * a `Z` marks UTC, a `+` or `-` an explicit offset, and the result is the
   * local minute of the day; text without either is read as local time.
   */
  function ParseIsoTime(text: string, localOffset: int): (r: Option<int>)
  {
    if text == "" then None
    else if 'Z' in text then
      var minutes := ParseBasicMinutes(RemoveFirst(text, 'Z'));
      if minutes.None? then None else Some(ToLocal(minutes.value, 0, false, localOffset))
    else if '+' in text then
      var parts := Split(text, '+');
      var minutes := ParseBasicMinutes(parts[0]);
      var inbound := ParseBasicMinutes(parts[1]);
      if minutes.None? || inbound.None? then None else Some(ToLocal(minutes.value, inbound.value, true, localOffset))
    else if '-' in text then
      var parts := Split(text, '-');
      var minutes := ParseBasicMinutes(parts[0]);
      var inbound := ParseBasicMinutes(parts[1]);
      if minutes.None? || inbound.None? then None else Some(ToLocal(minutes.value, inbound.value, false, localOffset))
    else ParseBasicMinutes(text)
  }

  /**
   * The minute of the day in the viewer's zone for a time read with an
   * inbound offset, wrapped by one day with JavaScript's truncating
   * remainder. An offset written after `+` is negated first, to the sign
   * convention of `getTimezoneOffset`.
   */
  function ToLocal(minutes: int, inbound: int, flip: bool, localOffset: int): (r: int)
    ensures -MinutesInDay < r < MinutesInDay
  {
    var offset := if flip then 0 - inbound else inbound;
    Decimal.TruncRemBounds(minutes + offset - localOffset + MinutesInDay, MinutesInDay);
    Decimal.TruncRem(minutes + offset - localOffset + MinutesInDay, MinutesInDay)
  }

  // ---------------------------------------------------------------------
  // The branches of parseIsoTime
  // ---------------------------------------------------------------------

  /** Text with a `Z` is UTC: the `Z` is dropped and the time moved into the viewer's zone. */
  lemma IsoUtcBranch(s: string, base: string, n: int, localOffset: int)
    requires 'Z' in s && RemoveFirst(s, 'Z') == base && ParseBasicMinutes(base) == Some(n)
    ensures ParseIsoTime(s, localOffset) == Some(ToLocal(n, 0, false, localOffset))
  {
  }

  /** Text with a `+` (and no `Z`) carries an offset east of UTC after the `+`. */
  lemma IsoPlusBranch(s: string, time: string, offset: string, m: int, i: int, localOffset: int)
    requires 'Z' !in s && '+' in s && Split(s, '+') == [time, offset]
    requires ParseBasicMinutes(time) == Some(m) && ParseBasicMinutes(offset) == Some(i)
    ensures ParseIsoTime(s, localOffset) == Some(ToLocal(m, i, true, localOffset))
  {
  }

  /** Text with a `-` (and no `Z` or `+`) carries an offset west of UTC after the `-`. */
  lemma IsoMinusBranch(s: string, time: string, offset: string, m: int, i: int, localOffset: int)
    requires 'Z' !in s && '+' !in s && '-' in s && Split(s, '-') == [time, offset]
    requires ParseBasicMinutes(time) == Some(m) && ParseBasicMinutes(offset) == Some(i)
    ensures ParseIsoTime(s, localOffset) == Some(ToLocal(m, i, false, localOffset))
  {
  }

  /** Text with none of `Z`, `+`, `-` is local time. */
  lemma IsoLocalBranch(s: string, localOffset: int)
    requires s != "" && 'Z' !in s && '+' !in s && '-' !in s
    ensures ParseIsoTime(s, localOffset) == ParseBasicMinutes(s)
  {
  }

  /** Whenever the shifted minute is not negative, the truncating remainder is the ordinary one. */
  lemma ToLocalWraps(minutes: int, inbound: int, flip: bool, localOffset: int)
    requires minutes + (if flip then 0 - inbound else inbound) - localOffset + MinutesInDay >= 0
    ensures ToLocal(minutes, inbound, flip, localOffset)
      == (minutes + (if flip then 0 - inbound else inbound) - localOffset + MinutesInDay) % MinutesInDay
  {
  }

  /** An inbound offset equal to the viewer's own leaves the minute where it is. */
  lemma ToLocalSame(minutes: int, inbound: int, flip: bool, localOffset: int)
    requires 0 <= minutes < MinutesInDay && (if flip then 0 - inbound else inbound) == localOffset
    ensures ToLocal(minutes, inbound, flip, localOffset) == minutes
  {
    ToLocalWraps(minutes, inbound, flip, localOffset);
  }

  // ---------------------------------------------------------------------
  // Round trips
  // ---------------------------------------------------------------------

  /** `String(n)` has at most two digits below 100. */
  lemma ShortNumber(n: nat)
    requires n < 100
    ensures 1 <= |NatToString(n)| <= 2
  {
    if n >= 10 {
      assert NatToString(n) == NatToString(n / 10) + [DigitChar(n % 10)];
    }
  }

  /** Padding one digit with a zero keeps its value. */
  lemma PadKeepsValue(s: string)
    requires AllDigits(s) && 1 <= |s| <= 2
    ensures |PadTwo(s)| == 2 && AllDigits(PadTwo(s)) && DigitsValue(PadTwo(s)) == DigitsValue(s)
  {
    if |s| == 1 {
      var p := PadTwo(s);
      assert p == ['0', s[0]];
      assert p[..1] == ['0'] && s[..0] == [];
    }
  }

  /** A number below 100 is written as two digits that read back as the number. */
  lemma PadDigits(n: int)
    requires 0 <= n < 100
    ensures TwoDigits(Pad(n))
    ensures ParseInt(Pad(n)) == Some(n)
  {
    NatToStringDigits(n);
    ShortNumber(n);
    assert IntToString(n) == NatToString(n);
    PadKeepsValue(NatToString(n));
    ParseIntDigits(Pad(n));
  }

  /** Text without digits, such as `:` or ` am`. */
  predicate NoDigits(s: string) { forall i :: 0 <= i < |s| ==> !IsDigit(s[i]) }

  /** Two digits, as `_getZeroPaddedString` writes a number below 100. */
  predicate TwoDigits(d: string) { |d| == 2 && AllDigits(d) }

  /** Digits and colons only, as in `HH:MM`. */
  predicate ClockChars(s: string) { forall i :: 0 <= i < |s| ==> IsDigit(s[i]) || s[i] == ':' }

  lemma ClockText(d1: string, d2: string)
    requires TwoDigits(d1) && TwoDigits(d2)
    ensures ClockChars(d1 + ":" + d2) && |d1 + ":" + d2| == 5
  {
  }

  /** `HH:MM` followed by text without digits has exactly the two runs `HH` and `MM`. */
  lemma ClockRuns(d1: string, d2: string, suffix: string)
    requires TwoDigits(d1) && TwoDigits(d2) && NoDigits(suffix)
    ensures DigitRuns(d1 + ":" + d2 + suffix) == [d1, d2]
  {
    var rest := d2 + suffix;
    assert d1 + ":" + d2 + suffix == d1 + (":" + rest);
    RunsTake(d1, ":" + rest);
    RunsSkip(":", rest);
    RunsTake(d2, suffix);
    RunsSkip(suffix, []);
    assert suffix + [] == suffix;
  }

  /** `HH:MM` splits at its colon into two pieces that parse as hour and minute. */
  lemma ClockBasic(d1: string, d2: string, h: int, m: int)
    requires TwoDigits(d1) && TwoDigits(d2)
    requires ParseInt(d1) == Some(h) && ParseInt(d2) == Some(m)
    requires 0 <= h <= 24 && 0 <= m <= 60
    ensures ParseBasicMinutes(d1 + ":" + d2) == Some(h * 60 + m)
  {
    assert ':' !in d1 && ':' !in d2;
    hide *;
    SplitTwo(d1, ':', d2);
    assert d1 + ":" + d2 == d1 + [':'] + d2;
    BasicOfParts(d1 + ":" + d2, h, m);
  }

  lemma BasicOfParts(t: string, h: int, m: int)
    requires 0 <= h <= 24 && 0 <= m <= 60
    requires |Split(t, ':')| == 2
    requires ParseInt(Split(t, ':')[0]) == Some(h) && ParseInt(Split(t, ':')[1]) == Some(m)
    ensures ParseBasicMinutes(t) == Some(h * 60 + m)
  {
    hide ParseInt, Split;
    assert BasicMinutes(Some(h), Some(m)) == Some(h * 60 + m);
  }

  lemma {:induction false} IncludesEnd(a: string, t: string)
    ensures Includes(a + t, t)
    decreases |a|
  {
    if a == [] {
      assert (a + t)[..|t|] == t;
    } else {
      assert (a + t)[1..] == a[1..] + t;
      IncludesEnd(a[1..], t);
    }
  }

  lemma {:induction false} NotIncludes(s: string, t: string)
    requires t != [] && t[0] !in s
    ensures !Includes(s, t)
    decreases |s|
  {
    if s != [] {
      assert s[0] != t[0];
      NotIncludes(s[1..], t);
    }
  }

  /** Lower-casing leaves text without capitals alone and lowers the rest letter by letter. */
  lemma LowerKeeps(x: string, upper: string, lower: string)
    requires forall i :: 0 <= i < |x| ==> !('A' <= x[i] <= 'Z')
    requires |upper| == |lower| && forall i :: 0 <= i < |upper| ==> ToLowerChar(upper[i]) == lower[i]
    ensures ToLower(x + upper) == x + lower
  {
    var r := ToLower(x + upper);
    assert forall i :: 0 <= i < |x| ==> r[i] == (x + lower)[i];
    assert forall i :: |x| <= i < |r| ==> r[i] == ToLowerChar(upper[i - |x|]) == (x + lower)[i];
  }

  /** `HH:MM` mentions neither `am` nor `pm`; with ` am` or ` pm` after it, exactly that one. */
  lemma ClockIncludes(x: string, suffix: string)
    requires ClockChars(x)
    requires suffix == "" || suffix == " am" || suffix == " pm"
    ensures Includes(x + suffix, "am") <==> suffix == " am"
    ensures Includes(x + suffix, "pm") <==> suffix == " pm"
  {
    var w := x + suffix;
    if suffix == "" {
      assert w == x;
      NotIncludes(x, "am");
      NotIncludes(x, "pm");
    } else {
      assert w == (x + " ") + suffix[1..];
      IncludesEnd(x + " ", suffix[1..]);
      var other := if suffix == " am" then "pm" else "am";
      assert forall i :: 0 <= i < |w| ==> w[i] != other[0];
      NotIncludes(w, other);
    }
  }

  lemma ReadClock24(h: int, m: int, a: int)
    requires 0 <= h <= 23 && 0 <= m <= 59 && a == h * 60 + m
    ensures ReadClock(false, false, Some(h), Some(m)) == Some(a)
  {
  }

  lemma ReadClock12(h12: int, m: int, pm: bool, a: int)
    requires 1 <= h12 <= 12 && 0 <= m <= 59 && a == (h12 % 12 + (if pm then 12 else 0)) * 60 + m
    ensures ReadClock(true, pm, Some(h12), Some(m)) == Some(a)
  {
  }

  /** `parseInputTime` in terms of the lower-cased text's runs and `am`/`pm` mentions. */
  lemma ParseInputOf(w: string, d1: string, d2: string, h: int, m: int)
    requires ToLower(w) == w && DigitRuns(w) == [d1, d2]
    requires ParseInt(d1) == Some(h) && ParseInt(d2) == Some(m)
    ensures ParseInputTime(w) == ReadClock(Includes(w, "am") || Includes(w, "pm"), Includes(w, "pm"), Some(h), Some(m))
  {
    assert RunValue(DigitRuns(w), 0) == Some(h) && RunValue(DigitRuns(w), 1) == Some(m);
  }

  /** On the 24-hour clock a minute of the day is shown as `HH:MM`. */
  lemma Format24Text(m: int)
    requires 0 <= m < MinutesInDay
    ensures FormatTime(true, Some(m)) == Some(Pad(m / 60) + ":" + Pad(m % 60))
  {
    assert Decimal.TruncRem(m, MinutesInDay) == m;
    assert Decimal.TruncRem(m, 60) == m % 60;
  }

  /** On the 12-hour clock it is shown as `HH:MM AM` or `HH:MM PM`, hours running 12, 1, ..., 11. */
  lemma Format12Text(m: int)
    requires 0 <= m < MinutesInDay
    ensures var h := m / 60;
      FormatTime(false, Some(m)) == Some(Pad(if h % 12 == 0 then 12 else h % 12) + ":" + Pad(m % 60) + (if m >= 720 then " PM" else " AM"))
  {
    hide Pad, Decimal.TruncRem;
    Decimal.TruncRemNatural(m, MinutesInDay);
    Decimal.TruncRemNatural(m, 60);
    Decimal.TruncRemNatural(m / 60, 12);
    var x := Pad(if (m / 60) % 12 == 0 then 12 else (m / 60) % 12) + ":" + Pad(m % 60);
    assert x + " " + "PM" == x + " PM" && x + " " + "AM" == x + " AM";
  }

  /** The clock text, in capitals or not, reads back through the checks of `parseInputTime`. */
  lemma DisplayReads(h: int, m: int, upper: string, lower: string)
    requires 0 <= h < 100 && 0 <= m < 100
    requires (upper == "" && lower == "") || (upper == " AM" && lower == " am") || (upper == " PM" && lower == " pm")
    ensures ParseInputTime(Pad(h) + ":" + Pad(m) + upper) == ReadClock(lower != "", lower == " pm", Some(h), Some(m))
  {
    hide *;
    PadDigits(h);
    PadDigits(m);
    var d1, d2 := Pad(h), Pad(m);
    var x := d1 + ":" + d2;
    ClockText(d1, d2);
    ClockLower(x, upper, lower);
    ClockRuns(d1, d2, lower);
    ClockIncludes(x, lower);
    ParseInputOf(x + lower, d1, d2, h, m);
    LowerSame(x + upper, x + lower);
  }

  /** `HH:MM` with ` AM`/` PM` after it lower-cases to `HH:MM am`/`HH:MM pm`. */
  lemma ClockLower(x: string, upper: string, lower: string)
    requires ClockChars(x)
    requires (upper == "" && lower == "") || (upper == " AM" && lower == " am") || (upper == " PM" && lower == " pm")
    ensures ToLower(x + upper) == x + lower && ToLower(x + lower) == x + lower && NoDigits(lower)
  {
    LowerKeeps(x, upper, lower);
    LowerKeeps(x, lower, lower);
  }

  /** `parseInputTime` reads only the lower-cased text. */
  lemma LowerSame(a: string, b: string)
    requires ToLower(a) == ToLower(b)
    ensures ParseInputTime(a) == ParseInputTime(b)
  {
  }

  /** Every minute of the day shown on either clock is read back as the same minute. */
  lemma FormatThenParse(use24h: bool, m: int)
    requires 0 <= m < MinutesInDay
    ensures FormatTime(use24h, Some(m)).Some?
    ensures ParseInputTime(FormatTime(use24h, Some(m)).value) == Some(m)
  {
    if use24h {
      Clock24Round(m);
    } else {
      Clock12Round(m);
    }
  }

  lemma Clock24Round(m: int)
    requires 0 <= m < MinutesInDay
    ensures ParseInputTime(FormatTime(true, Some(m)).value) == Some(m)
  {
    DivBounds(m);
    assert m / 60 <= 23;
    hide *;
    Format24Text(m);
    Display24(m);
    ReadClock24(m / 60, m % 60, m);
  }

  lemma Display24(m: int)
    requires 0 <= m < MinutesInDay
    ensures ParseInputTime(Pad(m / 60) + ":" + Pad(m % 60)) == ReadClock(false, false, Some(m / 60), Some(m % 60))
  {
    DivBounds(m);
    hide *;
    var x := Pad(m / 60) + ":" + Pad(m % 60);
    assert x + "" == x;
    DisplayReads(m / 60, m % 60, "", "");
  }

  lemma Clock12Round(m: int)
    requires 0 <= m < MinutesInDay
    ensures ParseInputTime(FormatTime(false, Some(m)).value) == Some(m)
  {
    var h := if (m / 60) % 12 == 0 then 12 else (m / 60) % 12;
    TwelveHour(m);
    hide *;
    Format12Text(m);
    if m >= 720 {
      DisplayReads(h, m % 60, " PM", " pm");
    } else {
      DisplayReads(h, m % 60, " AM", " am");
    }
    ReadClock12(h, m % 60, m >= 720, m);
  }

  /** The hour on the 12-hour clock and the half of the day give back the minute of the day. */
  lemma TwelveHour(m: int)
    requires 0 <= m < MinutesInDay
    ensures var h := if (m / 60) % 12 == 0 then 12 else (m / 60) % 12;
      1 <= h <= 12 && 0 <= m % 60 <= 59 && (h % 12 + (if m >= 720 then 12 else 0)) * 60 + m % 60 == m
  {
  }

  /** `HH:MM` for an hour up to 24 and a minute below 60: two digits each, read back by `parseBasicMinutes`. */
  lemma ClockReads(h: int, m: int)
    requires 0 <= h <= 24 && 0 <= m < 60
    ensures TwoDigits(Pad(h)) && TwoDigits(Pad(m)) && ClockChars(Pad(h) + ":" + Pad(m))
    ensures ParseBasicMinutes(Pad(h) + ":" + Pad(m)) == Some(h * 60 + m)
  {
    PadDigits(h);
    PadDigits(m);
    ClockText(Pad(h), Pad(m));
    ClockBasic(Pad(h), Pad(m), h, m);
  }

  /** The offset suffix has the `+HH:MM`/`-HH:MM` shape of an RFC 3339 offset, and reads back as the offset's size. */
  lemma OffsetShape(offset: int)
    requires -MinutesInDay < offset < MinutesInDay
    ensures var s := FormatTimezoneOffset(offset);
      |s| == 6 && (s[0] == '-' <==> offset > 0) && (s[0] == '+' <==> offset <= 0)
      && TwoDigits(s[1..3]) && s[3] == ':' && TwoDigits(s[4..]) && ClockChars(s[1..])
  {
    var a := Decimal.Abs(offset);
    var h, mm := a / 60, a % 60;
    OffsetParts(offset);
    PadDigits(h);
    PadDigits(mm);
    ClockText(Pad(h), Pad(mm));
    OffsetText(if offset > 0 then "-" else "+", Pad(h), Pad(mm));
  }

  /** The hours and minutes after the sign read back as the offset's size. */
  lemma OffsetReads(offset: int)
    requires -MinutesInDay < offset < MinutesInDay
    ensures ParseBasicMinutes(FormatTimezoneOffset(offset)[1..]) == Some(Decimal.Abs(offset))
  {
    var a := Decimal.Abs(offset);
    OffsetParts(offset);
    DivBounds(a);
    hide *;
    ClockValue(a, a / 60, a % 60);
    AfterSign(if offset > 0 then "-" else "+", Pad(a / 60) + ":" + Pad(a % 60), a);
  }

  /** A minute of the day splits into an hour up to 24 and a minute below 60. */
  lemma DivBounds(a: int)
    requires 0 <= a < MinutesInDay
    ensures 0 <= a / 60 <= 24 && 0 <= a % 60 < 60 && a == (a / 60) * 60 + a % 60
  {
  }

  /** `HH:MM` reads back as the minute of the day it was written for. */
  lemma ClockValue(a: int, h: int, m: int)
    requires 0 <= h <= 24 && 0 <= m < 60 && a == h * 60 + m
    ensures ParseBasicMinutes(Pad(h) + ":" + Pad(m)) == Some(a)
  {
    hide *;
    ClockReads(h, m);
  }

  /** What follows a one-character sign is read on its own. */
  lemma AfterSign(sign: string, t: string, a: int)
    requires |sign| == 1 && ParseBasicMinutes(t) == Some(a)
    ensures ParseBasicMinutes((sign + t)[1..]) == Some(a)
  {
    assert (sign + t)[1..] == t;
  }

  /** The sign, hours and minutes `formatTimezoneOffset` writes. */
  lemma OffsetParts(offset: int)
    ensures var a := Decimal.Abs(offset);
      FormatTimezoneOffset(offset) == (if offset > 0 then "-" else "+") + (Pad(a / 60) + ":" + Pad(a % 60))
  {
    var a := Decimal.Abs(offset);
    assert Decimal.Abs(Decimal.TruncRem(offset, 60)) == a % 60;
  }

  lemma OffsetText(sign: string, d1: string, d2: string)
    requires |sign| == 1 && TwoDigits(d1) && TwoDigits(d2)
    ensures var s := sign + (d1 + ":" + d2);
      |s| == 6 && s[0] == sign[0] && s[1..] == d1 + ":" + d2 && s[1..3] == d1 && s[3] == ':' && s[4..] == d2
  {
  }

  /** `HH:MMZ` loses its `Z` and reads as the UTC minute. */
  lemma UtcText(base: string, n: int, localOffset: int)
    requires ClockChars(base) && ParseBasicMinutes(base) == Some(n)
    ensures ParseIsoTime(base + "Z", localOffset) == Some(ToLocal(n, 0, false, localOffset))
  {
    hide ParseBasicMinutes, ParseInt;
    var s := base + "Z";
    assert 'Z' !in base;
    IndexOfPrefix(base, "Z", 'Z');
    assert s[..|base|] == base && s[|base| + 1..] == [];
    assert 'Z' in s && RemoveFirst(s, 'Z') == base;
    IsoUtcBranch(s, base, n, localOffset);
  }

  /** `HH:MM` with an offset suffix splits at the sign into the time and the offset. */
  lemma SuffixSplit(base: string, suffix: string)
    requires ClockChars(base) && |suffix| == 6 && (suffix[0] == '-' || suffix[0] == '+')
    requires ClockChars(suffix[1..])
    ensures var s := base + suffix;
      'Z' !in s && suffix[0] in s && (suffix[0] == '-' ==> '+' !in s)
      && Split(s, suffix[0]) == [base, suffix[1..]]
  {
    var rest := suffix[1..];
    var sep := suffix[0];
    var s := base + suffix;
    assert s == base + [sep] + rest;
    assert sep !in base && sep !in rest;
    assert 'Z' !in base && 'Z' !in rest && '+' !in rest;
    assert '+' !in base;
    hide *;
    SplitTwo(base, sep, rest);
  }

  /** A string with one separator between two parts free of it splits into those parts. */
  lemma SplitTwo(a: string, sep: char, b: string)
    requires sep !in a && sep !in b
    ensures Split(a + [sep] + b, sep) == [a, b]
  {
    assert Join([a, b], sep) == a + [sep] + b;
    SplitJoin([a, b], sep);
  }

  /** The local text and its offset read back as the local minute. */
  lemma OffsetSuffixText(base: string, m: int, offset: int)
    requires 0 <= m < MinutesInDay && -MinutesInDay < offset < MinutesInDay
    requires ClockChars(base) && ParseBasicMinutes(base) == Some(m)
    ensures ParseIsoTime(base + FormatTimezoneOffset(offset), offset) == Some(m)
  {
    hide *;
    var suffix := FormatTimezoneOffset(offset);
    var s := base + suffix;
    Decimal.AbsCases(offset);
    OffsetShape(offset);
    OffsetReads(offset);
    SuffixSplit(base, suffix);
    if offset > 0 {
      IsoMinusBranch(s, base, suffix[1..], m, offset, offset);
      ToLocalSame(m, offset, false, offset);
    } else {
      IsoPlusBranch(s, base, suffix[1..], m, 0 - offset, offset);
      ToLocalSame(m, 0 - offset, true, offset);
    }
  }

  /** `utc_normalized` text: the minute moved to UTC, then `Z`. */
  lemma NormalizedText(m: int, offset: int)
    requires 0 <= m < MinutesInDay && -MinutesInDay < offset < MinutesInDay
    ensures var n := (m + offset + MinutesInDay) % MinutesInDay;
      SerializeTime(m, offset, UtcNormalized) == Pad(n / 60) + ":" + Pad(n % 60) + "Z"
  {
    var n := (m + offset + MinutesInDay) % MinutesInDay;
    assert Decimal.TruncRem(m + offset + MinutesInDay, MinutesInDay) == n;
    assert Decimal.TruncRem(n, 60) == n % 60;
  }

  /** The other formats: the local `HH:MM`, with the offset suffix for `utc_offset`. */
  lemma LocalText(m: int, offset: int, format: SerializingFormat)
    requires 0 <= m < MinutesInDay && format != UtcNormalized
    ensures SerializeTime(m, offset, format)
      == Pad(m / 60) + ":" + Pad(m % 60) + (if format == UtcOffset then FormatTimezoneOffset(offset) else "")
  {
    assert Decimal.TruncRem(m, 60) == m % 60;
  }

  /**
   * Stored text is read back as the same minute of the day by a viewer in
   * the time zone it was written in, whichever format it was written in.
   */
  lemma SerializeThenParse(m: int, offset: int, format: SerializingFormat)
    requires 0 <= m < MinutesInDay && -MinutesInDay < offset < MinutesInDay
    ensures ParseIsoTime(SerializeTime(m, offset, format), offset) == Some(m)
  {
    match format
    case UtcNormalized => NormalizedRound(m, offset);
    case NoTimezone => LocalRound(m, offset);
    case UtcOffset => OffsetRound(m, offset);
  }

  lemma NormalizedRound(m: int, offset: int)
    requires 0 <= m < MinutesInDay && -MinutesInDay < offset < MinutesInDay
    ensures ParseIsoTime(SerializeTime(m, offset, UtcNormalized), offset) == Some(m)
  {
    var n := (m + offset + MinutesInDay) % MinutesInDay;
    DivBounds(n);
    UtcBack(m, offset, n);
    hide *;
    NormalizedText(m, offset);
    ClockReads(n / 60, n % 60);
    ClockValue(n, n / 60, n % 60);
    UtcText(Pad(n / 60) + ":" + Pad(n % 60), n, offset);
  }

  lemma LocalRound(m: int, offset: int)
    requires 0 <= m < MinutesInDay && -MinutesInDay < offset < MinutesInDay
    ensures ParseIsoTime(SerializeTime(m, offset, NoTimezone), offset) == Some(m)
  {
    DivBounds(m);
    hide *;
    var base := Pad(m / 60) + ":" + Pad(m % 60);
    LocalText(m, offset, NoTimezone);
    assert base + "" == base;
    ClockReads(m / 60, m % 60);
    ClockValue(m, m / 60, m % 60);
    ClockPlain(base);
    IsoLocalBranch(base, offset);
  }

  lemma OffsetRound(m: int, offset: int)
    requires 0 <= m < MinutesInDay && -MinutesInDay < offset < MinutesInDay
    ensures ParseIsoTime(SerializeTime(m, offset, UtcOffset), offset) == Some(m)
  {
    DivBounds(m);
    hide *;
    var base := Pad(m / 60) + ":" + Pad(m % 60);
    LocalText(m, offset, UtcOffset);
    ClockReads(m / 60, m % 60);
    ClockValue(m, m / 60, m % 60);
    OffsetSuffixText(base, m, offset);
  }

  /** `HH:MM` has none of the characters that mark a zone. */
  lemma ClockPlain(base: string)
    requires ClockChars(base) && |base| == 5
    ensures base != "" && 'Z' !in base && '+' !in base && '-' !in base
  {
    assert forall i :: 0 <= i < |base| ==> base[i] != 'Z' && base[i] != '+' && base[i] != '-';
  }

  /** A minute moved to UTC and written with `Z` comes back to the minute it was. */
  lemma UtcBack(m: int, offset: int, n: int)
    requires 0 <= m < MinutesInDay && -MinutesInDay < offset < MinutesInDay
    requires n == (m + offset + MinutesInDay) % MinutesInDay
    ensures ToLocal(n, 0, false, offset) == m
  {
    ToLocalWraps(n, 0, false, offset);
    DayShift(m, offset, n);
  }

  /** Shifting into UTC and back out again lands on the same minute of the day. */
  lemma DayShift(m: int, offset: int, n: int)
    requires 0 <= m < MinutesInDay && -MinutesInDay < offset < MinutesInDay
    requires n == (m + offset + MinutesInDay) % MinutesInDay
    ensures (n - offset + MinutesInDay) % MinutesInDay == m
  {
    var q := (m + offset + MinutesInDay) / MinutesInDay;
    assert n == m + offset + MinutesInDay - MinutesInDay * q;
    assert n - offset + MinutesInDay == m + MinutesInDay * (2 - q);
  }
}
