/** The time-window parser of plugin_block_name.go: "HH:MM" clock strings
    to seconds since midnight, lists of (after, before) pairs to time
    ranges, and a weekday-keyed table of such lists to a seven-slot weekly
    table. */
module Clock {
  import opened Wrappers
  import opened Text

  datatype TimeRangeStr = TimeRangeStr(after: string, before: string)

  /** An interval of seconds since local midnight. */
  datatype TimeRange = TimeRange(start: int, end: int)

  /** One list of time ranges per weekday, Sunday first. */
  datatype WeeklyRanges = WeeklyRanges(ranges: seq<seq<TimeRange>>)

  const MinInt64: int := -0x8000_0000_0000_0000
  const MaxInt64: int := 0x7FFF_FFFF_FFFF_FFFF

  predicate IsDigit(c: char) { '0' <= c <= '9' }

  predicate AllDigits(s: string)
  {
    forall k :: 0 <= k < |s| ==> IsDigit(s[k])
  }

  /** The number a string of decimal digits denotes, most significant first. */
  function DigitsValue(s: string): nat
    requires AllDigits(s)
  {
    if s == [] then 0 else DigitsValue(s[..|s| - 1]) * 10 + (s[|s| - 1] as int - '0' as int)
  }

  /** `strconv.Atoi` on a 64-bit platform: an optional `+` or `-`, then at
      least one decimal digit, and a value that fits in an int64. */
  function Atoi(s: string): (r: Option<int>)
    ensures r.Some? ==> MinInt64 <= r.value <= MaxInt64
    ensures r.Some? ==> s != [] && (IsDigit(s[0]) || s[0] == '+' || s[0] == '-')
  {
    var signed := |s| > 0 && (s[0] == '+' || s[0] == '-');
    var digits := if signed then s[1..] else s;
    if digits == [] || !AllDigits(digits) then None
    else
      var v: int := if signed && s[0] == '-' then -(DigitsValue(digits) as int) else DigitsValue(digits);
      if v < MinInt64 || v > MaxInt64 then None else Some(v)
  }

  function DigitChar(d: nat): (c: char)
    requires d < 10
    ensures IsDigit(c)
  {
    ('0' as int + d) as char
  }

  /** The decimal rendering of `n`, without leading zeros. */
  function Decimal(n: nat): (s: string)
    ensures s != [] && AllDigits(s)
  {
    if n < 10 then [DigitChar(n)] else Decimal(n / 10) + [DigitChar(n % 10)]
  }

  lemma {:induction false} DigitsValueDecimal(n: nat)
    ensures DigitsValue(Decimal(n)) == n
  {
    if n >= 10 {
      DigitsValueDecimal(n / 10);
      assert Decimal(n)[..|Decimal(n)| - 1] == Decimal(n / 10);
    }
  }

  /** Atoi reads back what Decimal writes, with or without a sign. */
  lemma AtoiDecimal(n: nat)
    requires n <= MaxInt64
    ensures Atoi(Decimal(n)) == Some(n)
    ensures Atoi("+" + Decimal(n)) == Some(n)
    ensures Atoi("-" + Decimal(n)) == Some(-(n as int))
  {
    DigitsValueDecimal(n);
    assert ("+" + Decimal(n))[1..] == Decimal(n);
    assert ("-" + Decimal(n))[1..] == Decimal(n);
  }

  /** `n` zero digits. */
  function Zeros(n: nat): (s: string)
    ensures |s| == n && AllDigits(s)
    ensures forall k :: 0 <= k < n ==> s[k] == '0'
  {
    seq(n, k requires 0 <= k < n => '0')
  }

  /** The magnitude of an integer. */
  function Abs(v: int): nat
  {
    if v < 0 then -v else v
  }

  /** Leading zeros do not change the value of a digit string. */
  lemma {:induction false} DigitsValueZeros(z: nat, d: string)
    requires AllDigits(d)
    ensures AllDigits(Zeros(z) + d) && DigitsValue(Zeros(z) + d) == DigitsValue(d)
    decreases z + |d|
  {
    var s := Zeros(z) + d;
    if d == [] {
      assert s == Zeros(z);
      if z > 0 {
        assert s[..|s| - 1] == Zeros(z - 1) + [];
        DigitsValueZeros(z - 1, []);
      }
    } else {
      assert s[..|s| - 1] == Zeros(z) + d[..|d| - 1];
      DigitsValueZeros(z, d[..|d| - 1]);
    }
  }

  /** Every digit string is some leading zeros and then the decimal
      rendering of its value. */
  lemma DigitsCanonical(d: string)
    requires d != [] && AllDigits(d)
    ensures exists z: nat :: d == Zeros(z) + Decimal(DigitsValue(d))
  {
    var z := CanonicalZeros(d);
  }

  /** The number of leading zeros in front of the decimal rendering. */
  lemma {:induction false} CanonicalZeros(d: string) returns (z: nat)
    requires d != [] && AllDigits(d)
    ensures d == Zeros(z) + Decimal(DigitsValue(d))
  {
    var init, c := d[..|d| - 1], d[|d| - 1];
    assert d == init + [c];
    if init == [] {
      SingleDigit(c);
      z := 0;
    } else {
      var z0 := CanonicalZeros(init);
      z := AppendDigit(z0, init, c);
    }
  }

  /** A single digit is the decimal rendering of its value. */
  lemma SingleDigit(c: char)
    requires IsDigit(c)
    ensures [c] == Zeros(0) + Decimal(DigitsValue([c]))
  {
    LastDigit([], c);
    assert [] + [c] == [c];
    assert DigitChar(c as int - '0' as int) == c;
  }

  /** The value of a digit string with one more digit at the end. */
  lemma LastDigit(init: string, c: char)
    requires AllDigits(init) && IsDigit(c)
    ensures AllDigits(init + [c])
    ensures DigitsValue(init + [c]) == DigitsValue(init) * 10 + (c as int - '0' as int)
  {
    var d := init + [c];
    assert d[..|d| - 1] == init;
  }

  /** The canonical form survives one more digit at the end. */
  lemma AppendDigit(z: nat, init: string, c: char) returns (z': nat)
    requires AllDigits(init) && IsDigit(c) && init == Zeros(z) + Decimal(DigitsValue(init))
    ensures init + [c] == Zeros(z') + Decimal(DigitsValue(init + [c]))
  {
    LastDigit(init, c);
    if DigitsValue(init) == 0 {
      AppendToZeros(z, init, c);
      z' := z + 1;
    } else {
      AppendToDecimal(z, init, c);
      z' := z;
    }
  }

  /** A digit after zeros only: the zeros grow by one and the digit is the
      value. */
  lemma AppendToZeros(z: nat, init: string, c: char)
    requires AllDigits(init) && IsDigit(c) && init == Zeros(z) + Decimal(DigitsValue(init))
    requires DigitsValue(init) == 0
    requires DigitsValue(init + [c]) == c as int - '0' as int
    ensures init + [c] == Zeros(z + 1) + Decimal(DigitsValue(init + [c]))
  {
    assert DigitChar(c as int - '0' as int) == c;
    assert Decimal(0) == ['0'];
    assert init == Zeros(z + 1);
  }

  /** A digit after a nonzero value: the digit joins the decimal spelling. */
  lemma AppendToDecimal(z: nat, init: string, c: char)
    requires AllDigits(init) && IsDigit(c) && init == Zeros(z) + Decimal(DigitsValue(init))
    requires DigitsValue(init) > 0
    requires DigitsValue(init + [c]) == DigitsValue(init) * 10 + (c as int - '0' as int)
    ensures init + [c] == Zeros(z) + Decimal(DigitsValue(init + [c]))
  {
    var w, cv := DigitsValue(init), c as int - '0' as int;
    var v := DigitsValue(init + [c]);
    assert DigitChar(cv) == c;
    assert v / 10 == w && v % 10 == cv;
    var zeros, dw := Zeros(z), Decimal(w);
    assert Decimal(v) == dw + [c];
    assert (zeros + dw) + [c] == zeros + (dw + [c]);
  }

  /** A string Atoi accepts splits into its sign and its digits. */
  lemma AtoiSplit(s: string) returns (sign: string, digits: string)
    requires Atoi(s).Some?
    ensures sign in {"", "+", "-"} && s == sign + digits
    ensures digits != [] && AllDigits(digits) && DigitsValue(digits) == Abs(Atoi(s).value)
    ensures if sign == "-" then Atoi(s).value <= 0 else Atoi(s).value >= 0
  {
    var signed := s[0] == '+' || s[0] == '-';
    sign := if signed then [s[0]] else "";
    digits := if signed then s[1..] else s;
    if signed {
      assert s == [s[0]] + s[1..];
    }
  }

  /** The converse of AtoiDecimal: a string Atoi accepts is an optional
      sign, leading zeros and the decimal rendering of the value's
      magnitude, and only a '-' gives a negative value. */
  lemma AtoiSpelling(s: string)
    requires Atoi(s).Some?
    ensures var v := Atoi(s).value;
      exists sign: string, z: nat :: sign in {"", "+", "-"} && s == sign + (Zeros(z) + Decimal(Abs(v))) &&
        (if sign == "-" then v <= 0 else v >= 0)
  {
    var sign, digits := AtoiSplit(s);
    DigitsCanonical(digits);
    var z: nat :| digits == Zeros(z) + Decimal(DigitsValue(digits));
  }

  /** Atoi reads a sign, leading zeros and a decimal rendering as that
      number, negated after a '-', whenever that number fits in an int64
      (a magnitude up to 2^63 after a '-', up to 2^63 - 1 otherwise); with
      AtoiSpelling these are exactly the strings Atoi accepts. */
  lemma AtoiLeadingZeros(sign: string, z: nat, n: nat)
    requires sign in {"", "+", "-"}
    requires if sign == "-" then n <= -MinInt64 else n <= MaxInt64
    ensures Atoi(sign + (Zeros(z) + Decimal(n))) == Some(if sign == "-" then -(n as int) else n)
  {
    var digits := Zeros(z) + Decimal(n);
    SpellingDigits(z, n);
    if sign == "" {
      assert sign + digits == digits;
      AtoiUnsigned(digits);
    } else {
      assert sign == [sign[0]];
      AtoiSigned(sign[0], digits);
    }
  }

  /** Leading zeros and a decimal rendering are a digit string of that value. */
  lemma SpellingDigits(z: nat, n: nat)
    ensures var digits := Zeros(z) + Decimal(n);
      digits != [] && AllDigits(digits) && DigitsValue(digits) == n
  {
    DigitsValueZeros(z, Decimal(n));
    DigitsValueDecimal(n);
  }

  lemma AtoiUnsigned(digits: string)
    requires digits != [] && AllDigits(digits) && DigitsValue(digits) <= MaxInt64
    ensures Atoi(digits) == Some(DigitsValue(digits))
  {
    assert IsDigit(digits[0]);
  }

  lemma AtoiSigned(c: char, digits: string)
    requires c == '+' || c == '-'
    requires digits != [] && AllDigits(digits)
    requires DigitsValue(digits) <= if c == '-' then -MinInt64 else MaxInt64
    ensures Atoi([c] + digits) == Some(if c == '-' then -(DigitsValue(digits) as int) else DigitsValue(digits))
  {
    assert ([c] + digits)[1..] == digits;
  }

  /** Two digits, with a leading zero below ten: the "HH" and "MM" of a clock. */
  function Pad2(n: nat): (s: string)
    requires n < 100
    ensures |s| == 2 && AllDigits(s)
  {
    [DigitChar(n / 10), DigitChar(n % 10)]
  }

  lemma AtoiPad2(n: nat)
    requires n < 100
    ensures Atoi(Pad2(n)) == Some(n)
  {
    var s := Pad2(n);
    assert s[..1] == [DigitChar(n / 10)];
    assert DigitsValue(s[..1]) == n / 10 by {
      assert s[..1][..0] == [];
    }
  }

  /** The canonical "HH:MM" form of an hour and a minute. */
  function FormatClock(hours: nat, minutes: nat): string
    requires hours < 100 && minutes < 100
  {
    Pad2(hours) + ":" + Pad2(minutes)
  }

  function ClockError(str: string): string
  {
    "Syntax error in a time expression: [" + str + "]"
  }

  /** `str` has a colon at `i` and nowhere else. */
  predicate OnlyColonAt(str: string, i: int)
  {
    0 <= i < |str| && str[i] == ':' && forall j :: 0 <= j < |str| && j != i ==> str[j] != ':'
  }

  /** `field` is an integer as Atoi reads it, between 0 and `max`. */
  predicate FieldUpTo(field: string, max: int)
  {
    Atoi(field).Some? && 0 <= Atoi(field).value <= max
  }

  /** `daySecsFromStr`: the number of seconds from midnight to the clock
      time `str`, or -1 and an error. A result is a whole number of minutes
      within the day; DaySecsAccepts says which strings succeed. */
  function DaySecsFromStr(str: string): (r: (int, Option<string>))
    ensures r.1.Some? ==> r == (-1, Some(ClockError(str)))
    ensures r.1.None? ==> 0 <= r.0 <= 86340 && r.0 % 60 == 0
  {
    var parts := Split(str, ':');
    if |parts| != 2 then (-1, Some(ClockError(str)))
    else
      var hours := Atoi(parts[0]);
      if hours.None? || hours.value < 0 || hours.value > 23 then (-1, Some(ClockError(str)))
      else
        var minutes := Atoi(parts[1]);
        if minutes.None? || minutes.value < 0 || minutes.value > 59 then (-1, Some(ClockError(str)))
        else
          var secs := (hours.value * 60 + minutes.value) * 60;
          assert 0 <= hours.value * 60 + minutes.value <= 1439;
          assert secs % 60 == 0;
          (secs, None)
  }

  /** A clock string is accepted exactly when it has one colon, an hour
      0..23 before it and a minute 0..59 after it, and its value is then
      the number of seconds to that hour and minute. */
  lemma DaySecsAccepts(str: string)
    ensures DaySecsFromStr(str).1.None? <==>
      exists i :: OnlyColonAt(str, i) && FieldUpTo(str[..i], 23) && FieldUpTo(str[i + 1..], 59)
    ensures forall i :: OnlyColonAt(str, i) && FieldUpTo(str[..i], 23) && FieldUpTo(str[i + 1..], 59) ==>
      DaySecsFromStr(str).0 == (Atoi(str[..i]).value * 60 + Atoi(str[i + 1..]).value) * 60
  {
    ColonFields(str);
  }

  /** Splitting on ':' gives two fields exactly when there is one colon,
      and the fields are then the text on either side of it. */
  lemma ColonFields(str: string)
    ensures |Split(str, ':')| == 2 <==> exists i :: OnlyColonAt(str, i)
    ensures forall i :: OnlyColonAt(str, i) ==> Split(str, ':') == [str[..i], str[i + 1..]]
  {
    var parts := Split(str, ':');
    forall i | OnlyColonAt(str, i)
      ensures Split(str, ':') == [str[..i], str[i + 1..]]
    {
      assert ':' !in str[..i] && ':' !in str[i + 1..];
      assert str == str[..i] + [':'] + str[i + 1..];
      SplitTwo(str[..i], str[i + 1..], ':');
    }
    if |parts| == 2 {
      assert Join(parts, ':') == parts[0] + [':'] + Join(parts[1..], ':');
      assert parts[1..] == [parts[1]];
      assert str == parts[0] + [':'] + parts[1];
      var i := |parts[0]|;
      forall j | 0 <= j < |str| && j != i ensures str[j] != ':' {
        if j < i {
          assert str[j] == parts[0][j];
        } else {
          assert str[j] == parts[1][j - i - 1];
        }
      }
      assert OnlyColonAt(str, i);
    }
  }

  /** Every well-formed clock time is read back from its "HH:MM" form. */
  lemma DaySecsFormatClock(hours: nat, minutes: nat)
    requires hours < 24 && minutes < 60
    ensures DaySecsFromStr(FormatClock(hours, minutes)) == ((hours * 60 + minutes) * 60, None)
  {
    SplitTwo(Pad2(hours), Pad2(minutes), ':');
    AtoiPad2(hours);
    AtoiPad2(minutes);
  }

  /** An hour of 24 or more, or a minute of 60 or more, is refused. */
  lemma DaySecsOutOfRange(hours: nat, minutes: nat)
    requires hours < 100 && minutes < 100
    requires hours >= 24 || minutes >= 60
    ensures DaySecsFromStr(FormatClock(hours, minutes)).1 == Some(ClockError(FormatClock(hours, minutes)))
  {
    SplitTwo(Pad2(hours), Pad2(minutes), ':');
    AtoiPad2(hours);
    AtoiPad2(minutes);
  }

  /** Whatever form an accepted clock string takes (a sign, leading zeros,
      one digit), its value is that of a canonical "HH:MM" string. */
  lemma DaySecsCanonical(str: string)
    requires DaySecsFromStr(str).1.None?
    ensures var secs := DaySecsFromStr(str).0;
      DaySecsFromStr(FormatClock(secs / 3600, secs / 60 % 60)) == (secs, None)
  {
    var secs := DaySecsFromStr(str).0;
    var hours, minutes := secs / 3600, secs / 60 % 60;
    SplitMinutes(secs);
    DaySecsFormatClock(hours, minutes);
    assert (hours * 60 + minutes) * 60 == secs;
  }

  /** A whole number of minutes within the day splits into an hour below 24
      and a minute below 60. */
  lemma SplitMinutes(secs: int)
    requires 0 <= secs <= 86340 && secs % 60 == 0
    ensures secs / 3600 < 24 && secs / 60 % 60 < 60
    ensures (secs / 3600 * 60 + secs / 60 % 60) * 60 == secs
  {
    var t := secs / 60;
    assert secs == t * 60;
    assert t <= 1439;
    assert secs / 3600 == t / 60;
    assert t == t / 60 * 60 + t % 60;
  }

  /** The error, if any, of one (after, before) pair: `after` is parsed first. */
  function PairError(p: TimeRangeStr): (r: Option<string>)
    ensures r.Some? ==> r == Some(ClockError(if DaySecsFromStr(p.after).1.Some? then p.after else p.before))
  {
    if DaySecsFromStr(p.after).1.Some? then DaySecsFromStr(p.after).1 else DaySecsFromStr(p.before).1
  }

  /** A pair has no error exactly when both of its bounds parse. */
  lemma PairErrorNone(p: TimeRangeStr)
    ensures PairError(p).None? <==> DaySecsFromStr(p.after).1.None? && DaySecsFromStr(p.before).1.None?
  {
  }

  /** The first error `parseTimeRanges` meets, scanning the pairs in order. */
  function FirstRangeError(pairs: seq<TimeRangeStr>): Option<string>
  {
    if pairs == [] then None
    else if PairError(pairs[0]).Some? then PairError(pairs[0])
    else FirstRangeError(pairs[1..])
  }

  /** There is no error exactly when every pair parses; otherwise the error
      is that of the first pair that fails. */
  lemma FirstRangeErrorSpec(pairs: seq<TimeRangeStr>)
    ensures FirstRangeError(pairs).None? <==> forall k :: 0 <= k < |pairs| ==> PairError(pairs[k]).None?
    ensures FirstRangeError(pairs).Some? ==>
      exists k :: 0 <= k < |pairs| && FirstRangeError(pairs) == PairError(pairs[k]) &&
        forall j :: 0 <= j < k ==> PairError(pairs[j]).None?
  {
    FirstRangeErrorNone(pairs);
    FirstRangeErrorFirst(pairs);
  }

  lemma {:induction false} FirstRangeErrorNone(pairs: seq<TimeRangeStr>)
    ensures FirstRangeError(pairs).None? <==> forall k :: 0 <= k < |pairs| ==> PairError(pairs[k]).None?
  {
    if pairs != [] {
      FirstRangeErrorNone(pairs[1..]);
      assert forall k :: 1 <= k < |pairs| ==> pairs[k] == pairs[1..][k - 1];
    }
  }

  lemma {:induction false} FirstRangeErrorFirst(pairs: seq<TimeRangeStr>)
    ensures FirstRangeError(pairs).Some? ==>
      exists k :: 0 <= k < |pairs| && FirstRangeError(pairs) == PairError(pairs[k]) &&
        forall j :: 0 <= j < k ==> PairError(pairs[j]).None?
  {
    if pairs != [] && PairError(pairs[0]).None? && FirstRangeError(pairs).Some? {
      var rest := pairs[1..];
      FirstRangeErrorFirst(rest);
      var k :| 0 <= k < |rest| && FirstRangeError(rest) == PairError(rest[k]) &&
        forall j :: 0 <= j < k ==> PairError(rest[j]).None?;
      assert pairs[k + 1] == rest[k];
      forall j | 0 <= j < k + 1 ensures PairError(pairs[j]).None? {
        if j > 0 {
          assert pairs[j] == rest[j - 1];
        }
      }
    }
  }

  /** `parseTimeRanges`. The loop parses each bound and rewrites an equal
      pair to the whole day, but never appends to the list it returns:
      the result is empty whether or not a pair fails. */
  method ParseTimeRanges(pairs: seq<TimeRangeStr>) returns (ranges: seq<TimeRange>, err: Option<string>)
    ensures ranges == []
    ensures err == FirstRangeError(pairs)
  {
    ranges := [];
    var k := 0;
    while k < |pairs|
      invariant 0 <= k <= |pairs|
      invariant FirstRangeError(pairs) == FirstRangeError(pairs[k..])
    {
      var (after, afterErr) := DaySecsFromStr(pairs[k].after);
      if afterErr.Some? {
        return ranges, afterErr;
      }
      var (before, beforeErr) := DaySecsFromStr(pairs[k].before);
      if beforeErr.Some? {
        return ranges, beforeErr;
      }
      if after == before {
        after, before := -1, 86402;
      }
      assert pairs[k..][1..] == pairs[k + 1..];
      k := k + 1;
    }
    return ranges, None;
  }

  /** The weekday keys, in the order of the weekly table's slots. */
  const Days: seq<string> := ["sun", "mon", "tue", "wed", "thu", "fri", "sat"]

  /** Weekday `d` is absent from the table or all its pairs parse. */
  predicate DayParses(table: map<string, seq<TimeRangeStr>>, d: nat)
    requires d < 7
  {
    Days[d] !in table || FirstRangeError(table[Days[d]]).None?
  }

  /** The first error `parseWeeklyRanges` meets from weekday `day` on:
      absent weekdays are skipped, present ones parsed in order. */
  function FirstDayError(table: map<string, seq<TimeRangeStr>>, day: nat): Option<string>
    requires day <= 7
    decreases 7 - day
  {
    if day == 7 then None
    else if !DayParses(table, day) then FirstRangeError(table[Days[day]])
    else FirstDayError(table, day + 1)
  }

  /** There is no error exactly when every pair of every present weekday
      parses; an error is the first error of the first weekday that fails. */
  lemma {:induction false} FirstDayErrorSpec(table: map<string, seq<TimeRangeStr>>, day: nat)
    requires day <= 7
    ensures FirstDayError(table, day).None? <==> forall d :: day <= d < 7 ==> DayParses(table, d)
    ensures FirstDayError(table, day).Some? ==>
      exists d :: day <= d < 7 && !DayParses(table, d) && FirstDayError(table, day) == FirstRangeError(table[Days[d]]) &&
        forall e :: day <= e < d ==> DayParses(table, e)
    decreases 7 - day
  {
    if day < 7 {
      FirstDayErrorSpec(table, day + 1);
      if !DayParses(table, day) {
        assert FirstDayError(table, day) == FirstRangeError(table[Days[day]]);
      } else if FirstDayError(table, day + 1).Some? {
        var d :| day + 1 <= d < 7 && !DayParses(table, d) &&
          FirstDayError(table, day + 1) == FirstRangeError(table[Days[d]]) &&
          forall e :: day + 1 <= e < d ==> DayParses(table, e);
        assert forall e :: day <= e < d ==> DayParses(table, e);
      }
    }
  }

  /** One weekday of the scan: an absent or parsing weekday passes the
      search on to the next, a failing one ends it with its error. */
  lemma FirstDayErrorNext(table: map<string, seq<TimeRangeStr>>, day: nat)
    requires day < 7
    ensures Days[day] in table && FirstRangeError(table[Days[day]]).Some? ==>
      FirstDayError(table, day) == FirstRangeError(table[Days[day]])
    ensures (Days[day] !in table || FirstRangeError(table[Days[day]]).None?) ==>
      FirstDayError(table, day) == FirstDayError(table, day + 1)
  {
  }

  /** `parseWeeklyRanges`: visits `sun` to `sat`, leaves absent weekdays
      empty, stores each present weekday's ranges, and stops at the first
      weekday whose ranges fail to parse. Because ParseTimeRanges always
      returns an empty list, every slot of the table is empty. */
  method ParseWeeklyRanges(table: map<string, seq<TimeRangeStr>>) returns (weekly: WeeklyRanges, err: Option<string>)
    ensures |weekly.ranges| == 7
    ensures forall d :: 0 <= d < 7 ==> weekly.ranges[d] == []
    ensures err == FirstDayError(table, 0)
  {
    var ranges: seq<seq<TimeRange>> := [[], [], [], [], [], [], []];
    var day := 0;
    while day < 7
      invariant 0 <= day <= 7
      invariant |ranges| == 7
      invariant forall d :: 0 <= d < 7 ==> ranges[d] == []
      invariant FirstDayError(table, 0) == FirstDayError(table, day)
    {
      var dayStr := Days[day];
      FirstDayErrorNext(table, day);
      if dayStr in table {
        var timeRanges, dayErr := ParseTimeRanges(table[dayStr]);
        if dayErr.Some? {
          return WeeklyRanges(ranges), dayErr;
        }
        ranges := ranges[day := timeRanges];
      }
      day := day + 1;
    }
    return WeeklyRanges(ranges), None;
  }
}
