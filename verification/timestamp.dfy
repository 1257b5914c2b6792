/** Decoding of a message's timestamp text, `"<Weekday>, <w> <w> <w> at <hour>..."`, into a date
    phrase, a weekday index and an hour (parser.py, `weekday_to_idx` and `get_msg_time_info`). */
module Timestamp {
  import opened Wrappers
  import opened Text

  /** The weekday names in index order: Monday is 0, Sunday is 6. */
  const WeekdayNames: seq<string> :=
    ["Monday", "Tuesday", "Wednesday", "Thursday", "Friday", "Saturday", "Sunday"]

  /** The weekday table lookup. `None` stands for the sentinel string the source returns for
      any other name, which is not a valid index. */
  function WeekdayToIdx(w: string): (r: Option<nat>)
    ensures r.Some? ==> r.value < 7 && WeekdayNames[r.value] == w
    ensures r.None? <==> w !in WeekdayNames
  {
    if w == "Monday" then Some(0)
    else if w == "Tuesday" then Some(1)
    else if w == "Wednesday" then Some(2)
    else if w == "Thursday" then Some(3)
    else if w == "Friday" then Some(4)
    else if w == "Saturday" then Some(5)
    else if w == "Sunday" then Some(6)
    else None
  }

  /** Each weekday name is found at its own index, so the table is injective. */
  lemma WeekdayRoundTrip(i: nat)
    requires i < 7
    ensures WeekdayToIdx(WeekdayNames[i]) == Some(i)
  {
  }

  /** The groups captured by `(\w*), (\w* \w* \w*) at (\d*)`; the middle group is kept as its
      three words. */
  datatype TimeMatch = TimeMatch(weekday: string, first: string, second: string, third: string, hour: string) {

    /** The second group, the date phrase. */
    function Date(): string {
      first + " " + second + " " + third
    }

    /** The text the pattern consumes. */
    function Consumed(): string {
      weekday + ", " + Date() + " at " + hour
    }

    /** Every group consists of the characters its sub-pattern admits. */
    predicate WellFormed() {
      && AllIn(weekday, Word) && AllIn(first, Word) && AllIn(second, Word) && AllIn(third, Word)
      && AllIn(hour, Digit)
    }
  }

  /** The rest of `s` after the literal prefix `lit`, if `s` starts with it. */
  function Expect(s: string, lit: string): (r: Option<string>)
    ensures r.Some? <==> lit <= s
    ensures r.Some? ==> s == lit + r.value
  {
    if lit <= s then Some(s[|lit|..]) else None
  }

  /** A maximal run of class `k` followed by the literal `lit`. */
  function Scan(s: string, k: Class, lit: string): (r: Option<Piece>)
    ensures r.Some? ==> AllIn(r.value.run, k) && s == r.value.run + lit + r.value.rest
  {
    var p := Take(s, k);
    var rest :- Expect(p.rest, lit);
    Some(Piece(p.run, rest))
  }

  /** `re.match` of the timestamp pattern: anchored at the start of `s`, not at its end. Each `\w*`
      is followed by a character `\w` excludes, so the only possible match takes every run maximal.
      On success the captured groups, re-assembled, are a prefix of `s` that no further digit extends. */
  function Match(s: string): (r: Option<TimeMatch>)
    ensures r.Some? ==> r.value.WellFormed() && r.value.Consumed() <= s
    ensures r.Some? ==> |s| == |r.value.Consumed()| || !IsDigit(s[|r.value.Consumed()|])
  {
    var p1 :- Scan(s, Word, ", ");
    var p2 :- Scan(p1.rest, Word, " ");
    var p3 :- Scan(p2.rest, Word, " ");
    var p4 :- Scan(p3.rest, Word, " at ");
    var p5 := Take(p4.rest, Digit);
    var m := TimeMatch(p1.run, p2.run, p3.run, p4.run, p5.run);
    Reassemble(s, m, p1.rest, p2.rest, p3.rest, p4.rest, p5.rest);
    Some(m)
  }

  /** The pieces `Match` splits its input into concatenate back to it. */
  lemma Reassemble(s: string, m: TimeMatch, r1: string, r2: string, r3: string, r4: string, tail: string)
    requires s == m.weekday + ", " + r1
    requires r1 == m.first + " " + r2
    requires r2 == m.second + " " + r3
    requires r3 == m.third + " at " + r4
    requires r4 == m.hour + tail
    ensures s == m.Consumed() + tail
  {
  }

  /** `10` to the power `n`. */
  function Pow10(n: nat): nat {
    if n == 0 then 1 else 10 * Pow10(n - 1)
  }

  /** Python's `int()` on a run of decimal digits: `k` digits denote a number below `10^k`. */
  function DigitsValue(ds: string): (v: nat)
    requires AllIn(ds, Digit)
    ensures v < Pow10(|ds|)
  {
    if |ds| == 0 then 0
    else 10 * DigitsValue(ds[..|ds| - 1]) + (ds[|ds| - 1] as int - '0' as int)
  }

  /** A leading zero adds nothing to the value, as `int("07") == 7`. */
  lemma {:induction false} LeadingZero(ds: string)
    requires AllIn(ds, Digit) && |ds| > 0 && ds[0] == '0'
    ensures DigitsValue(ds) == DigitsValue(ds[1..])
    decreases |ds|
  {
    if |ds| > 1 {
      var init := ds[..|ds| - 1];
      assert init[1..] == ds[1..][..|ds[1..]| - 1];
      LeadingZero(init);
    }
  }

  /** Python's `str()` of a natural number: its decimal digits without leading zeros. */
  function NatToDigits(n: nat): (ds: string)
    ensures |ds| > 0 && AllIn(ds, Digit)
  {
    var d := ['0' + (n % 10) as char];
    if n < 10 then d else NatToDigits(n / 10) + d
  }

  /** Reading back the digits of a number gives the number. */
  lemma {:induction false} DigitsRoundTrip(n: nat)
    ensures DigitsValue(NatToDigits(n)) == n
  {
    var ds := NatToDigits(n);
    if n >= 10 {
      DigitsRoundTrip(n / 10);
      assert ds[..|ds| - 1] == NatToDigits(n / 10);
    }
  }

  /** What `get_msg_time_info` returns: the date phrase, the weekday lookup and the hour. */
  datatype TimeInfo = TimeInfo(date: string, weekday: Option<nat>, hour: nat)

  /** `get_msg_time_info`. `None` when the pattern does not match (`m.group` on `None`) or the hour
      group is empty (`int("")`); both raise in the source. An unknown weekday does not fail here. */
  function GetMsgTimeInfo(s: string): (r: Option<TimeInfo>)
    ensures r.Some? <==> Match(s).Some? && |Match(s).value.hour| > 0
    ensures r.Some? ==> var m := Match(s).value;
              r.value == TimeInfo(m.Date(), WeekdayToIdx(m.weekday), DigitsValue(m.hour))
    ensures r.Some? && r.value.weekday.Some? ==> r.value.weekday.value < 7
  {
    var m :- Match(s);
    if |m.hour| == 0 then None
    else Some(TimeInfo(m.Date(), WeekdayToIdx(m.weekday), DigitsValue(m.hour)))
  }

  /** Scanning a run followed by a literal that the run's class excludes recovers both. */
  lemma ScanOf(w: string, k: Class, lit: string, rest: string)
    requires AllIn(w, k)
    requires |lit| > 0 && !In(lit[0], k)
    ensures Scan(w + lit + rest, k, lit) == Some(Piece(w, rest))
  {
    assert w + lit + rest == w + (lit + rest);
    TakeOf(w, lit + rest, k);
  }

  /** Completeness of `Match`: any well-formed match followed by a non-digit (or nothing) is found. */
  lemma MatchOf(m: TimeMatch, rest: string)
    requires m.WellFormed()
    requires |rest| > 0 ==> !IsDigit(rest[0])
    ensures Match(m.Consumed() + rest) == Some(m)
  {
    var r4 := m.hour + rest;
    var r3 := m.third + " at " + r4;
    var r2 := m.second + " " + r3;
    var r1 := m.first + " " + r2;
    var s := m.weekday + ", " + r1;
    assert s == m.Consumed() + rest;
    ScanOf(m.weekday, Word, ", ", r1);
    ScanOf(m.first, Word, " ", r2);
    ScanOf(m.second, Word, " ", r3);
    ScanOf(m.third, Word, " at ", r4);
    TakeOf(m.hour, rest, Digit);
  }

  /** The text `get_msg_time_info` accepts, built from a weekday index, three date words and an hour. */
  function Stamp(weekday: nat, first: string, second: string, third: string, hour: nat): string
    requires weekday < 7
  {
    WeekdayNames[weekday] + ", " + first + " " + second + " " + third + " at " + NatToDigits(hour)
  }

  /** Decoding a stamp, whatever non-digit text follows it, returns its date phrase, weekday and hour. */
  lemma DecodeStamp(weekday: nat, first: string, second: string, third: string, hour: nat, rest: string)
    requires weekday < 7
    requires AllIn(first, Word) && AllIn(second, Word) && AllIn(third, Word)
    requires |rest| > 0 ==> !IsDigit(rest[0])
    ensures GetMsgTimeInfo(Stamp(weekday, first, second, third, hour) + rest)
         == Some(TimeInfo(first + " " + second + " " + third, Some(weekday), hour))
  {
    var name := WeekdayNames[weekday];
    assert AllIn(name, Word) by {
      assert AllIn("Monday", Word) && AllIn("Tuesday", Word) && AllIn("Wednesday", Word);
      assert AllIn("Thursday", Word) && AllIn("Friday", Word) && AllIn("Saturday", Word);
      assert AllIn("Sunday", Word);
    }
    var m := TimeMatch(name, first, second, third, NatToDigits(hour));
    assert Stamp(weekday, first, second, third, hour) == m.Consumed();
    MatchOf(m, rest);
    WeekdayRoundTrip(weekday);
    DigitsRoundTrip(hour);
  }

  /** A date phrase whose second word is followed by a comma never fits the pattern, since the
      third word must follow the second after a single space. This rules out the month-first
      layout "Monday, January 1, 2024 at 10"; the day-first "Monday, 1 January 2024 at 10" fits. */
  lemma CommaAfterSecond(weekday: string, first: string, second: string, tail: string)
    requires AllIn(weekday, Word) && AllIn(first, Word) && AllIn(second, Word)
    requires |tail| > 0 && tail[0] == ','
    ensures GetMsgTimeInfo(weekday + ", " + first + " " + second + tail).None?
  {
    var r2 := second + tail;
    var r1 := first + " " + r2;
    assert weekday + ", " + first + " " + second + tail == weekday + ", " + r1;
    ScanOf(weekday, Word, ", ", r1);
    ScanOf(first, Word, " ", r2);
    TakeOf(second, tail, Word);
  }
}
