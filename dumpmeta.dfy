/**
 * The decoding rules of the header dump in cl_dump_meta.c: the attribute list of
 * sfatr, the change time (centiseconds since midnight, plus one) and change date
 * (Clarion day number, day 4 being 1801-01-01), and the key-type text of the key
 * descriptor dump. The hex dumps around them are plain printing and are not modelled.
 */
module DumpMeta {
  import opened Clarion

  // ---------------------------------------------------------------------------
  // Attributes set

  const AttrNames: seq<string> := [
    "FILE LOCKED", "FILE OWNED", "RECORDS ENCRYPTED", "MEMO FILE EXISTS",
    "FILE COMPRESSED", "RECLAIM DELETED RECORDS", "READ ONLY", "MAY BE CREATED"]

  /** Bit `i` of `x`, (x >> i) & 1, as the attribute loops test it. */
  predicate BitSet(x: nat, i: nat)
    requires i < 8
  {
    if i == 0 then HasMask(x, 1)
    else if i == 1 then HasMask(x, 2)
    else if i == 2 then HasMask(x, 4)
    else if i == 3 then HasMask(x, 8)
    else if i == 4 then HasMask(x, 16)
    else if i == 5 then HasMask(x, 32)
    else if i == 6 then HasMask(x, 64)
    else HasMask(x, 128)
  }

  /** " [name]" for every set bit below `n`, in bit order. */
  function AttrItems(names: seq<string>, sfatr: nat, n: nat): string
    requires |names| == 8 && n <= 8
  {
    if n == 0 then ""
    else AttrItems(names, sfatr, n - 1) + (if BitSet(sfatr, n - 1) then " [" + names[n - 1] + "]" else "")
  }

  /** The text after "Attributes set:": NONE when the low byte of sfatr is clear. */
  function AttributesText(sfatr: nat): string
  {
    if sfatr % 256 == 0 then " NONE" else AttrItems(AttrNames, sfatr, 8)
  }

  /**
   * The items are empty exactly when none of the bits below `n` is set; otherwise
   * they start with " [".
   */
  lemma {:induction false} AttrItemsEmpty(names: seq<string>, sfatr: nat, n: nat)
    requires |names| == 8 && n <= 8
    ensures AttrItems(names, sfatr, n) == "" ==> forall j :: 0 <= j < n ==> !BitSet(sfatr, j)
    ensures (forall j :: 0 <= j < n ==> !BitSet(sfatr, j)) ==> AttrItems(names, sfatr, n) == ""
    ensures AttrItems(names, sfatr, n) != "" ==>
      |AttrItems(names, sfatr, n)| > 1 && AttrItems(names, sfatr, n)[..2] == " ["
  {
    if n > 0 {
      AttrItemsEmpty(names, sfatr, n - 1);
      var prev := AttrItems(names, sfatr, n - 1);
      var item := " [" + names[n - 1] + "]";
      if BitSet(sfatr, n - 1) {
        assert AttrItems(names, sfatr, n) == prev + item;
        assert (prev + item)[..2] == (if prev == "" then item[..2] else prev[..2]);
        assert |prev + item| >= 3;
        assert !(forall j :: 0 <= j < n ==> !BitSet(sfatr, j)) by {
          assert 0 <= n - 1 < n && BitSet(sfatr, n - 1);
        }
      } else {
        assert AttrItems(names, sfatr, n) == prev + "" == prev;
      }
    }
  }

  /** The remainder by 2m adds the bit of weight m to the remainder by m. */
  lemma ModDouble(x: nat, m: nat)
    requires m > 0
    ensures x % (2 * m) == x % m + m * ((x / m) % 2)
  {
    var a, b := x / m, x % m;
    var h := a / 2;
    assert x == m * a + b;
    if a % 2 == 0 {
      assert a == 2 * h;
      assert x == (2 * m) * h + b;
      DivUnique(x, 2 * m, h, b);
    } else {
      assert a == 2 * h + 1;
      assert x == (2 * m) * h + (m + b);
      DivUnique(x, 2 * m, h, m + b);
    }
  }

  /** The low byte of sfatr is clear exactly when none of its eight bits is set. */
  lemma LowByteClear(x: nat)
    ensures x % 256 == 0 ==> forall i :: 0 <= i < 8 ==> !BitSet(x, i)
    ensures (forall i :: 0 <= i < 8 ==> !BitSet(x, i)) ==> x % 256 == 0
  {
    ModDouble(x, 1);
    ModDouble(x, 2);
    ModDouble(x, 4);
    ModDouble(x, 8);
    ModDouble(x, 16);
    ModDouble(x, 32);
    ModDouble(x, 64);
    ModDouble(x, 128);
    assert x % 256 == x % 2 + 2 * ((x / 2) % 2) + 4 * ((x / 4) % 2) + 8 * ((x / 8) % 2)
      + 16 * ((x / 16) % 2) + 32 * ((x / 32) % 2) + 64 * ((x / 64) % 2) + 128 * ((x / 128) % 2);
    if x % 256 == 0 {
      forall i | 0 <= i < 8
        ensures !BitSet(x, i)
      {
        assert i == 0 || i == 1 || i == 2 || i == 3 || i == 4 || i == 5 || i == 6 || i == 7;
      }
    }
    if forall i :: 0 <= i < 8 ==> !BitSet(x, i) {
      assert !BitSet(x, 0) && !BitSet(x, 1) && !BitSet(x, 2) && !BitSet(x, 3);
      assert !BitSet(x, 4) && !BitSet(x, 5) && !BitSet(x, 6) && !BitSet(x, 7);
    }
  }

  /** NONE is printed exactly when none of the eight attribute bits is set. */
  lemma AttributesNone(sfatr: nat)
    ensures AttributesText(sfatr) == " NONE" <==> forall i :: 0 <= i < 8 ==> !BitSet(sfatr, i)
  {
    AttrItemsEmpty(AttrNames, sfatr, 8);
    LowByteClear(sfatr);
    if sfatr % 256 != 0 {
      var j :| 0 <= j < 8 && BitSet(sfatr, j);
      assert AttributesText(sfatr)[..2] == " [";
      assert " NONE"[..2] == " N";
    }
  }

  /** The attribute loop of clarion_dump_header. */
  method ListAttributes(sfatr: nat) returns (r: string)
    ensures r == AttributesText(sfatr)
  {
    if sfatr % 256 == 0 {
      return " NONE";
    }
    r := ListBits(AttrNames, sfatr);
  }

  /** The loop over bits 0..7 that prints " [name]" for each set bit. */
  method ListBits(names: seq<string>, x: nat) returns (r: string)
    requires |names| == 8
    ensures r == AttrItems(names, x, 8)
  {
    r := "";
    for i := 0 to 8
      invariant r == AttrItems(names, x, i)
    {
      if BitSet(x, i) {
        r := r + " [" + names[i] + "]";
      } else {
        assert r + "" == r;
      }
    }
  }

  // ---------------------------------------------------------------------------
  // chgtime

  /** A time of day as printed, "%02d:%02d:%02d.%02d". */
  datatype Clock = Clock(hours: nat, minutes: nat, seconds: nat, centis: nat)

  const TimeMax: nat := 8640000  // 24 hours in centiseconds

  function Centiseconds(c: Clock): nat
  {
    c.hours * 360000 + c.minutes * 6000 + c.seconds * 100 + c.centis
  }

  /**
   * The fields as clarion_dump_header computes them: the hours from chgtime - 1,
   * the minutes, seconds and centiseconds from chgtime itself.
   */
  function ClockAsWritten(t: nat): (c: Clock)
    requires 1 <= t
    ensures c.minutes < 60 && c.seconds < 60 && c.centis < 100
    ensures t <= TimeMax ==> c.hours < 24
    ensures c.hours == (t - 1) / 360000
    ensures c.minutes * 6000 + c.seconds * 100 + c.centis == t % 360000
  {
    var h := (t - 1) / 360000;
    var rest := t % 360000;
    var m := rest / 6000;
    var low := rest % 6000;
    Clock(h, m, low / 100, low % 100)
  }

  /** The fields taken all from chgtime - 1, the centiseconds since midnight. */
  function ClockOf(t: nat): (c: Clock)
    requires 1 <= t
    ensures c.minutes < 60 && c.seconds < 60 && c.centis < 100
    ensures t <= TimeMax ==> c.hours < 24
  {
    var u := t - 1;
    var rest := u % 360000;
    var low := rest % 6000;
    Clock(u / 360000, rest / 6000, low / 100, low % 100)
  }

  /** Every valid time gives a clock reading that counts back to chgtime - 1. */
  lemma ClockOfRoundTrip(t: nat)
    requires 1 <= t <= TimeMax
    ensures ClockOf(t).hours < 24 && ClockOf(t).minutes < 60
    ensures ClockOf(t).seconds < 60 && ClockOf(t).centis < 100
    ensures Centiseconds(ClockOf(t)) == t - 1
  {
    var u := t - 1;
    var rest := u % 360000;
    var low := rest % 6000;
    assert u == (u / 360000) * 360000 + rest;
    assert rest == (rest / 6000) * 6000 + low;
    assert low == (low / 100) * 100 + low % 100;
  }

  /** The clock reading determines the time: ClockOf is one-to-one on valid times. */
  lemma ClockOfInjective(t1: nat, t2: nat)
    requires 1 <= t1 <= TimeMax && 1 <= t2 <= TimeMax
    requires ClockOf(t1) == ClockOf(t2)
    ensures t1 == t2
  {
    ClockOfRoundTrip(t1);
    ClockOfRoundTrip(t2);
  }

  /**
   * As written, one centisecond before the hour the minutes wrap to 0 while the hours
   * do not advance: 360000 prints 00:00:00.00, earlier than 1, which prints 00:00:00.01,
   * where 00:59:59.99 is meant.
   */
  lemma ClockAsWrittenWraps()
    ensures ClockAsWritten(360000) == Clock(0, 0, 0, 0)
    ensures ClockAsWritten(1) == Clock(0, 0, 0, 1)
    ensures Centiseconds(ClockAsWritten(360000)) < Centiseconds(ClockAsWritten(1))
  {
  }

  /**
   * Off the hour the reading as written is chgtime itself, one centisecond later
   * than chgtime - 1 would be; on the hour it is a whole hour earlier.
   */
  lemma ClockAsWrittenOffHour(t: nat)
    requires 1 <= t
    ensures t % 360000 != 0 ==> Centiseconds(ClockAsWritten(t)) == t
    ensures t % 360000 == 0 ==> Centiseconds(ClockAsWritten(t)) == t - 360000
  {
    var q, r := t / 360000, t % 360000;
    assert t == 360000 * q + r;
    if r != 0 {
      assert t - 1 == 360000 * q + (r - 1);
      DivUnique(t - 1, 360000, q, r - 1);
    } else {
      assert t - 1 == 360000 * (q - 1) + 359999;
      DivUnique(t - 1, 360000, q - 1, 359999);
    }
  }

  /** The corrected reading of the same two times: 00:59:59.99 and 00:00:00.00. */
  lemma ClockOfHour()
    ensures ClockOf(360000) == Clock(0, 59, 59, 99)
    ensures ClockOf(1) == Clock(0, 0, 0, 0)
  {
    assert 359999 % 360000 == 359999 && 359999 / 360000 == 0;
    assert 359999 / 6000 == 59 && 359999 % 6000 == 5999;
    assert 5999 / 100 == 59 && 5999 % 100 == 99;
  }

  lemma Pad2Length(n: nat)
    requires n < 100
    ensures |Pad2(n)| == 2
  {
    if n >= 10 {
      assert NatToString(n / 10) == [DigitChar(n / 10)];
    }
  }

  /**
   * The text between the brackets of the chgtime line, as clarion_dump_header prints
   * it: hours from chgtime - 1, the rest from chgtime.
   */
  function TimeText(t: nat): (r: string)
    ensures r == "INVALID" <==> t < 1 || t > TimeMax
    ensures 1 <= t <= TimeMax ==> |r| == 11 && r[2] == ':' && r[5] == ':' && r[8] == '.'
    ensures 1 <= t <= TimeMax ==> r[..2] == Pad2((t - 1) / 360000)
    ensures 1 <= t <= TimeMax ==> r[3..5] == Pad2(t % 360000 / 6000)
    ensures 1 <= t <= TimeMax ==> r[6..8] == Pad2(t % 360000 % 6000 / 100)
    ensures 1 <= t <= TimeMax ==> r[9..] == Pad2(t % 360000 % 6000 % 100)
  {
    if t < 1 || t > TimeMax then "INVALID"
    else
      var c := ClockAsWritten(t);
      Pad2Length(c.hours);
      Pad2Length(c.minutes);
      Pad2Length(c.seconds);
      Pad2Length(c.centis);
      Pad2(c.hours) + ":" + Pad2(c.minutes) + ":" + Pad2(c.seconds) + "." + Pad2(c.centis)
  }

  // ---------------------------------------------------------------------------
  // chgdate

  datatype Date = Date(year: nat, month: nat, day: nat)

  const DateMax: nat := 109211  // 2099-12-31

  /** February's length in the month table: 29 when year % 4 == 0 and year != 1900. */
  function FebDays(year: nat): nat
  {
    if year % 4 == 0 && year != 1900 then 29 else 28
  }

  /** days_in_month after the leap-year adjustment. */
  function MonthTable(year: nat): seq<nat>
  {
    [31, FebDays(year), 31, 30, 31, 30, 31, 31, 30, 31, 30, 31]
  }

  /** The year and the zero-based day of the year, before the month loop. */
  function YearAndDay(chgdate: nat): (nat, nat)
    requires 3 < chgdate
  {
    var tmp: nat := if chgdate > 36527 then chgdate - 3 else chgdate - 4;
    var base := 1801 + 4 * (tmp / 1461);
    var r := tmp % 1461;
    var (year, day) := if r != 1460 then (base + r / 365, r % 365) else (base + 3, 365);
    (if year < 100 then year + 1900 else year, day)
  }

  /**
   * The month loop from month index `i`: subtract month lengths until the day goes
   * negative, then add the month length plus one back; (12, left) when it never does.
   */
  function MonthWalk(dim: seq<nat>, day: nat, i: nat): (nat, nat)
    requires i <= |dim|
    decreases |dim| - i
  {
    if i == |dim| then (i, day)
    else if day < dim[i] then (i, day + 1)
    else MonthWalk(dim, day - dim[i], i + 1)
  }

  /** The date clarion_dump_header prints for chgdate, None for INVALID. */
  function DateOf(chgdate: nat): (r: Option<Date>)
    ensures r.None? <==> chgdate <= 3 || chgdate > DateMax
    ensures r.Some? ==> r.value.month >= 1
  {
    if chgdate <= 3 || chgdate > DateMax then None
    else
      var (year, day) := YearAndDay(chgdate);
      var (i, d) := MonthWalk(MonthTable(year), day, 0);
      Some(Date(year, i + 1, d))
  }

  /** The date decoding of clarion_dump_header. */
  method DecodeDate(chgdate: nat) returns (r: Option<Date>)
    ensures r == DateOf(chgdate)
  {
    if chgdate <= 3 || chgdate > DateMax {
      return None;
    }
    var tmp: int := if chgdate > 36527 then chgdate - 3 else chgdate - 4;
    var year: int := 1801 + 4 * (tmp / 1461);
    var day: int;
    tmp := tmp % 1461;
    if tmp != 1460 {
      year := year + tmp / 365;
      day := tmp % 365;
    } else {
      year := year + 3;
      day := 365;
    }
    year := year + if year < 100 then 1900 else 0;
    assert (year, day) == YearAndDay(chgdate);
    var month, mday := MonthLoop(year, day);
    r := Some(Date(year, month, mday));
  }

  /** The month loop over the local days_in_month array, February adjusted for `year`. */
  method MonthLoop(year: nat, day0: nat) returns (month: nat, day: nat)
    ensures (month - 1, day) == MonthWalk(MonthTable(year), day0, 0)
  {
    var daysInMonth := new nat[] [31, 28, 31, 30, 31, 30, 31, 31, 30, 31, 30, 31];
    if year % 4 == 0 && year != 1900 {
      daysInMonth[1] := 29;
    }
    assert daysInMonth[..] == MonthTable(year);
    var left: int := day0;
    var i := 0;
    while i < 12
      invariant 0 <= i <= 12 && left >= 0
      invariant daysInMonth[..] == MonthTable(year)
      invariant MonthWalk(daysInMonth[..], left, i) == MonthWalk(MonthTable(year), day0, 0)
    {
      left := left - daysInMonth[i];
      if left < 0 {
        left := left + daysInMonth[i] + 1;
        break;
      }
      i := i + 1;
    }
    month, day := i + 1, left;
  }

  lemma NatToString4(n: nat)
    requires 1000 <= n < 10000
    ensures |NatToString(n)| == 4
  {
    var a := n / 10;
    var b := a / 10;
    var c := b / 10;
    assert 1 <= c < 10;
    assert |NatToString(b)| == |NatToString(c)| + 1 == 2;
    assert |NatToString(a)| == |NatToString(b)| + 1 == 3;
  }

  /** The text between the brackets of the chgdate line, "%d-%02d-%02d". */
  function DateText(chgdate: nat): (r: string)
    ensures r == "INVALID" <==> chgdate <= 3 || chgdate > DateMax
  {
    match DateOf(chgdate)
    case None => "INVALID"
    case Some(dt) =>
      DateOfCalendar(chgdate);
      NatToString4(dt.year);
      Pad2Length(dt.month);
      Pad2Length(dt.day);
      NatToString(dt.year) + "-" + Pad2(dt.month) + "-" + Pad2(dt.day)
  }

  // ---- The Gregorian calendar, as an independent reference

  predicate IsLeap(year: nat)
  {
    year % 4 == 0 && (year % 100 != 0 || year % 400 == 0)
  }

  function YearLength(year: nat): nat
  {
    if IsLeap(year) then 366 else 365
  }

  function MonthLengths(year: nat): seq<nat>
  {
    [31, if IsLeap(year) then 29 else 28, 31, 30, 31, 30, 31, 31, 30, 31, 30, 31]
  }

  function Sum(s: seq<nat>): nat
  {
    if |s| == 0 then 0 else s[0] + Sum(s[1..])
  }

  /** Days from 1801-01-01 to the first of January of `year`. */
  function DaysBeforeYear(year: nat): nat
    requires year >= 1801
    decreases year
  {
    if year == 1801 then 0 else DaysBeforeYear(year - 1) + YearLength(year - 1)
  }

  /** The Clarion day number of a date: day 4 is 1801-01-01. */
  function Serial(dt: Date): nat
    requires dt.year >= 1801 && 1 <= dt.month <= 12 && dt.day >= 1
  {
    4 + DaysBeforeYear(dt.year) + Sum(MonthLengths(dt.year)[..dt.month - 1]) + dt.day - 1
  }

  /** Every fourth year is a leap year from 1801 on, except 1900. */
  lemma {:induction false} DaysBeforeYearClosed(year: nat)
    requires 1801 <= year <= 2100
    ensures DaysBeforeYear(year) == 365 * (year - 1801) + (year - 1801) / 4 - (if year > 1900 then 1 else 0)
    decreases year
  {
    if year > 1801 {
      DaysBeforeYearClosed(year - 1);
      var n := year - 1802;
      if (year - 1) % 4 == 0 {
        assert (n + 1) / 4 == n / 4 + 1;
      } else {
        assert (n + 1) / 4 == n / 4;
      }
    }
  }

  /** Within 1801..2099 the source's leap-year rule agrees with the Gregorian one. */
  lemma MonthTableGregorian(year: nat)
    requires 1801 <= year <= 2099
    ensures MonthTable(year) == MonthLengths(year)
  {
    if year % 100 == 0 {
      assert year == 1900 || year == 2000;
    }
  }

  lemma SumMonths(year: nat)
    ensures Sum(MonthLengths(year)) == YearLength(year)
  {
    var s := MonthLengths(year);
    assert Sum(s[12..]) == 0;
    SumSplit(s, 11);
    SumSplit(s, 10);
    SumSplit(s, 9);
    SumSplit(s, 8);
    SumSplit(s, 7);
    SumSplit(s, 6);
    SumSplit(s, 5);
    SumSplit(s, 4);
    SumSplit(s, 3);
    SumSplit(s, 2);
    SumSplit(s, 1);
    SumSplit(s, 0);
    assert s[0..] == s;
  }

  lemma SumSplit(s: seq<nat>, i: nat)
    requires i < |s|
    ensures Sum(s[i..]) == s[i] + Sum(s[i + 1..])
  {
    assert s[i..][1..] == s[i + 1..];
  }

  lemma {:induction false} SumAppend(s: seq<nat>, n: nat)
    requires n < |s|
    ensures Sum(s[..n + 1]) == Sum(s[..n]) + s[n]
  {
    if n == 0 {
      assert s[..1][1..] == [];
    } else {
      SumAppend(s[1..], n - 1);
      assert s[..n + 1][1..] == s[1..][..n];
      assert s[..n][1..] == s[1..][..n - 1];
    }
  }

  /**
   * Started on a day inside the months from `i` on, the month loop breaks in one of
   * them with a day of that month, and the months before it plus that day count back
   * to where it started.
   */
  lemma {:induction false} MonthWalkInRange(dim: seq<nat>, day: nat, i: nat)
    requires i <= |dim| && day < Sum(dim[i..])
    ensures i <= MonthWalk(dim, day, i).0 < |dim|
    ensures 1 <= MonthWalk(dim, day, i).1 <= dim[MonthWalk(dim, day, i).0]
    ensures Sum(dim[..MonthWalk(dim, day, i).0]) + MonthWalk(dim, day, i).1 - 1
      == Sum(dim[..i]) + day
    decreases |dim| - i
  {
    if i < |dim| {
      SumSplit(dim, i);
      SumAppend(dim, i);
      if day >= dim[i] {
        MonthWalkInRange(dim, day - dim[i], i + 1);
      }
    }
  }

  /** The year and day arithmetic: a year of the range and a day inside it. */
  lemma YearAndDayCalendar(chgdate: nat)
    requires 3 < chgdate <= DateMax
    ensures 1801 <= YearAndDay(chgdate).0 <= 2099
    ensures YearAndDay(chgdate).1 < YearLength(YearAndDay(chgdate).0)
    ensures 4 + DaysBeforeYear(YearAndDay(chgdate).0) + YearAndDay(chgdate).1 == chgdate
  {
    var tmp: nat := if chgdate > 36527 then chgdate - 3 else chgdate - 4;
    var k := tmp / 1461;
    var r := tmp % 1461;
    assert tmp == 1461 * k + r;
    var j := if r != 1460 then r / 365 else 3;
    var dy := if r != 1460 then r % 365 else 365;
    assert j <= 3 && dy + 365 * j == r;
    var year := 1801 + 4 * k + j;
    assert YearAndDay(chgdate) == (year, dy);
    assert k <= 74;
    assert k == 74 ==> r <= 1094 && j <= 2;
    assert chgdate <= 36527 ==> k < 24 || (k == 24 && r <= 1459);
    assert chgdate > 36527 ==> k >= 25;
    DaysBeforeYearClosed(year);
    assert (4 * k + j) / 4 == k;
    if r == 1460 {
      assert year == 4 * (451 + k);
      assert year != 1900 && year != 2100;
      assert year % 100 == 0 ==> year == 2000;
    }
  }

  /**
   * Every valid chgdate decodes to a date of the Gregorian calendar between 1801 and
   * 2099 whose Clarion day number is chgdate again; in particular the month loop
   * always breaks, with the day inside its month.
   */
  lemma DateOfCalendar(chgdate: nat)
    requires 3 < chgdate <= DateMax
    ensures DateOf(chgdate).Some?
    ensures var dt := DateOf(chgdate).value;
      1801 <= dt.year <= 2099 && 1 <= dt.month <= 12 &&
      1 <= dt.day <= MonthLengths(dt.year)[dt.month - 1] &&
      Serial(dt) == chgdate
  {
    var (year, day) := YearAndDay(chgdate);
    YearAndDayCalendar(chgdate);
    MonthTableGregorian(year);
    SumMonths(year);
    var dim := MonthLengths(year);
    assert dim[0..] == dim && dim[..0] == [];
    MonthWalkInRange(dim, day, 0);
  }

  /** Two valid day numbers never print the same date. */
  lemma DateOfInjective(c1: nat, c2: nat)
    requires 3 < c1 <= DateMax && 3 < c2 <= DateMax
    requires DateOf(c1) == DateOf(c2)
    ensures c1 == c2
  {
    DateOfCalendar(c1);
    DateOfCalendar(c2);
  }

  // ---------------------------------------------------------------------------
  // keytyp

  /** What the keytyp line says about a key type byte. */
  datatype KeyClass =
    | KeyError
    | KeyKind(index: bool, duplicates: bool, uppercase: bool, padded: bool, locked: bool)

  /** The classification of clarion_dump_key_desc: the low nibble 1 is INDEX, bits 0-3 the flags. */
  function Classify(keytype: nat): KeyClass
  {
    if keytype == KeyTypeError then KeyError
    else KeyKind(keytype % 16 == 1, HasMask(keytype, KeyDupSw), HasMask(keytype, KeyUprSw),
                 HasMask(keytype, KeyOptSw), HasMask(keytype, KeyLokSw))
  }

  /** A flag's " [NAME]" tag when it is set. */
  function Flag(on: bool, tag: string): string
  {
    if on then tag else ""
  }

  function FlagsText(dup: bool, upr: bool, pad: bool, lok: bool): string
  {
    Flag(dup, " [DUPLICATES]") + (Flag(upr, " [UPPERCASE]") + (Flag(pad, " [PADDED]") + Flag(lok, " [LOCKED]")))
  }

  function HeadText(index: bool): string
  {
    if index then "[INDEX]" else "[KEY]"
  }

  /** The text between the parentheses of the keytyp line. */
  function KeyClassText(c: KeyClass): string
  {
    match c
    case KeyError => "[ERROR]"
    case KeyKind(index, dup, upr, pad, lok) => HeadText(index) + FlagsText(dup, upr, pad, lok)
  }

  function KeyTypeText(keytype: nat): string
  {
    KeyClassText(Classify(keytype))
  }

  /** Removes `tag` from the front of `s` when it is there. */
  function Strip(s: string, tag: string): (bool, string)
  {
    if |tag| <= |s| && s[..|tag|] == tag then (true, s[|tag|..]) else (false, s)
  }

  /** Reads the flags back, in the order they are printed. */
  function ParseFlags(s: string): (bool, bool, bool, bool)
  {
    var (dup, s1) := Strip(s, " [DUPLICATES]");
    var (upr, s2) := Strip(s1, " [UPPERCASE]");
    var (pad, s3) := Strip(s2, " [PADDED]");
    (dup, upr, pad, Strip(s3, " [LOCKED]").0)
  }

  function ParseHead(s: string): (bool, string)
  {
    var (index, rest) := Strip(s, "[INDEX]");
    if index then (true, rest) else (false, Strip(s, "[KEY]").1)
  }

  /** Reads a keytyp text back into its classification. */
  function ParseKeyClass(s: string): KeyClass
  {
    if s == "[ERROR]" then KeyError
    else
      var (index, rest) := ParseHead(s);
      var (dup, upr, pad, lok) := ParseFlags(rest);
      KeyKind(index, dup, upr, pad, lok)
  }

  lemma StripFlag(on: bool, tag: string, rest: string)
    requires |tag| > 2 && tag[..2] == " ["
    requires |rest| == 0 || (|rest| > 2 && rest[..2] == " [" && rest[2] != tag[2])
    ensures Strip(Flag(on, tag) + rest, tag) == (on, rest)
  {
    if on {
      assert (tag + rest)[..|tag|] == tag;
      assert (tag + rest)[|tag|..] == rest;
    } else {
      assert Flag(on, tag) + rest == rest;
      if |tag| <= |rest| {
        assert rest[..|tag|][2] != tag[2];
      }
    }
  }

  lemma ParseFlagsText(dup: bool, upr: bool, pad: bool, lok: bool)
    ensures ParseFlags(FlagsText(dup, upr, pad, lok)) == (dup, upr, pad, lok)
  {
    var t4 := Flag(lok, " [LOCKED]");
    var t3 := Flag(pad, " [PADDED]") + t4;
    var t2 := Flag(upr, " [UPPERCASE]") + t3;
    assert t4 + "" == t4;
    StripFlag(lok, " [LOCKED]", "");
    StripFlag(pad, " [PADDED]", t4);
    StripFlag(upr, " [UPPERCASE]", t3);
    StripFlag(dup, " [DUPLICATES]", t2);
    var s1 := Strip(FlagsText(dup, upr, pad, lok), " [DUPLICATES]");
    assert s1 == (dup, t2);
    var s2 := Strip(t2, " [UPPERCASE]");
    assert s2 == (upr, t3);
    var s3 := Strip(t3, " [PADDED]");
    assert s3 == (pad, t4);
  }

  lemma ParseHeadText(index: bool, rest: string)
    requires |rest| == 0 || rest[0] == ' '
    ensures ParseHead(HeadText(index) + rest) == (index, rest)
  {
    var s := HeadText(index) + rest;
    if index {
      assert s[..7] == "[INDEX]" && s[7..] == rest;
    } else {
      assert s[1] != "[INDEX]"[1];
      assert s[..5] == "[KEY]" && s[5..] == rest;
    }
  }

  lemma FlagsTextShape(dup: bool, upr: bool, pad: bool, lok: bool)
    ensures |FlagsText(dup, upr, pad, lok)| == 0 || FlagsText(dup, upr, pad, lok)[0] == ' '
  {
  }

  /** The keytyp text determines the classification: reading it back gives it again. */
  lemma ParseKeyClassText(c: KeyClass)
    ensures ParseKeyClass(KeyClassText(c)) == c
  {
    match c
    case KeyError =>
    case KeyKind(index, dup, upr, pad, lok) =>
      var rest := FlagsText(dup, upr, pad, lok);
      FlagsTextShape(dup, upr, pad, lok);
      ParseHeadText(index, rest);
      ParseFlagsText(dup, upr, pad, lok);
      assert (HeadText(index) + rest)[1] != "[ERROR]"[1];
  }

  /** Only 0xff prints [ERROR]. */
  lemma KeyTypeErrorText(keytype: nat)
    ensures KeyTypeText(keytype) == "[ERROR]" <==> keytype == KeyTypeError
  {
    if keytype != KeyTypeError {
      var c := Classify(keytype);
      var rest := FlagsText(c.duplicates, c.uppercase, c.padded, c.locked);
      assert KeyTypeText(keytype) == HeadText(c.index) + rest;
      assert (HeadText(c.index) + rest)[1] != "[ERROR]"[1];
    }
  }

  /**
   * INDEX is printed exactly for a low nibble of 1, which has bit 0 set: an index is
   * always also listed with [DUPLICATES].
   */
  lemma KeyTypeIndex(keytype: nat)
    requires keytype != KeyTypeError
    ensures Classify(keytype).index <==> keytype % 16 == 1
    ensures Classify(keytype).index ==> Classify(keytype).duplicates
  {
    if keytype % 16 == 1 {
      var q := keytype / 16;
      assert keytype == 2 * (8 * q) + 1;
    }
  }
}
