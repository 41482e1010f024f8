/**
 * The name of the exported PDF: `labubu-orders_MM-DD-YYYY_HH:MM:SS.pdf`,
 * built from the local clock's components, each but the year zero-padded
 * to two digits.  The clock reading is a parameter.
 */
module ExportName {
  import opened Wrappers

  predicate IsDigit(c: char) {
    '0' <= c <= '9'
  }

  predicate AllDigits(s: string) {
    forall i :: 0 <= i < |s| ==> IsDigit(s[i])
  }

  function DigitChar(d: nat): (c: char)
    requires d < 10
    ensures IsDigit(c) && c as int - '0' as int == d
  {
    ('0' as int + d) as char
  }

  /** The number a string of decimal digits denotes. */
  function DigitsValue(s: string): nat
    requires AllDigits(s)
  {
    if s == [] then 0
    else DigitsValue(s[..|s| - 1]) * 10 + (s[|s| - 1] as int - '0' as int)
  }

  /** `n.toString()` for a non-negative integer: its decimal digits, with no
      leading zero. */
  function NatToString(n: nat): (s: string)
    ensures 1 <= |s| && AllDigits(s)
    ensures |s| == 1 <==> n < 10
    ensures |s| <= 2 <==> n < 100
    ensures n >= 10 ==> s[0] != '0'
    decreases n
  {
    if n < 10 then [DigitChar(n)] else NatToString(n / 10) + [DigitChar(n % 10)]
  }

  /** `String(y)` for an integer year: a minus sign before the digits of a
      negative one. */
  function IntToString(y: int): (s: string)
    ensures 1 <= |s|
    ensures y >= 0 <==> AllDigits(s)
  {
    if y < 0 then
      var s := "-" + NatToString(-y);
      assert !IsDigit(s[0]);
      s
    else NatToString(y)
  }

  /** `s.padStart(width, fill)`: fill characters in front of `s` until it is
      `width` long; a string already that long is returned as it is. */
  function PadStart(s: string, width: nat, fill: char): (r: string)
    ensures |r| == if |s| >= width then |s| else width
    ensures r[|r| - |s|..] == s
    ensures forall i :: 0 <= i < |r| - |s| ==> r[i] == fill
  {
    if |s| >= width then s else seq(width - |s|, _ => fill) + s
  }

  /** `pad` of the timestamp: `n.toString().padStart(2, '0')`. */
  function Pad(n: nat): (r: string)
    ensures n >= 10 ==> r == NatToString(n)
  {
    PadStart(NatToString(n), 2, '0')
  }

  /** A reading of the local clock as `Date` reports it: the month is
      0-based, as `getMonth()` returns it. */
  datatype LocalTime = LocalTime(
    year: int,
    month: nat,
    date: nat,
    hours: nat,
    minutes: nat,
    seconds: nat)

  /** The ranges `Date`'s getters keep to. */
  predicate ValidTime(t: LocalTime) {
    && t.month < 12
    && 1 <= t.date <= 31
    && t.hours < 24
    && t.minutes < 60
    && t.seconds < 60
  }

  /** The template literal `${month}-${day}-${year}_${hours}:${minutes}:${seconds}`. */
  function Layout(mo: string, da: string, ye: string, ho: string, mi: string, se: string): string {
    mo + "-" + da + "-" + ye + "_" + ho + ":" + mi + ":" + se
  }

  /** `getFormattedTimestamp()`: `MM-DD-YYYY_HH:MM:SS`. */
  function Timestamp(t: LocalTime): string {
    Layout(Pad(t.month + 1), Pad(t.date), IntToString(t.year),
           Pad(t.hours), Pad(t.minutes), Pad(t.seconds))
  }

  const Prefix: string := "labubu-orders_"
  const Extension: string := ".pdf"

  /** The name the export saves the document under. */
  function FileName(t: LocalTime): string {
    Prefix + Timestamp(t) + Extension
  }

  // ------------------------------------------------------------ reading back

  function ParseTwo(s: string): (r: Option<nat>)
    ensures r.Some? ==> r.value < 100
  {
    if |s| == 2 && AllDigits(s) then
      Some((s[0] as int - '0' as int) * 10 + (s[1] as int - '0' as int))
    else None
  }

  function ParseInt(s: string): Option<int> {
    if |s| >= 2 && s[0] == '-' && AllDigits(s[1..]) then Some(0 - DigitsValue(s[1..]))
    else if |s| >= 1 && AllDigits(s) then Some(DigitsValue(s))
    else None
  }

  /** Reads a `MM-DD-YYYY_HH:MM:SS` timestamp back into a clock reading. */
  function ParseTimestamp(b: string): (r: Option<LocalTime>)
    ensures r.Some? ==> ValidTime(r.value)
  {
    if |b| < 16 || b[2] != '-' || b[5] != '-' || b[|b| - 9] != '_'
       || b[|b| - 6] != ':' || b[|b| - 3] != ':' then None
    else
      var mo, da, ye := ParseTwo(b[..2]), ParseTwo(b[3..5]), ParseInt(b[6..|b| - 9]);
      var ho, mi, se := ParseTwo(b[|b| - 8..|b| - 6]), ParseTwo(b[|b| - 5..|b| - 3]), ParseTwo(b[|b| - 2..]);
      if mo.None? || da.None? || ye.None? || ho.None? || mi.None? || se.None? || mo.value < 1 then None
      else
        var t := LocalTime(ye.value, mo.value - 1, da.value, ho.value, mi.value, se.value);
        if ValidTime(t) then Some(t) else None
  }

  function ParseFileName(name: string): (r: Option<LocalTime>)
    ensures r.Some? ==> ValidTime(r.value)
  {
    if |name| < |Prefix| + |Extension| || name[..|Prefix|] != Prefix
       || name[|name| - |Extension|..] != Extension then None
    else ParseTimestamp(name[|Prefix|..|name| - |Extension|])
  }

  // ------------------------------------------------------------ lemmas

  lemma {:induction false} NatToStringRoundTrip(n: nat)
    ensures DigitsValue(NatToString(n)) == n
    decreases n
  {
    if n >= 10 {
      var s := NatToString(n);
      NatToStringRoundTrip(n / 10);
      assert s[..|s| - 1] == NatToString(n / 10);
    }
  }

  lemma IntToStringRoundTrip(y: int)
    ensures ParseInt(IntToString(y)) == Some(y)
  {
    var s := IntToString(y);
    if y < 0 {
      var digits := NatToString(-y);
      assert s == "-" + digits;
      assert s[1..] == digits;
      NatToStringRoundTrip(-y);
      assert ParseInt(s) == Some(0 - DigitsValue(digits));
    } else {
      assert s == NatToString(y);
      assert IsDigit(s[0]);
      NatToStringRoundTrip(y);
      assert ParseInt(s) == Some(DigitsValue(s));
    }
  }

  /** `pad(n)` for `0 <= n <= 99` is exactly two decimal digits denoting `n`. */
  lemma PadTwoDigits(n: nat)
    requires n < 100
    ensures |Pad(n)| == 2 && AllDigits(Pad(n))
    ensures ParseTwo(Pad(n)) == Some(n)
  {
    if n < 10 {
      assert Pad(n) == ['0', DigitChar(n)];
    } else {
      assert NatToString(n / 10) == [DigitChar(n / 10)];
      assert Pad(n) == [DigitChar(n / 10), DigitChar(n % 10)];
    }
  }

  lemma FrontSlices(mo: string, da: string)
    requires |mo| == 2 && |da| == 2
    ensures var f := mo + "-" + da + "-";
      |f| == 6 && f[..2] == mo && f[2] == '-' && f[3..5] == da && f[5] == '-'
  {
  }

  lemma TailSlices(ho: string, mi: string, se: string)
    requires |ho| == 2 && |mi| == 2 && |se| == 2
    ensures var t := "_" + ho + ":" + mi + ":" + se;
      && |t| == 9 && t[0] == '_' && t[1..3] == ho && t[3] == ':'
      && t[4..6] == mi && t[6] == ':' && t[7..] == se
  {
  }

  /** Where each piece of a `MM-DD-YYYY_HH:MM:SS` string sits. */
  lemma LayoutSlices(mo: string, da: string, ye: string, ho: string, mi: string, se: string)
    requires |mo| == 2 && |da| == 2 && |ho| == 2 && |mi| == 2 && |se| == 2
    ensures var b := Layout(mo, da, ye, ho, mi, se);
      var n := |b|;
      && n == 15 + |ye|
      && b[..2] == mo && b[2] == '-' && b[3..5] == da && b[5] == '-'
      && b[6..n - 9] == ye && b[n - 9] == '_'
      && b[n - 8..n - 6] == ho && b[n - 6] == ':'
      && b[n - 5..n - 3] == mi && b[n - 3] == ':' && b[n - 2..] == se
  {
    var front := mo + "-" + da + "-";
    var tail := "_" + ho + ":" + mi + ":" + se;
    FrontSlices(mo, da);
    TailSlices(ho, mi, se);
    var b := front + ye + tail;
    assert b == Layout(mo, da, ye, ho, mi, se);
    var n := |b|;
    assert b[..6] == front && b[6..n - 9] == ye && b[n - 9..] == tail;
    assert b[..2] == front[..2] && b[2] == front[2];
    assert b[3..5] == front[3..5] && b[5] == front[5];
    assert b[n - 9] == tail[0] && b[n - 6] == tail[3] && b[n - 3] == tail[6];
    assert b[n - 8..n - 6] == tail[1..3];
    assert b[n - 5..n - 3] == tail[4..6];
    assert b[n - 2..] == tail[7..];
  }

  /** Reading back a layout whose pieces each read back. */
  lemma ParseLayout(t: LocalTime, mo: string, da: string, ye: string, ho: string, mi: string, se: string)
    requires ValidTime(t)
    requires |mo| == 2 && |da| == 2 && |ho| == 2 && |mi| == 2 && |se| == 2
    requires ParseTwo(mo) == Some(t.month + 1) && ParseTwo(da) == Some(t.date)
    requires ParseInt(ye) == Some(t.year)
    requires ParseTwo(ho) == Some(t.hours) && ParseTwo(mi) == Some(t.minutes)
    requires ParseTwo(se) == Some(t.seconds)
    ensures ParseTimestamp(Layout(mo, da, ye, ho, mi, se)) == Some(t)
  {
    LayoutSlices(mo, da, ye, ho, mi, se);
  }

  /** Each field of a clock reading within range reads back from its text. */
  lemma FieldsReadBack(t: LocalTime)
    requires ValidTime(t)
    ensures |Pad(t.month + 1)| == 2 && ParseTwo(Pad(t.month + 1)) == Some(t.month + 1)
    ensures |Pad(t.date)| == 2 && ParseTwo(Pad(t.date)) == Some(t.date)
    ensures ParseInt(IntToString(t.year)) == Some(t.year)
    ensures |Pad(t.hours)| == 2 && ParseTwo(Pad(t.hours)) == Some(t.hours)
    ensures |Pad(t.minutes)| == 2 && ParseTwo(Pad(t.minutes)) == Some(t.minutes)
    ensures |Pad(t.seconds)| == 2 && ParseTwo(Pad(t.seconds)) == Some(t.seconds)
  {
    PadTwoDigits(t.month + 1);
    PadTwoDigits(t.date);
    PadTwoDigits(t.hours);
    PadTwoDigits(t.minutes);
    PadTwoDigits(t.seconds);
    IntToStringRoundTrip(t.year);
  }

  /** The timestamp can be read back: every clock reading `Date` can produce
      is recovered from the string. */
  lemma TimestampRoundTrip(t: LocalTime)
    requires ValidTime(t)
    ensures ParseTimestamp(Timestamp(t)) == Some(t)
  {
    FieldsReadBack(t);
    var mo, da, ye := Pad(t.month + 1), Pad(t.date), IntToString(t.year);
    var ho, mi, se := Pad(t.hours), Pad(t.minutes), Pad(t.seconds);
    ParseLayout(t, mo, da, ye, ho, mi, se);
    assert Timestamp(t) == Layout(mo, da, ye, ho, mi, se);
  }

  /** Where the timestamp sits in the file name. */
  lemma NameSlices(b: string)
    ensures var name := Prefix + b + Extension;
      && |name| == |Prefix| + |b| + |Extension|
      && name[..|Prefix|] == Prefix
      && name[|name| - |Extension|..] == Extension
      && name[|Prefix|..|name| - |Extension|] == b
  {
  }

  /** The file name can be read back into the clock reading it was made
      from. */
  lemma FileNameRoundTrip(t: LocalTime)
    requires ValidTime(t)
    ensures ParseFileName(FileName(t)) == Some(t)
  {
    var b := Timestamp(t);
    NameSlices(b);
    TimestampRoundTrip(t);
    assert FileName(t) == Prefix + b + Extension;
  }

  /** Two different clock readings never give the same file name. */
  lemma FileNameInjective(t1: LocalTime, t2: LocalTime)
    requires ValidTime(t1) && ValidTime(t2)
    requires FileName(t1) == FileName(t2)
    ensures t1 == t2
  {
    FileNameRoundTrip(t1);
    FileNameRoundTrip(t2);
  }
}
