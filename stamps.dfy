/**
 * Date-times as the program reads them.  `parse_timestamp` reads a record's
 * `Timestamp` ("YYYY-MM-DD HH:MM:SSZ") and `parse_filename_date` looks for the
 * first "YYYY-MM-DD-HH-MM-SSZ" in an export's file name.  Both yield a
 * six-field stamp compared field by field, or nothing when the text does not
 * name a real date-time.
 */
module Stamps {
  import opened Wrappers
  import TextOrder

  datatype Stamp = Stamp(year: nat, month: nat, day: nat, hour: nat, minute: nat, second: nat)

  /** Chronological order: `a` is strictly earlier than `b`. */
  predicate Before(a: Stamp, b: Stamp)
  {
    if a.year != b.year then a.year < b.year
    else if a.month != b.month then a.month < b.month
    else if a.day != b.day then a.day < b.day
    else if a.hour != b.hour then a.hour < b.hour
    else if a.minute != b.minute then a.minute < b.minute
    else a.second < b.second
  }

  lemma BeforeIrreflexive(a: Stamp)
    ensures !Before(a, a)
  {}

  lemma BeforeTotal(a: Stamp, b: Stamp)
    ensures a == b || Before(a, b) || Before(b, a)
  {}

  lemma BeforeTransitive(a: Stamp, b: Stamp, c: Stamp)
    requires Before(a, b) && Before(b, c)
    ensures Before(a, c)
  {}

  lemma AtMostThenBefore(a: Stamp, b: Stamp, c: Stamp)
    requires !Before(b, a) && Before(b, c)
    ensures Before(a, c)
  {}

  predicate IsLeapYear(y: nat)
  {
    y % 4 == 0 && (y % 100 != 0 || y % 400 == 0)
  }

  function DaysInMonth(y: nat, m: nat): nat
    requires 1 <= m <= 12
  {
    if m == 2 then (if IsLeapYear(y) then 29 else 28)
    else if m == 4 || m == 6 || m == 9 || m == 11 then 30
    else 31
  }

  /** The date-times Python's `datetime` can hold (years 1 to 9999). */
  predicate IsValid(st: Stamp)
  {
    && 1 <= st.year <= 9999
    && 1 <= st.month <= 12
    && 1 <= st.day <= DaysInMonth(st.year, st.month)
    && st.hour < 24
    && st.minute < 60
    && st.second < 60
  }

  // ---- The first of the latest ----

  /**
   * The position of the first of the latest among `dates`, ignoring the
   * missing ones: scanning in order, moving only to a strictly later date.
   * This is both the scan of `get_latest_file_for_char` and Python's `max`
   * with a key.
   */
  function LatestOf(dates: seq<Option<Stamp>>): (r: Option<nat>)
    ensures r.Some? ==> r.value < |dates| && dates[r.value].Some?
  {
    if dates == [] then None
    else
      var k := |dates| - 1;
      var prev := LatestOf(dates[..k]);
      if dates[k].Some? && (prev.None? || Before(dates[prev.value].value, dates[k].value))
      then Some(k)
      else prev
  }

  /** One more date either takes over, when it is strictly later than the latest so far, or changes nothing. */
  lemma LatestOfStep(dates: seq<Option<Stamp>>, i: nat)
    requires i < |dates|
    ensures var prev := LatestOf(dates[..i]);
            LatestOf(dates[..i + 1]) ==
              if dates[i].Some? && (prev.None? || Before(dates[prev.value].value, dates[i].value))
              then Some(i) else prev
  {
    assert dates[..i + 1][..i] == dates[..i];
    var prev := LatestOf(dates[..i]);
    if prev.Some? {
      assert dates[..i][prev.value] == dates[prev.value];
    }
  }

  /** No date among `dates` exactly when there is no result. */
  lemma {:induction false} LatestOfNone(dates: seq<Option<Stamp>>)
    ensures LatestOf(dates).None? <==> forall j :: 0 <= j < |dates| ==> dates[j].None?
  {
    if dates != [] {
      var k := |dates| - 1;
      LatestOfNone(dates[..k]);
      assert forall j :: 0 <= j < k ==> dates[..k][j] == dates[j];
    }
  }

  /** No date is later than the result's. */
  lemma {:induction false} LatestOfGreatest(dates: seq<Option<Stamp>>, j: nat)
    requires LatestOf(dates).Some?
    requires j < |dates| && dates[j].Some?
    ensures !Before(dates[LatestOf(dates).value].value, dates[j].value)
  {
    var k := |dates| - 1;
    var front := dates[..k];
    var prev := LatestOf(front);
    var r := LatestOf(dates).value;
    if j == k {
      if r == k {
        BeforeIrreflexive(dates[k].value);
      } else {
        assert dates[r] == front[prev.value];
        BeforeTotal(dates[r].value, dates[k].value);
      }
    } else {
      assert front[j] == dates[j];
      if prev.Some? {
        LatestOfGreatest(front, j);
        assert front[prev.value] == dates[prev.value];
        if r == k && Before(dates[k].value, dates[j].value) {
          BeforeTransitive(dates[prev.value].value, dates[k].value, dates[j].value);
        }
      } else {
        LatestOfNone(front);
      }
    }
  }

  /** Every date listed before the result's is strictly earlier: among equal dates the first listed wins. */
  lemma {:induction false} LatestOfFirstOfEqual(dates: seq<Option<Stamp>>, j: nat)
    requires LatestOf(dates).Some?
    requires j < LatestOf(dates).value && dates[j].Some?
    ensures Before(dates[j].value, dates[LatestOf(dates).value].value)
  {
    var k := |dates| - 1;
    var front := dates[..k];
    var prev := LatestOf(front);
    var r := LatestOf(dates).value;
    assert front[j] == dates[j];
    if r < k {
      LatestOfFirstOfEqual(front, j);
      assert front[r] == dates[r];
    } else if prev.None? {
      LatestOfNone(front);
    } else {
      // The last date took over from `p` because it is strictly later.
      var p := prev.value;
      assert front[p] == dates[p];
      LatestOfGreatest(front, j);
      AtMostThenBefore(dates[j].value, dates[p].value, dates[k].value);
    }
  }

  // ---- Digits ----

  predicate IsDigit(c: char)
  {
    '0' <= c <= '9'
  }

  ghost predicate AllDigits(s: string)
  {
    forall i :: 0 <= i < |s| ==> IsDigit(s[i])
  }

  function DigitValue(c: char): nat
  {
    if IsDigit(c) then c as int - '0' as int else 0
  }

  function DigitChar(k: nat): char
    requires k < 10
  {
    ('0' as int + k) as char
  }

  function Pow10(w: nat): nat
  {
    if w == 0 then 1 else 10 * Pow10(w - 1)
  }

  /** The number written by the decimal digits `s`, most significant first. */
  function Number(s: string): nat
  {
    if s == [] then 0 else Number(s[..|s| - 1]) * 10 + DigitValue(s[|s| - 1])
  }

  /** `n` written in exactly `w` decimal digits, zero-padded (the last `w` digits of `n`). */
  function Digits(n: nat, w: nat): (r: string)
    ensures |r| == w
  {
    if w == 0 then [] else Digits(n / 10, w - 1) + [DigitChar(n % 10)]
  }

  lemma {:induction false} NumberOfDigits(n: nat, w: nat)
    requires n < Pow10(w)
    ensures Number(Digits(n, w)) == n
    ensures AllDigits(Digits(n, w))
  {
    if w > 0 {
      var d := Digits(n / 10, w - 1);
      assert Digits(n, w)[..w - 1] == d;
      NumberOfDigits(n / 10, w - 1);
    }
  }

  lemma {:induction false} DigitsOfNumber(s: string)
    requires AllDigits(s)
    ensures Number(s) < Pow10(|s|)
    ensures Digits(Number(s), |s|) == s
  {
    if s != [] {
      var p := s[..|s| - 1];
      var c := s[|s| - 1];
      DigitsOfNumber(p);
      var n := Number(s);
      assert n == Number(p) * 10 + DigitValue(c);
      assert n / 10 == Number(p) && n % 10 == DigitValue(c);
      assert DigitChar(DigitValue(c)) == c;
      assert s == p + [c];
    }
  }

  /** Equal-width digit strings sort as text exactly as their numbers sort. */
  lemma {:induction false} DigitsBelow(n: nat, m: nat, w: nat)
    requires n < Pow10(w) && m < Pow10(w)
    ensures TextOrder.Below(Digits(n, w), Digits(m, w)) <==> n < m
  {
    if w > 0 {
      DigitsBelow(n / 10, m / 10, w - 1);
      var p, q := Digits(n / 10, w - 1), Digits(m / 10, w - 1);
      BelowAfterCommonWidth(p, [DigitChar(n % 10)], q, [DigitChar(m % 10)]);
      NumberOfDigits(n / 10, w - 1);
      NumberOfDigits(m / 10, w - 1);
      assert p == q <==> n / 10 == m / 10;
    }
  }

  /** Text comparison of two concatenations whose first parts have the same length. */
  lemma {:induction false} BelowAfterCommonWidth(p1: string, q1: string, p2: string, q2: string)
    requires |p1| == |p2|
    ensures TextOrder.Below(p1 + q1, p2 + q2) <==>
            TextOrder.Below(p1, p2) || (p1 == p2 && TextOrder.Below(q1, q2))
  {
    if p1 != [] {
      assert (p1 + q1)[1..] == p1[1..] + q1;
      assert (p2 + q2)[1..] == p2[1..] + q2;
      BelowAfterCommonWidth(p1[1..], q1, p2[1..], q2);
    } else {
      assert p1 + q1 == q1 && p2 + q2 == q2;
    }
  }

  // ---- Layouts ----

  /**
   * The text of a stamp with `dateTime` between the date and the time and
   * `clock` between the parts of the time, for instance "2024-05-01 13:45:00Z".
   */
  function Text(st: Stamp, dateTime: char, clock: char): (r: string)
    ensures |r| == 20
  {
    Layout(Digits(st.year, 4), Digits(st.month, 2), Digits(st.day, 2),
           Digits(st.hour, 2), Digits(st.minute, 2), Digits(st.second, 2), dateTime, clock)
  }

  /** Six fields, joined by "-", "-", `dateTime`, `clock`, `clock` and closed by "Z". */
  function Layout(y: string, mo: string, d: string, h: string, mi: string, se: string,
                  dateTime: char, clock: char): string
  {
    y + (['-'] + (mo + (['-'] + (d + ([dateTime] + (h + ([clock] + (mi + ([clock] + (se + ['Z']))))))))))
  }

  /** A record's `Timestamp`: format "%Y-%m-%d %H:%M:%SZ". */
  function TimestampText(st: Stamp): string
  {
    Text(st, ' ', ':')
  }

  /** The stamp embedded in an export's file name: "%Y-%m-%d-%H-%M-%SZ". */
  function FilenameText(st: Stamp): string
  {
    Text(st, '-', '-')
  }

  /** `w` has the shape of `Text(_, dateTime, clock)`: twenty characters, digits where the fields go. */
  predicate Fits(w: string, dateTime: char, clock: char)
  {
    && |w| == 20
    && AllDigitsIn(w, 0, 4) && w[4] == '-' && AllDigitsIn(w, 5, 7) && w[7] == '-'
    && AllDigitsIn(w, 8, 10) && w[10] == dateTime && AllDigitsIn(w, 11, 13) && w[13] == clock
    && AllDigitsIn(w, 14, 16) && w[16] == clock && AllDigitsIn(w, 17, 19) && w[19] == 'Z'
  }

  predicate AllDigitsIn(w: string, lo: nat, hi: nat)
    requires lo <= hi <= |w|
  {
    forall i :: lo <= i < hi ==> IsDigit(w[i])
  }

  /** The six numbers at the field positions of a twenty-character layout. */
  function Fields(w: string): Stamp
    requires |w| == 20
  {
    Stamp(Number(w[0..4]), Number(w[5..7]), Number(w[8..10]),
          Number(w[11..13]), Number(w[14..16]), Number(w[17..19]))
  }

  /** `parse_timestamp`: the stamp written by `s`, or None when `s` is not a valid "YYYY-MM-DD HH:MM:SSZ". */
  function ParseTimestamp(s: string): (r: Option<Stamp>)
    ensures r.Some? ==> IsValid(r.value)
  {
    if Fits(s, ' ', ':') && IsValid(Fields(s)) then Some(Fields(s)) else None
  }

  /** A "YYYY-MM-DD-HH-MM-SSZ" window begins at position `j` of `s`. */
  predicate StampAt(s: string, j: nat)
  {
    j + 20 <= |s| && Fits(s[j..j + 20], '-', '-')
  }

  /** The leftmost position at or after `from` where a "YYYY-MM-DD-HH-MM-SSZ" window begins in `s`. */
  function FindStamp(s: string, from: nat): (r: Option<nat>)
    ensures r.Some? ==> from <= r.value && StampAt(s, r.value)
    ensures r.Some? ==> forall j :: from <= j < r.value ==> !StampAt(s, j)
    ensures r.None? ==> forall j :: from <= j ==> !StampAt(s, j)
    decreases |s| - from
  {
    if from + 20 > |s| then None
    else if StampAt(s, from) then Some(from)
    else FindStamp(s, from + 1)
  }

  /**
   * `parse_filename_date`: the stamp of the first "YYYY-MM-DD-HH-MM-SSZ" in the
   * name, or None when there is none or when that first one is not a valid
   * date-time (later ones are not tried).
   */
  function ParseFilenameDate(name: string): (r: Option<Stamp>)
    ensures r.Some? ==> IsValid(r.value)
  {
    match FindStamp(name, 0)
    case None => None
    case Some(i) =>
      var st := Fields(name[i..i + 20]);
      if IsValid(st) then Some(st) else None
  }

  // ---- Round trips ----

  /** Where each field and separator of a `Layout` stands. */
  lemma LayoutSlices(y: string, mo: string, d: string, h: string, mi: string, se: string,
                     dateTime: char, clock: char)
    requires |y| == 4 && |mo| == 2 && |d| == 2 && |h| == 2 && |mi| == 2 && |se| == 2
    ensures var w := Layout(y, mo, d, h, mi, se, dateTime, clock);
      && |w| == 20
      && w[0..4] == y && w[4] == '-' && w[5..7] == mo && w[7] == '-'
      && w[8..10] == d && w[10] == dateTime && w[11..13] == h && w[13] == clock
      && w[14..16] == mi && w[16] == clock && w[17..19] == se && w[19] == 'Z'
  {
    var w := Layout(y, mo, d, h, mi, se, dateTime, clock);
    var back := se + ['Z'];
    var middle := d + ([dateTime] + (h + ([clock] + (mi + ([clock] + back)))));
    assert w[0..] == w;
    CutPair(w, 0, y, '-', mo, '-', middle);
    CutPair(w, 8, d, dateTime, h, clock, mi + ([clock] + back));
    CutPair(w, 14, mi, clock, se, 'Z', []);
  }

  /** If `w` continues at `k` with `a`, `s`, `b`, `t` and `rest`, each stands where it should. */
  lemma CutPair(w: string, k: nat, a: string, s: char, b: string, t: char, rest: string)
    requires k <= |w| && w[k..] == a + ([s] + (b + ([t] + rest)))
    ensures var j := k + |a| + 1;
      && j + |b| + 1 <= |w| && w[k..k + |a|] == a && w[k + |a|] == s
      && w[j..j + |b|] == b && w[j + |b|] == t && w[j + |b| + 1..] == rest
  {
    Cut(w, k, a, [s] + (b + ([t] + rest)));
    Cut(w, k + |a|, [s], b + ([t] + rest));
    Cut(w, k + |a| + 1, b, [t] + rest);
    Cut(w, k + |a| + 1 + |b|, [t], rest);
  }

  /** If `w` continues at `k` with `a + rest`, then `a` stands at `k` and `rest` follows it. */
  lemma Cut(w: string, k: nat, a: string, rest: string)
    requires k <= |w| && w[k..] == a + rest
    ensures k + |a| <= |w| && w[k..k + |a|] == a && w[k + |a|..] == rest
    ensures |a| == 1 ==> w[k] == a[0]
  {
    var t := w[k..];
    assert t[..|a|] == a;
    assert t[|a|..] == rest;
    assert w[k..k + |a|] == t[..|a|];
    assert w[k + |a|..] == t[|a|..];
    assert |a| == 1 ==> w[k] == t[0];
  }

  /** A twenty-character string with the separators of a layout is the layout of its own fields. */
  lemma LayoutOfSlices(w: string, dateTime: char, clock: char)
    requires |w| == 20 && w[4] == '-' && w[7] == '-' && w[10] == dateTime
    requires w[13] == clock && w[16] == clock && w[19] == 'Z'
    ensures Layout(w[0..4], w[5..7], w[8..10], w[11..13], w[14..16], w[17..19], dateTime, clock) == w
  {
    // Rebuild `w` from its end, one field or separator at a time.
    var t := w[17..19] + ['Z'];
    assert t == w[17..];
    t := [clock] + t;
    assert t == w[16..];
    t := w[14..16] + t;
    assert t == w[14..];
    t := [clock] + t;
    assert t == w[13..];
    t := w[11..13] + t;
    assert t == w[11..];
    t := [dateTime] + t;
    assert t == w[10..];
    t := w[8..10] + t;
    assert t == w[8..];
    t := ['-'] + t;
    assert t == w[7..];
    t := w[5..7] + t;
    assert t == w[5..];
    t := ['-'] + t;
    assert t == w[4..];
    t := w[0..4] + t;
    assert t == w;
  }

  /** A field written by `Digits` is all digits and reads back as its number. */
  lemma DigitsField(w: string, lo: nat, hi: nat, n: nat)
    requires lo <= hi <= |w| && n < Pow10(hi - lo) && w[lo..hi] == Digits(n, hi - lo)
    ensures AllDigitsIn(w, lo, hi) && Number(w[lo..hi]) == n
  {
    NumberOfDigits(n, hi - lo);
    forall i | lo <= i < hi ensures IsDigit(w[i]) {
      assert w[i] == w[lo..hi][i - lo];
    }
  }

  lemma FieldsOfText(st: Stamp, dateTime: char, clock: char)
    requires IsValid(st)
    ensures Fits(Text(st, dateTime, clock), dateTime, clock)
    ensures Fields(Text(st, dateTime, clock)) == st
  {
    var w := Text(st, dateTime, clock);
    TextFieldsAt(st, dateTime, clock);
    assert AllDigitsIn(w, 0, 4) && AllDigitsIn(w, 5, 7) && AllDigitsIn(w, 8, 10);
    assert AllDigitsIn(w, 11, 13) && AllDigitsIn(w, 14, 16) && AllDigitsIn(w, 17, 19);
  }

  /** The six fields of a valid stamp's text are digits that read back as its fields. */
  lemma TextFieldsAt(st: Stamp, dateTime: char, clock: char)
    requires IsValid(st)
    ensures var w := Text(st, dateTime, clock);
      && w[4] == '-' && w[7] == '-' && w[10] == dateTime && w[13] == clock && w[16] == clock && w[19] == 'Z'
      && AllDigitsIn(w, 0, 4) && Number(w[0..4]) == st.year
      && AllDigitsIn(w, 5, 7) && Number(w[5..7]) == st.month
      && AllDigitsIn(w, 8, 10) && Number(w[8..10]) == st.day
      && AllDigitsIn(w, 11, 13) && Number(w[11..13]) == st.hour
      && AllDigitsIn(w, 14, 16) && Number(w[14..16]) == st.minute
      && AllDigitsIn(w, 17, 19) && Number(w[17..19]) == st.second
  {
    var w := Text(st, dateTime, clock);
    assert Pow10(2) == 100 && Pow10(4) == 10000;
    LayoutSlices(Digits(st.year, 4), Digits(st.month, 2), Digits(st.day, 2),
                 Digits(st.hour, 2), Digits(st.minute, 2), Digits(st.second, 2), dateTime, clock);
    DigitsField(w, 0, 4, st.year);
    DigitsField(w, 5, 7, st.month);
    DigitsField(w, 8, 10, st.day);
    DigitsField(w, 11, 13, st.hour);
    DigitsField(w, 14, 16, st.minute);
    DigitsField(w, 17, 19, st.second);
  }

  lemma TextOfFields(w: string, dateTime: char, clock: char)
    requires Fits(w, dateTime, clock)
    ensures Text(Fields(w), dateTime, clock) == w
  {
    FieldDigits(w, 0, 4);
    FieldDigits(w, 5, 7);
    FieldDigits(w, 8, 10);
    FieldDigits(w, 11, 13);
    FieldDigits(w, 14, 16);
    FieldDigits(w, 17, 19);
    LayoutOfSlices(w, dateTime, clock);
  }

  /** A field of digits is written back exactly by `Digits`. */
  lemma FieldDigits(w: string, lo: nat, hi: nat)
    requires lo <= hi <= |w| && AllDigitsIn(w, lo, hi)
    ensures Digits(Number(w[lo..hi]), hi - lo) == w[lo..hi]
  {
    assert AllDigits(w[lo..hi]);
    DigitsOfNumber(w[lo..hi]);
  }

  /** Every valid date-time is read back from its canonical text. */
  lemma ParseTimestampOfText(st: Stamp)
    requires IsValid(st)
    ensures ParseTimestamp(TimestampText(st)) == Some(st)
  {
    FieldsOfText(st, ' ', ':');
  }

  /** A parsed timestamp is the canonical text of its stamp: parsing is one-to-one. */
  lemma TextOfParseTimestamp(s: string)
    requires ParseTimestamp(s).Some?
    ensures TimestampText(ParseTimestamp(s).value) == s
  {
    TextOfFields(s, ' ', ':');
  }

  lemma ParseTimestampInjective(a: string, b: string)
    requires ParseTimestamp(a).Some? && ParseTimestamp(a) == ParseTimestamp(b)
    ensures a == b
  {
    TextOfParseTimestamp(a);
    TextOfParseTimestamp(b);
  }

  /**
   * An export named `prefix + stamp + suffix`, where `prefix` holds no digit
   * (such as "Alice_items_"), is dated by that stamp.
   */
  lemma ParseFilenameDateOfName(prefix: string, st: Stamp, suffix: string)
    requires IsValid(st)
    requires forall k :: 0 <= k < |prefix| ==> !IsDigit(prefix[k])
    ensures ParseFilenameDate(prefix + FilenameText(st) + suffix) == Some(st)
  {
    var name := prefix + FilenameText(st) + suffix;
    var i := |prefix|;
    FieldsOfText(st, '-', '-');
    assert name[i..i + 20] == FilenameText(st);
    assert StampAt(name, i);
    forall j | 0 <= j < i
      ensures !StampAt(name, j)
    {
      if j + 20 <= |name| {
        assert name[j..j + 20][0] == prefix[j];
      }
    }
  }

  // ---- The text order of timestamps is their chronological order ----

  lemma {:induction false} TextBelow(x: Stamp, y: Stamp, dateTime: char, clock: char)
    requires IsValid(x) && IsValid(y)
    ensures TextOrder.Below(Text(x, dateTime, clock), Text(y, dateTime, clock)) <==> Before(x, y)
  {
    var tx, ty := Text(x, dateTime, clock), Text(y, dateTime, clock);
    // Peel the fields off one at a time; each separator is the same on both sides.
    var sx5 := Digits(x.second, 2) + ['Z'];
    var sy5 := Digits(y.second, 2) + ['Z'];
    DigitsBelow(x.second, y.second, 2);
    BelowAfterCommonWidth(Digits(x.second, 2), ['Z'], Digits(y.second, 2), ['Z']);
    NumberOfDigits(x.second, 2);
    NumberOfDigits(y.second, 2);
    assert TextOrder.Below(sx5, sy5) <==> x.second < y.second;
    var sx4 := Digits(x.minute, 2) + ([clock] + sx5);
    var sy4 := Digits(y.minute, 2) + ([clock] + sy5);
    PeelField(x.minute, y.minute, clock, sx5, sy5);
    var sx3 := Digits(x.hour, 2) + ([clock] + sx4);
    var sy3 := Digits(y.hour, 2) + ([clock] + sy4);
    PeelField(x.hour, y.hour, clock, sx4, sy4);
    var sx2 := Digits(x.day, 2) + ([dateTime] + sx3);
    var sy2 := Digits(y.day, 2) + ([dateTime] + sy3);
    PeelField(x.day, y.day, dateTime, sx3, sy3);
    var sx1 := Digits(x.month, 2) + (['-'] + sx2);
    var sy1 := Digits(y.month, 2) + (['-'] + sy2);
    PeelField(x.month, y.month, '-', sx2, sy2);
    DigitsBelow(x.year, y.year, 4);
    NumberOfDigits(x.year, 4);
    NumberOfDigits(y.year, 4);
    BelowAfterCommonWidth(Digits(x.year, 4), ['-'] + sx1, Digits(y.year, 4), ['-'] + sy1);
    BelowAfterCommonWidth(['-'], sx1, ['-'], sy1);
    assert tx == Digits(x.year, 4) + (['-'] + sx1);
    assert ty == Digits(y.year, 4) + (['-'] + sy1);
  }

  /** One two-digit field followed by a common separator and the rest. */
  lemma PeelField(n: nat, m: nat, sep: char, rx: string, ry: string)
    requires n < 100 && m < 100
    ensures TextOrder.Below(Digits(n, 2) + ([sep] + rx), Digits(m, 2) + ([sep] + ry)) <==>
            n < m || (n == m && TextOrder.Below(rx, ry))
  {
    DigitsBelow(n, m, 2);
    NumberOfDigits(n, 2);
    NumberOfDigits(m, 2);
    BelowAfterCommonWidth(Digits(n, 2), [sep] + rx, Digits(m, 2), [sep] + ry);
    BelowAfterCommonWidth([sep], rx, [sep], ry);
  }

  /**
   * For timestamps that parse, the store's text order (SQLite's `ORDER BY
   * timestamp`) agrees with the chronological order of `parse_timestamp`.
   */
  lemma TextOrderIsChronological(a: string, b: string)
    requires ParseTimestamp(a).Some? && ParseTimestamp(b).Some?
    ensures TextOrder.Below(a, b) <==> Before(ParseTimestamp(a).value, ParseTimestamp(b).value)
  {
    TextOfParseTimestamp(a);
    TextOfParseTimestamp(b);
    TextBelow(ParseTimestamp(a).value, ParseTimestamp(b).value, ' ', ':');
  }
}
