/** Stored timestamps are text; this module relates comparing the text with comparing the instants. */
module Timestamps {
  import opened Decimal

  /** A UTC instant by its calendar fields; for valid fields chronological order is field-by-field order. */
  datatype Instant = Instant(year: nat, month: nat, day: nat, hour: nat, minute: nat, second: nat, nano: nat)

  ghost predicate ValidInstant(t: Instant) {
    && t.year < 10000 && 1 <= t.month <= 12 && 1 <= t.day <= 31
    && t.hour < 24 && t.minute < 60 && t.second < 60 && t.nano < 1_000_000_000
  }

  function SecondFields(t: Instant): seq<nat> {
    [t.year, t.month, t.day, t.hour, t.minute, t.second]
  }

  /** Lexicographic order on sequences of numbers. */
  predicate FieldsLess(a: seq<nat>, b: seq<nat>) {
    b != [] && (a == [] || a[0] < b[0] || (a[0] == b[0] && FieldsLess(a[1..], b[1..])))
  }

  predicate Earlier(t: Instant, u: Instant) {
    FieldsLess(SecondFields(t) + [t.nano], SecondFields(u) + [u.nano])
  }

  /** Byte-wise text order, as the database compares stored text. */
  predicate TextLess(s: string, t: string) {
    t != [] && (s == [] || s[0] < t[0] || (s[0] == t[0] && TextLess(s[1..], t[1..])))
  }

  const WIDTHS: seq<nat> := [4, 2, 2, 2, 2, 2]
  const SEPARATORS: seq<string> := ["-", "-", "T", ":", ":", ""]

  /** Zero-padded fields with their separators. */
  function FieldText(values: seq<nat>, widths: seq<nat>, separators: seq<string>): string
    requires |values| == |widths| == |separators|
  {
    if values == [] then ""
    else Padded(values[0], widths[0]) + (separators[0] + FieldText(values[1..], widths[1..], separators[1..]))
  }

  function TrimZeros(s: string): string {
    if s != [] && s[|s| - 1] == '0' then TrimZeros(s[..|s| - 1]) else s
  }

  /** Nanoseconds without trailing zeros, and nothing at all for a whole second. */
  function Fraction(nano: nat): string {
    if nano == 0 then "" else "." + TrimZeros(Padded(nano, 9))
  }

  function SecondText(t: Instant): string {
    FieldText(SecondFields(t), WIDTHS, SEPARATORS)
  }

  /** RFC 3339 with the shortest fraction. */
  function Text(t: Instant): string {
    SecondText(t) + (Fraction(t.nano) + "Z")
  }

  // ----- what the text says -----

  /** The text is YYYY-MM-DDTHH:MM:SS, the fraction, and Z. */
  lemma TextReads(t: Instant)
    ensures Text(t) == DateText(t.year, t.month, t.day) + ("T" + ClockText(t.hour, t.minute, t.second))
                       + (Fraction(t.nano) + "Z")
  {
    var rest := [t.hour, t.minute, t.second];
    DateReads(t.year, t.month, t.day, rest);
    ClockReads(t.hour, t.minute, t.second);
    assert SecondFields(t) == [t.year, t.month, t.day] + rest;
  }

  function DateText(year: nat, month: nat, day: nat): string {
    Padded(year, 4) + ("-" + (Padded(month, 2) + ("-" + Padded(day, 2))))
  }

  function ClockText(hour: nat, minute: nat, second: nat): string {
    Padded(hour, 2) + (":" + (Padded(minute, 2) + (":" + Padded(second, 2))))
  }

  lemma DateReads(year: nat, month: nat, day: nat, rest: seq<nat>)
    requires |rest| == 3
    ensures FieldText([year, month, day] + rest, WIDTHS, SEPARATORS)
         == DateText(year, month, day) + ("T" + FieldText(rest, [2, 2, 2], [":", ":", ""]))
  {
    var clock := FieldText(rest, [2, 2, 2], [":", ":", ""]);
    YearFirst(year, [month, day] + rest);
    MonthThenDay(month, day, rest);
    assert [year, month, day] + rest == [year] + ([month, day] + rest);
    Regroup(Padded(year, 4), Padded(month, 2), Padded(day, 2), "T" + clock);
  }

  lemma YearFirst(year: nat, values: seq<nat>)
    requires |values| == 5
    ensures FieldText([year] + values, WIDTHS, SEPARATORS)
         == Padded(year, 4) + ("-" + FieldText(values, [2, 2, 2, 2, 2], ["-", "T", ":", ":", ""]))
  {
    FieldReads(year, values, 4, [2, 2, 2, 2, 2], "-", ["-", "T", ":", ":", ""]);
    assert WIDTHS == [4] + [2, 2, 2, 2, 2] && SEPARATORS == ["-"] + ["-", "T", ":", ":", ""];
  }

  lemma MonthThenDay(month: nat, day: nat, rest: seq<nat>)
    requires |rest| == 3
    ensures FieldText([month, day] + rest, [2, 2, 2, 2, 2], ["-", "T", ":", ":", ""])
         == Padded(month, 2) + ("-" + (Padded(day, 2) + ("T" + FieldText(rest, [2, 2, 2], [":", ":", ""]))))
  {
    FieldReads(month, [day] + rest, 2, [2, 2, 2, 2], "-", ["T", ":", ":", ""]);
    FieldReads(day, rest, 2, [2, 2, 2], "T", [":", ":", ""]);
    assert [month, day] + rest == [month] + ([day] + rest);
    assert [2, 2, 2, 2, 2] == [2] + [2, 2, 2, 2] && ["-", "T", ":", ":", ""] == ["-"] + ["T", ":", ":", ""];
    assert [2, 2, 2, 2] == [2] + [2, 2, 2] && ["T", ":", ":", ""] == ["T"] + [":", ":", ""];
  }

  lemma Regroup(a: string, b: string, c: string, rest: string)
    ensures a + ("-" + (b + ("-" + (c + rest)))) == a + ("-" + (b + ("-" + c))) + rest
  {
    assert "-" + (c + rest) == ("-" + c) + rest;
    assert b + (("-" + c) + rest) == (b + ("-" + c)) + rest;
    assert "-" + ((b + ("-" + c)) + rest) == ("-" + (b + ("-" + c))) + rest;
  }

  lemma ClockReads(hour: nat, minute: nat, second: nat)
    ensures FieldText([hour, minute, second], [2, 2, 2], [":", ":", ""]) == ClockText(hour, minute, second)
  {
    FieldReads(hour, [minute, second], 2, [2, 2], ":", [":", ""]);
    FieldReads(minute, [second], 2, [2], ":", [""]);
    FieldReads(second, [], 2, [], "", []);
    assert [hour] + [minute, second] == [hour, minute, second] && [minute] + [second] == [minute, second];
    assert [second] + [] == [second] && [2] + [2, 2] == [2, 2, 2] && [2] + [2] == [2, 2] && [2] + [] == [2];
    assert [":"] + [":", ""] == [":", ":", ""] && [":"] + [""] == [":", ""] && [""] + [] == [""];
    assert Padded(second, 2) + ("" + "") == Padded(second, 2);
  }

  lemma FieldReads(value: nat, values: seq<nat>, width: nat, widths: seq<nat>, separator: string,
      separators: seq<string>)
    requires |values| == |widths| == |separators|
    ensures FieldText([value] + values, [width] + widths, [separator] + separators)
         == Padded(value, width) + (separator + FieldText(values, widths, separators))
  {
    assert ([value] + values)[1..] == values && ([width] + widths)[1..] == widths;
    assert ([separator] + separators)[1..] == separators;
  }

  predicate AllZeros(s: string) {
    forall i :: 0 <= i < |s| ==> s[i] == '0'
  }

  /** A dot and the nine digits of the nanoseconds up to the last that is not 0; a whole second has no fraction. */
  lemma FractionReads(nano: nat) returns (digits: string, zeros: string)
    requires 0 < nano < 1_000_000_000
    ensures Fraction(nano) == "." + digits && Padded(nano, 9) == digits + zeros
    ensures AllZeros(zeros) && digits != "" && digits[|digits| - 1] != '0'
    ensures Fraction(0) == ""
  {
    digits, zeros := TrimSplits(Padded(nano, 9));
    var i := SomeDigit(nano);
    assert (digits + zeros)[i] != '0';
  }

  lemma SomeDigit(nano: nat) returns (i: nat)
    requires 0 < nano < 1_000_000_000
    ensures i < 9 && Padded(nano, 9)[i] != '0'
  {
    BillionIs();
    PaddedDenotes(nano, 9);
    assert !AllZeros(Padded(nano, 9)) by {
      if AllZeros(Padded(nano, 9)) { ZerosDenote(Padded(nano, 9)); }
    }
    i :| i < 9 && Padded(nano, 9)[i] != '0';
  }

  lemma {:induction false} TrimSplits(s: string) returns (digits: string, zeros: string)
    ensures digits == TrimZeros(s) && s == digits + zeros
    ensures AllZeros(zeros) && (digits != "" ==> digits[|digits| - 1] != '0')
    decreases |s|
  {
    digits, zeros := s, "";
    if s != [] && s[|s| - 1] == '0' {
      digits, zeros := TrimSplits(s[..|s| - 1]);
      zeros := zeros + ['0'];
    }
  }

  lemma {:induction false} ZerosDenote(s: string)
    requires AllZeros(s) && forall c :: c in s ==> IsDigit(c)
    ensures Value(s) == 0
    decreases |s|
  {
    if s != [] { ZerosDenote(s[..|s| - 1]); }
  }

  lemma BillionIs()
    ensures Power10(9) == 1_000_000_000
  {
    assert Power10(3) == 1000 && Power10(6) == 1000 * Power10(3) && Power10(9) == 1000 * Power10(6);
  }

  // ----- text order of zero-padded fields -----

  lemma {:induction false} EqualPrefix(p: string, s: string, t: string)
    ensures TextLess(p + s, p + t) == TextLess(s, t)
    decreases |p|
  {
    if p == [] {
      assert p + s == s && p + t == t;
    } else {
      assert (p + s)[1..] == p[1..] + s && (p + t)[1..] == p[1..] + t;
      EqualPrefix(p[1..], s, t);
    }
  }

  /** Between strings whose heads have equal length, the heads decide unless they are equal. */
  lemma {:induction false} HeadsDecide(p: string, q: string, s: string, t: string)
    requires |p| == |q|
    ensures TextLess(p + s, q + t) == if p == q then TextLess(s, t) else TextLess(p, q)
    decreases |p|
  {
    if p == q {
      EqualPrefix(p, s, t);
    } else {
      assert (p + s)[1..] == p[1..] + s && (q + t)[1..] == q[1..] + t;
      assert p == [p[0]] + p[1..] && q == [q[0]] + q[1..];
      if p[0] == q[0] { HeadsDecide(p[1..], q[1..], s, t); }
    }
  }

  lemma {:induction false} PaddedOrder(m: nat, n: nat, width: nat)
    requires m < Power10(width) && n < Power10(width)
    ensures TextLess(Padded(m, width), Padded(n, width)) <==> m < n
    ensures Padded(m, width) == Padded(n, width) <==> m == n
    decreases width
  {
    PaddedDenotes(m, width);
    PaddedDenotes(n, width);
    if width > 0 {
      PaddedOrder(m / 10, n / 10, width - 1);
      HeadsDecide(Padded(m / 10, width - 1), Padded(n / 10, width - 1), [Digit(m % 10)], [Digit(n % 10)]);
      LastDigitDecides(m, n);
    }
  }

  lemma LastDigitDecides(m: nat, n: nat)
    ensures TextLess([Digit(m % 10)], [Digit(n % 10)]) <==> m % 10 < n % 10
    ensures m < n <==> m / 10 < n / 10 || (m / 10 == n / 10 && m % 10 < n % 10)
  {
  }

  lemma {:induction false} FieldTextOrder(a: seq<nat>, b: seq<nat>, widths: seq<nat>, separators: seq<string>)
    requires |a| == |b| == |widths| == |separators|
    requires forall i :: 0 <= i < |a| ==> a[i] < Power10(widths[i]) && b[i] < Power10(widths[i])
    ensures var s, t := FieldText(a, widths, separators), FieldText(b, widths, separators);
            && |s| == |t|
            && (TextLess(s, t) <==> FieldsLess(a, b))
            && (s == t <==> a == b)
    decreases |a|
  {
    if a != [] {
      FieldTextOrder(a[1..], b[1..], widths[1..], separators[1..]);
      var p, q := Padded(a[0], widths[0]), Padded(b[0], widths[0]);
      var s, t := FieldText(a[1..], widths[1..], separators[1..]), FieldText(b[1..], widths[1..], separators[1..]);
      PaddedOrder(a[0], b[0], widths[0]);
      HeadsDecide(p, q, separators[0] + s, separators[0] + t);
      EqualPrefix(separators[0], s, t);
      SameHeadSameTail(p, q, separators[0], s, t);
      assert a == b <==> a[0] == b[0] && a[1..] == b[1..] by {
        assert a == [a[0]] + a[1..] && b == [b[0]] + b[1..];
      }
    }
  }

  lemma SameHeadSameTail(p: string, q: string, separator: string, s: string, t: string)
    requires |p| == |q| && |s| == |t|
    ensures p + (separator + s) == q + (separator + t) <==> p == q && s == t
  {
    var l, r := p + (separator + s), q + (separator + t);
    assert l[..|p|] == p && r[..|p|] == q;
    assert l[|p| + |separator|..] == s && r[|p| + |separator|..] == t;
  }

  lemma SecondTextOrder(t: Instant, u: Instant)
    requires ValidInstant(t) && ValidInstant(u)
    ensures |SecondText(t)| == |SecondText(u)|
    ensures TextLess(SecondText(t), SecondText(u)) <==> FieldsLess(SecondFields(t), SecondFields(u))
    ensures SecondText(t) == SecondText(u) <==> SecondFields(t) == SecondFields(u)
  {
    assert Power10(2) == 100 && Power10(4) == 10000 by { assert Power10(1) == 10 && Power10(3) == 1000; }
    FieldTextOrder(SecondFields(t), SecondFields(u), WIDTHS, SEPARATORS);
  }

  // ----- comparing with a whole-second bound -----

  ghost predicate WholeSecond(b: Instant) {
    ValidInstant(b) && b.nano == 0
  }

  /** After `b` but within the same second. */
  ghost predicate InFirstSecondAfter(t: Instant, b: Instant) {
    SecondFields(t) == SecondFields(b) && t.nano > 0
  }

  /**
   * A stored text is below a whole-second bound iff its second is earlier, or equal with a fraction: '.' sorts
   * before 'Z'.
   */
  lemma TextBelowBound(t: Instant, b: Instant)
    requires ValidInstant(t) && WholeSecond(b)
    ensures TextLess(Text(t), Text(b))
       <==> FieldsLess(SecondFields(t), SecondFields(b)) || InFirstSecondAfter(t, b)
  {
    SecondTextOrder(t, b);
    FieldsLessIsStrict(SecondFields(t));
    HeadsDecide(SecondText(t), SecondText(b), Fraction(t.nano) + "Z", Fraction(b.nano) + "Z");
    var tail := Fraction(t.nano) + "Z";
    assert Fraction(b.nano) + "Z" == "Z";
    if t.nano == 0 { assert tail == "Z"; } else { assert tail[0] == '.'; }
  }

  /** The instant order against such a bound, which the text order agrees with except inside the bound's own second. */
  lemma EarlierThanBound(t: Instant, b: Instant)
    requires ValidInstant(t) && WholeSecond(b)
    ensures Earlier(t, b) <==> FieldsLess(SecondFields(t), SecondFields(b))
  {
    LastFieldDecides(SecondFields(t), SecondFields(b), t.nano, 0);
  }

  lemma {:induction false} LastFieldDecides(a: seq<nat>, b: seq<nat>, x: nat, y: nat)
    requires |a| == |b|
    ensures FieldsLess(a + [x], b + [y]) <==> FieldsLess(a, b) || (a == b && x < y)
    decreases |a|
  {
    if a == [] {
      assert a + [x] == [x] && b + [y] == [y];
    } else {
      assert (a + [x])[1..] == a[1..] + [x] && (b + [y])[1..] == b[1..] + [y];
      LastFieldDecides(a[1..], b[1..], x, y);
      assert a == [a[0]] + a[1..] && b == [b[0]] + b[1..];
    }
  }

  lemma {:induction false} FieldsLessIsStrict(a: seq<nat>)
    ensures !FieldsLess(a, a)
    decreases |a|
  {
    if a != [] { FieldsLessIsStrict(a[1..]); }
  }

  lemma {:induction false} FieldsLessIsTransitive(a: seq<nat>, b: seq<nat>, c: seq<nat>)
    requires FieldsLess(a, b) && FieldsLess(b, c)
    ensures FieldsLess(a, c)
    decreases |a|
  {
    if a != [] && a[0] == b[0] == c[0] { FieldsLessIsTransitive(a[1..], b[1..], c[1..]); }
  }

  lemma {:induction false} FieldsLessIsAsymmetric(a: seq<nat>, b: seq<nat>)
    requires FieldsLess(a, b)
    ensures !FieldsLess(b, a)
    decreases |a|
  {
    if a != [] && a[0] == b[0] { FieldsLessIsAsymmetric(a[1..], b[1..]); }
  }

  // ----- weekly windows -----

  /** The condition the weekly queries put on the stored text. */
  predicate InTextWindow(text: string, start: string, end: string) {
    !TextLess(text, start) && TextLess(text, end)
  }

  ghost predicate InWindow(t: Instant, start: Instant, end: Instant) {
    !Earlier(t, start) && Earlier(t, end)
  }

  /**
   * The text query selects exactly the instants of the window, with one exception that is always wrong: an instant
   * strictly inside the first second after either bound is counted in the window before.
   */
  lemma TextWindowIsExactWhen(t: Instant, start: Instant, end: Instant)
    requires ValidInstant(t) && WholeSecond(start) && WholeSecond(end) && Earlier(start, end)
    ensures (InTextWindow(Text(t), Text(start), Text(end)) <==> InWindow(t, start, end))
       <==> !InFirstSecondAfter(t, start) && !InFirstSecondAfter(t, end)
  {
    TextBelowBound(t, start);
    TextBelowBound(t, end);
    EarlierThanBound(t, start);
    EarlierThanBound(t, end);
    EarlierThanBound(start, end);
    FieldsLessIsAsymmetric(SecondFields(start), SecondFields(end));
    FieldsLessIsStrict(SecondFields(t));
    if FieldsLess(SecondFields(t), SecondFields(start)) {
      FieldsLessIsTransitive(SecondFields(t), SecondFields(start), SecondFields(end));
    }
  }

  /** A postcard half a second into Monday is not found in its own week. */
  lemma HalfASecondIntoTheWeekIsMissed()
    ensures var start, end := Instant(2026, 7, 27, 0, 0, 0, 0), Instant(2026, 8, 3, 0, 0, 0, 0);
            var t := start.(nano := 500_000_000);
            InWindow(t, start, end) && !InTextWindow(Text(t), Text(start), Text(end))
  {
    var start, end := Instant(2026, 7, 27, 0, 0, 0, 0), Instant(2026, 8, 3, 0, 0, 0, 0);
    var t := start.(nano := 500_000_000);
    TextBelowBound(t, start);
    EarlierThanBound(t, start);
    EarlierThanBound(t, end);
    FieldsLessIsStrict(SecondFields(t));
    LaterMonth(t, end);
  }

  lemma LaterMonth(t: Instant, u: Instant)
    requires t.year == u.year && t.month < u.month
    ensures FieldsLess(SecondFields(t), SecondFields(u))
  {
    assert SecondFields(t)[1..][0] == t.month && SecondFields(u)[1..][0] == u.month;
    assert FieldsLess(SecondFields(t)[1..], SecondFields(u)[1..]);
  }

  /** Bounds in time order. */
  ghost predicate Consecutive(bounds: seq<Instant>) {
    && (forall i :: 0 <= i < |bounds| ==> WholeSecond(bounds[i]))
    && (forall i :: 0 < i < |bounds| ==> Earlier(bounds[i - 1], bounds[i]))
  }

  /** The text windows between consecutive bounds that count an instant. */
  ghost function Counting(t: Instant, bounds: seq<Instant>): nat
    decreases |bounds|
  {
    if |bounds| < 2 then 0
    else Counting(t, bounds[..|bounds| - 1])
         + if InTextWindow(Text(t), Text(bounds[|bounds| - 2]), Text(bounds[|bounds| - 1])) then 1 else 0
  }

  /** Text windows neither overlap nor leave a gap: each stored text between the outer bounds is in exactly one. */
  lemma {:induction false} TextWindowsPartition(t: Instant, bounds: seq<Instant>)
    requires ValidInstant(t) && bounds != [] && Consecutive(bounds)
    ensures Counting(t, bounds)
         == if InTextWindow(Text(t), Text(bounds[0]), Text(bounds[|bounds| - 1])) then 1 else 0
    ensures TextLess(Text(t), Text(bounds[0])) ==> TextLess(Text(t), Text(bounds[|bounds| - 1]))
    decreases |bounds|
  {
    if |bounds| >= 2 {
      var init := bounds[..|bounds| - 1];
      assert forall i :: 0 <= i < |init| ==> init[i] == bounds[i];
      TextWindowsPartition(t, init);
      if TextLess(Text(t), Text(bounds[|bounds| - 2])) {
        BelowLaterBound(t, bounds[|bounds| - 2], bounds[|bounds| - 1]);
      }
    }
  }

  lemma BelowLaterBound(t: Instant, b: Instant, later: Instant)
    requires ValidInstant(t) && WholeSecond(b) && WholeSecond(later) && Earlier(b, later)
    requires TextLess(Text(t), Text(b))
    ensures TextLess(Text(t), Text(later))
  {
    TextBelowBound(t, b);
    TextBelowBound(t, later);
    EarlierThanBound(b, later);
    if FieldsLess(SecondFields(t), SecondFields(b)) {
      FieldsLessIsTransitive(SecondFields(t), SecondFields(b), SecondFields(later));
    }
  }
}
