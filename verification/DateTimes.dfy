/**
 The dateTime canonicaliser: every accepted spelling of an instant rewritten to one of fixed
 width, so that comparing strings compares times.
 */
module DateTimes {
  import opened Wrappers
  import opened Collections
  import opened Lexicographic
  import opened Digits

  datatype DateError = NotADateTime | OffsetNotUtc | TooPrecise

  /** A run of digits of a given width, and the text that must follow it. */
  datatype Slot = Slot(width: nat, after: string)

  const WHOLE_SECONDS := [Slot(4, "-"), Slot(2, "-"), Slot(2, "T"), Slot(2, ":"), Slot(2, ":"), Slot(2, "")]

  // ---------------------------------------------------------------
  // Reading
  // ---------------------------------------------------------------

  datatype Fields = Fields(digits: seq<string>, rest: string)

  /** The digits in each slot, and what is left of the input. */
  function ReadSlots(s: string, slots: seq<Slot>): Option<Fields>
    decreases |slots|
  {
    if slots == [] then Some(Fields([], s))
    else
      var width, end := slots[0].width, slots[0].width + |slots[0].after|;
      if |s| < end || !AllDigits(s[..width]) || s[width..end] != slots[0].after then None
      else
        match ReadSlots(s[end..], slots[1..])
        case None => None
        case Some(more) => Some(Fields([s[..width]] + more.digits, more.rest))
  }

  function DigitRun(s: string): (n: nat)
    ensures n <= |s| && AllDigits(s[..n]) && (n < |s| ==> !IsDigit(s[n]))
  {
    if s == "" || !IsDigit(s[0]) then 0
    else
      var n := DigitRun(s[1..]);
      assert s[..n + 1] == [s[0]] + s[1..][..n];
      n + 1
  }

  datatype Tail = Tail(fraction: string, zone: string)

  predicate IsZone(s: string) {
    || s == "" || s == "Z"
    || (|s| == 6 && (s[0] == '+' || s[0] == '-') && s[3] == ':' && AllDigits(s[1..3]) && AllDigits(s[4..]))
  }

  /** An optional fraction of at least one digit, then an optional zone. */
  function ReadTail(s: string): Option<Tail> {
    if s != "" && s[0] == '.' then
      var n := DigitRun(s[1..]);
      if n > 0 && IsZone(s[1 + n..]) then Some(Tail(s[1..][..n], s[1 + n..])) else None
    else if IsZone(s) then Some(Tail("", s))
    else None
  }

  datatype Reading = Reading(whole: seq<string>, tail: Tail)

  /** The end of the pattern also matches just before one final newline. */
  function WithoutNewline(s: string): string {
    if s != "" && s[|s| - 1] == '\n' then s[..|s| - 1] else s
  }

  function Read(s: string): Option<Reading> {
    match ReadSlots(WithoutNewline(s), WHOLE_SECONDS)
    case None => None
    case Some(fields) =>
      match ReadTail(fields.rest)
      case None => None
      case Some(tail) => Some(Reading(fields.digits, tail))
  }

  // ---------------------------------------------------------------
  // Rewriting
  // ---------------------------------------------------------------

  function Layout(digits: seq<string>, slots: seq<Slot>): string
    requires |digits| == |slots|
    decreases |slots|
  {
    if slots == [] then "" else digits[0] + slots[0].after + Layout(digits[1..], slots[1..])
  }

  function PadTo3(s: string): string {
    if |s| >= 3 then s else s + seq(3 - |s|, _ => '0')
  }

  predicate AllZeros(s: string) {
    forall k :: 0 <= k < |s| ==> s[k] == '0'
  }

  function CanonicalDt(s: string): Result<string, DateError> {
    match Read(s)
    case None => Err(NotADateTime)
    case Some(r) =>
      if r.tail.zone != "" && r.tail.zone != "Z" && r.tail.zone != "+00:00" && r.tail.zone != "-00:00" then
        Err(OffsetNotUtc)
      else
        var ms := PadTo3(r.tail.fraction);
        if !AllZeros(ms[3..]) then Err(TooPrecise)
        else
          ReadingShape(s);
          Ok(Layout(r.whole, WHOLE_SECONDS) + ("." + ms[..3] + "Z"))
  }

  // ---------------------------------------------------------------
  // What was read
  // ---------------------------------------------------------------

  /** Digits of the slots' widths. */
  ghost predicate Fits(digits: seq<string>, slots: seq<Slot>) {
    && |digits| == |slots|
    && forall k :: 0 <= k < |slots| ==> |digits[k]| == slots[k].width && AllDigits(digits[k])
  }

  lemma {:induction false} ReadSlotsFits(s: string, slots: seq<Slot>)
    requires ReadSlots(s, slots).Some?
    ensures Fits(ReadSlots(s, slots).value.digits, slots)
    decreases |slots|
  {
    if slots != [] {
      ReadSlotsFits(s[slots[0].width + |slots[0].after|..], slots[1..]);
    }
  }

  lemma ReadingShape(s: string)
    requires Read(s).Some?
    ensures Fits(Read(s).value.whole, WHOLE_SECONDS)
    ensures AllDigits(Read(s).value.tail.fraction) && IsZone(Read(s).value.tail.zone)
  {
    ReadSlotsFits(WithoutNewline(s), WHOLE_SECONDS);
  }

  /** Reading a layout gives back the digits laid out. */
  lemma {:induction false} ReadLayout(digits: seq<string>, slots: seq<Slot>, rest: string)
    requires Fits(digits, slots)
    ensures ReadSlots(Layout(digits, slots) + rest, slots) == Some(Fields(digits, rest))
    decreases |slots|
  {
    if slots == [] {
      assert Layout(digits, slots) + rest == rest;
    } else {
      var more := Layout(digits[1..], slots[1..]) + rest;
      ReadLayout(digits[1..], slots[1..], rest);
      assert Layout(digits, slots) + rest == digits[0] + slots[0].after + more;
      ReadOneSlot(digits[0], slots, more);
      assert digits == [digits[0]] + digits[1..];
    }
  }

  lemma ReadOneSlot(first: string, slots: seq<Slot>, more: string)
    requires slots != [] && |first| == slots[0].width && AllDigits(first)
    ensures ReadSlots(first + slots[0].after + more, slots)
         == match ReadSlots(more, slots[1..])
            case None => None
            case Some(fields) => Some(Fields([first] + fields.digits, fields.rest))
  {
    var s := first + slots[0].after + more;
    var width, end := slots[0].width, slots[0].width + |slots[0].after|;
    assert s[..width] == first && s[width..end] == slots[0].after && s[end..] == more;
  }

  // ---------------------------------------------------------------
  // The instant a string denotes
  // ---------------------------------------------------------------

  /**
   Year, month, day, hour, minute and second as they read in a zone, that zone's distance from UTC in
   minutes, east counted positive, and the fraction of a second beyond the seconds.
   */
  datatype Instant = Instant(whole: seq<nat>, offset: int, fraction: real)

  /** No zone, and `Z`, are UTC; any other is a sign, hours and minutes. */
  ghost function Offset(zone: string): int
    requires IsZone(zone)
  {
    if zone == "" || zone == "Z" then 0
    else
      var minutes := 60 * Decimal(zone[1..3]) + Decimal(zone[4..]);
      if zone[0] == '-' then -minutes else minutes
  }

  ghost function Numbers(digits: seq<string>): (r: seq<nat>)
    requires forall k :: 0 <= k < |digits| ==> AllDigits(digits[k])
    ensures |r| == |digits| && forall k :: 0 <= k < |r| ==> r[k] == Decimal(digits[k])
  {
    seq(|digits|, k requires 0 <= k < |digits| => Decimal(digits[k]))
  }

  ghost function Fraction(s: string): real
    requires AllDigits(s)
  {
    Decimal(s) as real / Pow10(|s|) as real
  }

  ghost function InstantOf(s: string): Instant
    requires Read(s).Some?
  {
    ReadingShape(s);
    var r := Read(s).value;
    Instant(Numbers(r.whole), Offset(r.tail.zone), Fraction(r.tail.fraction))
  }

  /** The first unit in which the two differ decides. */
  ghost predicate Earlier(a: seq<nat>, b: seq<nat>)
    requires |a| == |b|
  {
    a != [] && (a[0] < b[0] || (a[0] == b[0] && Earlier(a[1..], b[1..])))
  }

  /** Of two instants read in the same zone. */
  ghost predicate NotAfter(a: Instant, b: Instant)
    requires |a.whole| == |b.whole| && a.offset == b.offset
  {
    Earlier(a.whole, b.whole) || (a.whole == b.whole && a.fraction <= b.fraction)
  }

  // ---------------------------------------------------------------
  // The fraction is kept exactly
  // ---------------------------------------------------------------

  lemma {:induction false} ZerosAreNothing(s: string)
    requires AllZeros(s)
    ensures AllDigits(s) && Decimal(s) == 0
  {
    if s != "" {
      ZerosAreNothing(s[..|s| - 1]);
    }
  }

  lemma {:induction false} Pow10Adds(m: nat, n: nat)
    ensures Pow10(m + n) == Pow10(m) * Pow10(n)
  {
    if m > 0 {
      Pow10Adds(m - 1, n);
    }
  }

  lemma {:induction false} CastOfProduct(a: nat, b: nat)
    ensures (a * b) as real == a as real * b as real
  {
    if b > 0 {
      CastOfProduct(a, b - 1);
      assert a * b == a * (b - 1) + a;
      assert a as real * b as real == a as real * (b - 1) as real + a as real;
    }
  }

  lemma CommonFactor(d: nat, p: nat, q: nat)
    requires p > 0 && q > 0
    ensures p * q > 0 && (d * q) as real / (p * q) as real == d as real / p as real
  {
    CastOfProduct(d, q);
    CastOfProduct(p, q);
    var x := d as real / p as real;
    assert x * p as real == d as real;
    assert d as real * q as real == x * (p as real * q as real);
  }

  /** Zeros written after a fraction do not change it. */
  lemma TrailingZeros(s: string, zeros: string)
    requires AllDigits(s) && AllZeros(zeros)
    ensures AllDigits(s + zeros) && Fraction(s + zeros) == Fraction(s)
  {
    ZerosAreNothing(zeros);
    DecimalAppend(s, zeros);
    Pow10Adds(|s|, |zeros|);
    CommonFactor(Decimal(s), Pow10(|s|), Pow10(|zeros|));
  }

  lemma MillisecondsAreExact(fraction: string)
    requires AllDigits(fraction) && AllZeros(PadTo3(fraction)[3..])
    ensures var ms := PadTo3(fraction)[..3];
      |ms| == 3 && AllDigits(ms) && Fraction(ms) == Fraction(fraction)
  {
    var padded := PadTo3(fraction);
    if |fraction| < 3 {
      TrailingZeros(fraction, seq(3 - |fraction|, _ => '0'));
      assert padded[..3] == padded;
    } else {
      assert fraction == padded[..3] + padded[3..];
      TrailingZeros(padded[..3], padded[3..]);
    }
  }

  lemma {:induction false} NothingIsZeros(s: string)
    requires AllDigits(s) && Decimal(s) == 0
    ensures AllZeros(s)
  {
    if s != "" {
      NothingIsZeros(s[..|s| - 1]);
      assert forall k :: 0 <= k < |s| - 1 ==> s[k] == s[..|s| - 1][k];
    }
  }

  function Milliseconds(n: nat): real {
    n as real / 1000.0
  }

  /** The fraction of a second is a whole number of milliseconds. */
  ghost predicate WholeMilliseconds(fraction: real) {
    exists n: nat :: fraction == Milliseconds(n)
  }

  /** A remainder below a unit is none when the sum is so many units. */
  lemma NoRemainder(a: nat, rest: nat, unit: nat, m: nat)
    requires rest < unit && a * unit + rest == m * unit
    ensures rest == 0
  {
    if a < m {
      NextMultiple(a, m, unit);
    } else if m < a {
      NextMultiple(m, a, unit);
    }
  }

  lemma SameNumerator(d: nat, m: nat, unit: nat)
    requires unit > 0 && d as real / (1000 * unit) as real == m as real / 1000.0
    ensures d == m * unit
  {
    CastOfProduct(1000, unit);
    CastOfProduct(m, unit);
    var x := d as real / (1000 * unit) as real;
    assert x * (1000.0 * unit as real) == d as real;
    assert x * 1000.0 == m as real;
    assert x * 1000.0 * unit as real == d as real;
  }

  /** What is cut off beyond three digits is zeros exactly when the fraction is whole milliseconds. */
  lemma CutIsZerosIff(fraction: string)
    requires AllDigits(fraction)
    ensures AllZeros(PadTo3(fraction)[3..]) <==> WholeMilliseconds(Fraction(fraction))
  {
    var padded := PadTo3(fraction);
    assert Pow10(3) == 1000;
    if AllZeros(padded[3..]) {
      MillisecondsAreExact(fraction);
      assert Fraction(fraction) == Milliseconds(Decimal(padded[..3]));
    }
    if |fraction| > 3 && WholeMilliseconds(Fraction(fraction)) {
      var m: nat :| Fraction(fraction) == Milliseconds(m);
      var a, z := fraction[..3], fraction[3..];
      assert fraction == a + z;
      DecimalAppend(a, z);
      Pow10Adds(3, |z|);
      DecimalBound(z);
      SameNumerator(Decimal(fraction), m, Pow10(|z|));
      NoRemainder(Decimal(a), Decimal(z), Pow10(|z|), m);
      NothingIsZeros(z);
    }
  }

  lemma TwoDigits(s: string)
    requires |s| == 2 && AllDigits(s)
    ensures Decimal(s) == 0 <==> s == "00"
  {
    DecimalHead(s);
    assert s[1..][..0] == "" && Decimal(s[1..]) == 10 * Decimal("") + DigitValue(s[1]);
    assert Pow10(1) == 10;
  }

  predicate IsUtc(zone: string) {
    zone == "" || zone == "Z" || zone == "+00:00" || zone == "-00:00"
  }

  /** The zones accepted are those at no distance from UTC. */
  lemma AcceptedIsUtc(zone: string)
    requires IsZone(zone)
    ensures IsUtc(zone) <==> Offset(zone) == 0
  {
    if zone != "" && zone != "Z" {
      TwoDigits(zone[1..3]);
      TwoDigits(zone[4..]);
      assert zone == [zone[0]] + zone[1..3] + [zone[3]] + zone[4..];
      assert "+00:00" == "+" + "00" + ":" + "00" && "-00:00" == "-" + "00" + ":" + "00";
      assert "+00:00"[1..3] == "00" && "+00:00"[4..] == "00" && "-00:00"[1..3] == "00" && "-00:00"[4..] == "00";
    }
  }

  /**
   A string is accepted exactly when it is a date and time, at no distance from UTC, and to the
   millisecond; and the first of the three that fails is the reason for a refusal.
   */
  lemma AcceptedIff(s: string)
    ensures CanonicalDt(s).Ok? <==>
      Read(s).Some? && InstantOf(s).offset == 0 && WholeMilliseconds(InstantOf(s).fraction)
    ensures CanonicalDt(s) == Err(NotADateTime) <==> Read(s).None?
    ensures CanonicalDt(s) == Err(OffsetNotUtc) <==> Read(s).Some? && InstantOf(s).offset != 0
  {
    if Read(s).Some? {
      ReadingShape(s);
      AcceptedIsUtc(Read(s).value.tail.zone);
      CutIsZerosIff(Read(s).value.tail.fraction);
    }
  }

  // ---------------------------------------------------------------
  // How a date and time is spelled
  // ---------------------------------------------------------------

  /** One piece, what stands behind it, and all that follows. */
  function Then(piece: string, sep: string, rest: string): string {
    piece + (sep + rest)
  }

  /** The pattern itself: `y-m-dTh:mi:s`, a fraction behind a point if there is one, a zone, and what follows it. */
  function Spelled(whole: seq<string>, fraction: string, zone: string, end: string): string
    requires |whole| == 6
  {
    Then(whole[0], "-", Then(whole[1], "-", Then(whole[2], "T",
      Then(whole[3], ":", Then(whole[4], ":", whole[5] + TailSpelled(fraction, zone, end))))))
  }

  function TailSpelled(fraction: string, zone: string, end: string): string {
    if fraction == "" then zone + end else "." + (fraction + (zone + end))
  }

  ghost predicate IsZoneSpelling(zone: string) {
    || zone == "" || zone == "Z"
    || exists sign, hours, minutes ::
         && (sign == "+" || sign == "-") && |hours| == 2 && |minutes| == 2
         && AllDigits(hours) && AllDigits(minutes) && zone == sign + hours + ":" + minutes
  }

  /** Four digits of a year and two of all else, any digits of a fraction, and a zone. */
  ghost predicate Spellable(whole: seq<string>, fraction: string, zone: string) {
    && |whole| == 6 && |whole[0]| == 4 && (forall k :: 1 <= k < 6 ==> |whole[k]| == 2)
    && (forall k :: 0 <= k < 6 ==> AllDigits(whole[k]))
    && AllDigits(fraction) && IsZoneSpelling(zone)
  }

  /** A zone of hours and minutes, put together and taken apart. */
  lemma ZoneParts(sign: char, hours: string, minutes: string)
    requires |hours| == 2 && |minutes| == 2
    ensures var zone := [sign] + hours + ":" + minutes;
      |zone| == 6 && zone[0] == sign && zone[1..3] == hours && zone[3] == ':' && zone[4..] == minutes
  {
  }

  lemma ZoneTogether(zone: string)
    requires |zone| == 6 && zone[3] == ':'
    ensures zone == [zone[0]] + zone[1..3] + ":" + zone[4..]
  {
    assert zone[..4] == [zone[0]] + zone[1..3] + ":";
    assert zone == zone[..4] + zone[4..];
  }

  lemma ZoneIff(zone: string)
    ensures IsZone(zone) <==> IsZoneSpelling(zone)
  {
    if IsZone(zone) && zone != "" && zone != "Z" {
      ZoneTogether(zone);
      assert [zone[0]] == if zone[0] == '+' then "+" else "-";
    }
    if sign, hours, minutes :|
      && (sign == "+" || sign == "-") && |hours| == 2 && |minutes| == 2
      && AllDigits(hours) && AllDigits(minutes) && zone == sign + hours + ":" + minutes
    {
      assert sign == [sign[0]];
      ZoneParts(sign[0], hours, minutes);
    }
  }

  lemma {:induction false} SlotsLayOut(s: string, slots: seq<Slot>)
    requires ReadSlots(s, slots).Some?
    ensures var f := ReadSlots(s, slots).value;
      |f.digits| == |slots| && s == Layout(f.digits, slots) + f.rest
    decreases |slots|
  {
    if slots == [] {
      assert s == Layout([], slots) + s;
    } else {
      var width, end := slots[0].width, slots[0].width + |slots[0].after|;
      SlotsLayOut(s[end..], slots[1..]);
      var f := ReadSlots(s, slots).value;
      assert f.digits[1..] == ReadSlots(s[end..], slots[1..]).value.digits;
      LayoutHead(f.digits, slots, f.rest);
      CutInThree(s, width, end);
    }
  }

  lemma CutInThree(s: string, i: nat, j: nat)
    requires i <= j <= |s|
    ensures s == s[..i] + (s[i..j] + s[j..])
  {
  }

  lemma LayoutFrom(whole: seq<string>, k: nat, rest: string)
    requires |whole| == 6 && k < 6
    ensures Layout(whole[k..], WHOLE_SECONDS[k..]) + rest
         == Then(whole[k], WHOLE_SECONDS[k].after, Layout(whole[k + 1..], WHOLE_SECONDS[k + 1..]) + rest)
  {
    LayoutHead(whole[k..], WHOLE_SECONDS[k..], rest);
    assert whole[k..][1..] == whole[k + 1..] && WHOLE_SECONDS[k..][1..] == WHOLE_SECONDS[k + 1..];
  }

  lemma LastLaidOut(whole: seq<string>, rest: string)
    requires |whole| == 6
    ensures Layout(whole[5..], WHOLE_SECONDS[5..]) + rest == whole[5] + rest
  {
    LayoutFrom(whole, 5, rest);
    assert Layout(whole[6..], WHOLE_SECONDS[6..]) == "";
    assert "" + rest == rest && "" + ("" + rest) == rest;
  }

  lemma LaidOutIsSpelled(whole: seq<string>, fraction: string, zone: string, end: string)
    requires |whole| == 6
    ensures Spelled(whole, fraction, zone, end) == Layout(whole, WHOLE_SECONDS) + TailSpelled(fraction, zone, end)
  {
    var rest := TailSpelled(fraction, zone, end);
    LastLaidOut(whole, rest);
    LayoutFrom(whole, 4, rest);
    LayoutFrom(whole, 3, rest);
    LayoutFrom(whole, 2, rest);
    LayoutFrom(whole, 1, rest);
    LayoutFrom(whole, 0, rest);
    assert whole[0..] == whole && WHOLE_SECONDS[0..] == WHOLE_SECONDS;
  }

  lemma ZoneStartsNoDigit(zone: string)
    requires IsZone(zone)
    ensures zone != "" ==> !IsDigit(zone[0]) && zone[0] != '.' && zone[|zone| - 1] != '\n'
  {
    if zone != "" && zone != "Z" {
      assert zone[5] == zone[4..][1];
    }
  }

  /** A fraction and a zone are read back as they were spelled. */
  lemma TailIsRead(fraction: string, zone: string)
    requires AllDigits(fraction) && IsZone(zone)
    ensures ReadTail(TailSpelled(fraction, zone, "")) == Some(Tail(fraction, zone))
  {
    ZoneStartsNoDigit(zone);
    assert zone + "" == zone;
    if fraction != "" {
      var t := "." + (fraction + zone);
      assert t[1..] == fraction + zone;
      DigitRunStops(fraction, zone);
      assert t[1..][..|fraction|] == fraction && t[1 + |fraction|..] == zone;
    }
  }

  lemma ReadTailSpells(s: string)
    requires ReadTail(s).Some?
    ensures var t := ReadTail(s).value;
      AllDigits(t.fraction) && IsZone(t.zone) && s == TailSpelled(t.fraction, t.zone, "")
  {
    var t := ReadTail(s).value;
    assert t.zone + "" == t.zone;
    if s != "" && s[0] == '.' {
      var n := DigitRun(s[1..]);
      assert s == "." + (s[1..][..n] + s[1 + n..]);
    }
  }

  lemma TailEnds(fraction: string, zone: string, end: string)
    ensures TailSpelled(fraction, zone, end) == TailSpelled(fraction, zone, "") + end
  {
    assert zone + "" == zone;
    Associates(fraction, zone, end);
    Associates(".", fraction + zone, end);
  }

  lemma EndsSpelled(whole: seq<string>, fraction: string, zone: string, end: string)
    requires |whole| == 6
    ensures Spelled(whole, fraction, zone, end) == Spelled(whole, fraction, zone, "") + end
  {
    LaidOutIsSpelled(whole, fraction, zone, end);
    LaidOutIsSpelled(whole, fraction, zone, "");
    TailEnds(fraction, zone, end);
    Associates(Layout(whole, WHOLE_SECONDS), TailSpelled(fraction, zone, ""), end);
  }

  /** No spelling ends in a newline of its own. */
  lemma SpelledEndsInNoNewline(whole: seq<string>, fraction: string, zone: string)
    requires Spellable(whole, fraction, zone)
    ensures var s := Spelled(whole, fraction, zone, "");
      s != "" && s[|s| - 1] != '\n'
  {
    ZoneIff(zone);
    ZoneStartsNoDigit(zone);
    LaidOutIsSpelled(whole, fraction, zone, "");
    var s, tail := Spelled(whole, fraction, zone, ""), TailSpelled(fraction, zone, "");
    assert zone + "" == zone;
    if zone != "" {
      assert tail[|tail| - 1] == zone[|zone| - 1];
      assert s[|s| - 1] == tail[|tail| - 1];
    } else if fraction != "" {
      assert tail == "." + fraction;
      assert s[|s| - 1] == tail[|tail| - 1] == fraction[|fraction| - 1];
    } else {
      LastDigitLaidOut(whole);
    }
  }

  lemma LastDigitLaidOut(whole: seq<string>)
    requires |whole| == 6 && |whole[5]| == 2 && AllDigits(whole[5])
    ensures var s := Spelled(whole, "", "", "");
      s != "" && s[|s| - 1] == whole[5][1]
  {
    var a := whole[5] + TailSpelled("", "", "");
    var b := Then(whole[4], ":", a);
    var c := Then(whole[3], ":", b);
    var d := Then(whole[2], "T", c);
    var e := Then(whole[1], "-", d);
    var f := Then(whole[0], "-", e);
    assert a == whole[5];
    assert b[|b| - 1] == a[|a| - 1];
    assert c[|c| - 1] == b[|b| - 1];
    assert d[|d| - 1] == c[|c| - 1];
    assert e[|e| - 1] == d[|d| - 1];
    assert f[|f| - 1] == e[|e| - 1];
  }

  lemma NewlineIsTakenOff(s: string, end: string)
    requires s != "" && s[|s| - 1] != '\n' && (end == "" || end == "\n")
    ensures WithoutNewline(s + end) == s
  {
    if end == "" {
      assert s + end == s;
    } else {
      assert (s + end)[..|s|] == s;
    }
  }

  lemma SpelledSlotsAreRead(whole: seq<string>, fraction: string, zone: string)
    requires Spellable(whole, fraction, zone)
    ensures ReadSlots(Spelled(whole, fraction, zone, ""), WHOLE_SECONDS)
         == Some(Fields(whole, TailSpelled(fraction, zone, "")))
  {
    LaidOutIsSpelled(whole, fraction, zone, "");
    ReadLayout(whole, WHOLE_SECONDS, TailSpelled(fraction, zone, ""));
  }

  /** What is spelled this way, with a final newline or without, is read, and as it is spelled. */
  lemma SpelledIsRead(whole: seq<string>, fraction: string, zone: string, end: string)
    requires Spellable(whole, fraction, zone) && (end == "" || end == "\n")
    ensures Read(Spelled(whole, fraction, zone, end)) == Some(Reading(whole, Tail(fraction, zone)))
  {
    EndsSpelled(whole, fraction, zone, end);
    SpelledEndsInNoNewline(whole, fraction, zone);
    NewlineIsTakenOff(Spelled(whole, fraction, zone, ""), end);
    SpelledSlotsAreRead(whole, fraction, zone);
    ZoneIff(zone);
    TailIsRead(fraction, zone);
  }

  ghost predicate Spells(s: string, whole: seq<string>, fraction: string, zone: string) {
    && Spellable(whole, fraction, zone)
    && (s == Spelled(whole, fraction, zone, "") || s == Spelled(whole, fraction, zone, "\n"))
  }

  lemma ReadIsSpellable(s: string)
    requires Read(s).Some?
    ensures var r := Read(s).value;
      Spellable(r.whole, r.tail.fraction, r.tail.zone)
  {
    ReadingShape(s);
    ZoneIff(Read(s).value.tail.zone);
  }

  lemma ReadIsSpelled(s: string)
    requires Read(s).Some?
    ensures var r := Read(s).value;
      |r.whole| == 6 && WithoutNewline(s) == Spelled(r.whole, r.tail.fraction, r.tail.zone, "")
  {
    var r, bare := Read(s).value, WithoutNewline(s);
    ReadingShape(s);
    SlotsLayOut(bare, WHOLE_SECONDS);
    ReadTailSpells(ReadSlots(bare, WHOLE_SECONDS).value.rest);
    LaidOutIsSpelled(r.whole, r.tail.fraction, r.tail.zone, "");
  }

  lemma NewlineIsPutBack(s: string)
    ensures s == WithoutNewline(s) || s == WithoutNewline(s) + "\n"
  {
    if s != "" && s[|s| - 1] == '\n' {
      assert s == s[..|s| - 1] + "\n";
    }
  }

  lemma ReadSpells(s: string)
    requires Read(s).Some?
    ensures var r := Read(s).value;
      Spells(s, r.whole, r.tail.fraction, r.tail.zone)
  {
    var r := Read(s).value;
    ReadIsSpellable(s);
    ReadIsSpelled(s);
    EndsSpelled(r.whole, r.tail.fraction, r.tail.zone, "\n");
    NewlineIsPutBack(s);
  }

  /** A string is read exactly when it is spelled by the pattern, and then as it is spelled. */
  lemma ReadIff(s: string, whole: seq<string>, fraction: string, zone: string)
    ensures Read(s) == Some(Reading(whole, Tail(fraction, zone))) <==> Spells(s, whole, fraction, zone)
  {
    if Read(s).Some? {
      ReadSpells(s);
    }
    if Spells(s, whole, fraction, zone) {
      SpelledIsRead(whole, fraction, zone, "");
      SpelledIsRead(whole, fraction, zone, "\n");
    }
  }

  // ---------------------------------------------------------------
  // Canonical strings
  // ---------------------------------------------------------------

  /** The shape every canonical string has, and how it is read. */
  lemma CanonicalForm(whole: seq<string>, ms: string)
    requires Fits(whole, WHOLE_SECONDS) && |ms| == 3 && AllDigits(ms)
    ensures var c := Layout(whole, WHOLE_SECONDS) + ("." + ms + "Z");
      Read(c) == Some(Reading(whole, Tail(ms, "Z"))) && CanonicalDt(c) == Ok(c)
  {
    var tail := "." + ms + "Z";
    var c := Layout(whole, WHOLE_SECONDS) + tail;
    assert c[|c| - 1] == 'Z';
    ReadLayout(whole, WHOLE_SECONDS, tail);
    DigitsThenZone(ms);
    assert PadTo3(ms) == ms && ms[..3] == ms && ms[3..] == "";
  }

  lemma {:induction false} DigitRunStops(digits: string, rest: string)
    requires AllDigits(digits) && (rest != "" ==> !IsDigit(rest[0]))
    ensures DigitRun(digits + rest) == |digits|
  {
    if digits == "" {
      assert digits + rest == rest;
    } else {
      assert (digits + rest)[1..] == digits[1..] + rest;
      DigitRunStops(digits[1..], rest);
    }
  }

  lemma DigitsThenZone(ms: string)
    requires |ms| == 3 && AllDigits(ms)
    ensures ReadTail("." + ms + "Z") == Some(Tail(ms, "Z"))
  {
    var tail := "." + ms + "Z";
    assert tail[1..] == ms + "Z";
    DigitRunStops(ms, "Z");
    assert (ms + "Z")[..3] == ms && tail[4..] == "Z";
  }

  /** Rewriting keeps the instant exactly, and rewriting again changes nothing. */
  lemma CanonicalKeepsTheInstant(s: string)
    requires CanonicalDt(s).Ok?
    ensures Read(CanonicalDt(s).value).Some? && InstantOf(CanonicalDt(s).value) == InstantOf(s)
    ensures CanonicalDt(CanonicalDt(s).value) == CanonicalDt(s)
  {
    ReadingShape(s);
    var r := Read(s).value;
    AcceptedIsUtc(r.tail.zone);
    MillisecondsAreExact(r.tail.fraction);
    CanonicalForm(r.whole, PadTo3(r.tail.fraction)[..3]);
  }

  /** A canonical string is spelled with the digits read, three digits of a fraction, and `Z`. */
  lemma CanonicalIsSpelled(s: string)
    requires CanonicalDt(s).Ok?
    ensures |Read(s).value.whole| == 6
    ensures exists ms ::
      && |ms| == 3 && AllDigits(ms) && Fraction(ms) == InstantOf(s).fraction
      && CanonicalDt(s).value == Spelled(Read(s).value.whole, ms, "Z", "")
  {
    ReadingShape(s);
    var r := Read(s).value;
    var ms := PadTo3(r.tail.fraction)[..3];
    MillisecondsAreExact(r.tail.fraction);
    LaidOutIsSpelled(r.whole, ms, "Z", "");
    assert "." + ms + "Z" == TailSpelled(ms, "Z", "");
  }

  // ---------------------------------------------------------------
  // Order
  // ---------------------------------------------------------------

  lemma {:induction false} LexAfterCommonPrefix(p: string, a: string, b: string)
    ensures LexLe(p + a, p + b) <==> LexLe(a, b)
  {
    if p == "" {
      assert p + a == a && p + b == b;
    } else {
      assert (p + a)[1..] == p[1..] + a && (p + b)[1..] == p[1..] + b;
      LexAfterCommonPrefix(p[1..], a, b);
    }
  }

  lemma {:induction false} LexOfDifferentFronts(p: string, q: string, a: string, b: string)
    requires |p| == |q| && p != q
    ensures LexLe(p + a, q + b) <==> LexLe(p, q)
  {
    assert (p + a)[1..] == p[1..] + a && (q + b)[1..] == q[1..] + b;
    if p[0] == q[0] {
      assert p == [p[0]] + p[1..] && q == [q[0]] + q[1..];
      LexOfDifferentFronts(p[1..], q[1..], a, b);
    }
  }

  /** Numerals of one width, the same text behind both, and then the rests. */
  lemma SlotOrder(a: string, b: string, after: string, x: string, y: string)
    requires |a| == |b| && AllDigits(a) && AllDigits(b)
    ensures LexLe(a + (after + x), b + (after + y))
       <==> Decimal(a) < Decimal(b) || (Decimal(a) == Decimal(b) && LexLe(x, y))
  {
    DictionaryIsNumeric(a, b);
    if a == b {
      LexAfterCommonPrefix(a, after + x, after + y);
      LexAfterCommonPrefix(after, x, y);
    } else {
      LexOfDifferentFronts(a, b, after + x, after + y);
    }
  }

  lemma LayoutHead(digits: seq<string>, slots: seq<Slot>, x: string)
    requires |digits| == |slots| && slots != []
    ensures Layout(digits, slots) + x == digits[0] + (slots[0].after + (Layout(digits[1..], slots[1..]) + x))
  {
  }

  lemma NumbersHead(digits: seq<string>)
    requires digits != [] && forall k :: 0 <= k < |digits| ==> AllDigits(digits[k])
    ensures Numbers(digits)[0] == Decimal(digits[0]) && Numbers(digits)[1..] == Numbers(digits[1..])
    ensures Numbers(digits) == [Decimal(digits[0])] + Numbers(digits[1..])
  {
  }

  /** Laid out in the same slots, the digits compare as their numbers do, and then the rests compare. */
  lemma {:induction false} LayoutOrder(a: seq<string>, b: seq<string>, slots: seq<Slot>, x: string, y: string)
    requires Fits(a, slots) && Fits(b, slots)
    ensures LexLe(Layout(a, slots) + x, Layout(b, slots) + y)
       <==> Earlier(Numbers(a), Numbers(b)) || (Numbers(a) == Numbers(b) && LexLe(x, y))
    decreases |slots|
  {
    if slots == [] {
      assert Layout(a, slots) + x == x && Layout(b, slots) + y == y;
    } else {
      LayoutHead(a, slots, x);
      LayoutHead(b, slots, y);
      SlotOrder(a[0], b[0], slots[0].after, Layout(a[1..], slots[1..]) + x, Layout(b[1..], slots[1..]) + y);
      LayoutOrder(a[1..], b[1..], slots[1..], x, y);
      NumbersHead(a);
      NumbersHead(b);
    }
  }

  /** The parts of a canonical string, and the instant they spell. */
  lemma CanonicalParts(s: string) returns (whole: seq<string>, ms: string)
    requires CanonicalDt(s).Ok?
    ensures Fits(whole, WHOLE_SECONDS) && |ms| == 3 && AllDigits(ms)
    ensures CanonicalDt(s).value == Layout(whole, WHOLE_SECONDS) + ("." + ms + "Z")
    ensures InstantOf(s) == Instant(Numbers(whole), 0, Fraction(ms))
  {
    ReadingShape(s);
    var r := Read(s).value;
    AcceptedIsUtc(r.tail.zone);
    whole, ms := r.whole, PadTo3(r.tail.fraction)[..3];
    MillisecondsAreExact(r.tail.fraction);
  }

  /** Dictionary order of canonical strings is order in time. */
  lemma CanonicalOrderIsTime(s: string, t: string)
    requires CanonicalDt(s).Ok? && CanonicalDt(t).Ok?
    ensures |InstantOf(s).whole| == |InstantOf(t).whole| && InstantOf(s).offset == InstantOf(t).offset == 0
    ensures LexLe(CanonicalDt(s).value, CanonicalDt(t).value) <==> NotAfter(InstantOf(s), InstantOf(t))
  {
    var a, x := CanonicalParts(s);
    var b, y := CanonicalParts(t);
    LayoutOrder(a, b, WHOLE_SECONDS, "." + x + "Z", "." + y + "Z");
    MillisecondOrder(x, y);
  }

  lemma MillisecondOrder(x: string, y: string)
    requires |x| == |y| == 3 && AllDigits(x) && AllDigits(y)
    ensures LexLe("." + x + "Z", "." + y + "Z") <==> Fraction(x) <= Fraction(y)
  {
    assert "." + x + "Z" == "." + (x + "Z") && "." + y + "Z" == "." + (y + "Z");
    LexAfterCommonPrefix(".", x + "Z", y + "Z");
    DictionaryIsNumeric(x, y);
    if x == y {
      LexTotal(x + "Z", y + "Z");
    } else {
      LexOfDifferentFronts(x, y, "Z", "Z");
    }
    assert Pow10(3) == 1000;
  }

  /** Two accepted strings are rewritten alike exactly when they denote the same instant. */
  lemma OneSpellingEach(s: string, t: string)
    requires CanonicalDt(s).Ok? && CanonicalDt(t).Ok?
    ensures CanonicalDt(s) == CanonicalDt(t) <==> InstantOf(s) == InstantOf(t)
  {
    CanonicalOrderIsTime(s, t);
    CanonicalOrderIsTime(t, s);
    CanonicalKeepsTheInstant(s);
    CanonicalKeepsTheInstant(t);
    if InstantOf(s) == InstantOf(t) {
      LexAntisymmetric(CanonicalDt(s).value, CanonicalDt(t).value);
    }
  }
}
