/** Printing and parsing durations (time_print, str2int and time_parse in src/datatype.c). */
module TimeText {
  import opened Wrappers
  import opened Numbers

  // ------------------------------------------------------------------ decimal numbers

  predicate IsDigit(c: char) {
    '0' <= c <= '9'
  }

  predicate AllDigits(s: string) {
    forall i :: 0 <= i < |s| ==> IsDigit(s[i])
  }

  /** %lu */
  function Decimal(n: nat): (s: string)
    ensures s != "" && AllDigits(s)
  {
    var last := '0' + (n % 10) as char;
    if n < 10 then [last] else Decimal(n / 10) + [last]
  }

  function IntOf(s: string): nat
    requires AllDigits(s)
  {
    if s == "" then 0 else IntOf(s[..|s| - 1]) * 10 + (s[|s| - 1] - '0') as nat
  }

  lemma {:induction false} DecimalValue(n: nat)
    ensures IntOf(Decimal(n)) == n
  {
    var s := Decimal(n);
    var m := |s| - 1;
    if n < 10 {
      assert s[..m] == "";
    } else {
      DecimalValue(n / 10);
      assert s[..m] == Decimal(n / 10);
    }
  }

  function Ten(k: nat): nat {
    if k == 0 then 1 else 10 * Ten(k - 1)
  }

  lemma {:induction false} DecimalLength(n: nat, k: nat)
    requires k > 0
    ensures |Decimal(n)| <= k <==> n < Ten(k)
    decreases k
  {
    if k == 1 {
      assert Ten(1) == 10 * Ten(0);
    } else if n >= 10 {
      DecimalLength(n / 10, k - 1);
    } else {
      TenPositive(k - 1);
    }
  }

  lemma {:induction false} TenPositive(k: nat)
    ensures Ten(k) >= 1
  {
    if k > 0 { TenPositive(k - 1); }
  }

  /** The digits that a text starts with: what sscanf("%d") and atoi() read. */
  function DigitPrefix(s: string): (p: string)
    ensures AllDigits(p)
  {
    if s == "" || !IsDigit(s[0]) then "" else [s[0]] + DigitPrefix(s[1..])
  }

  /** str2int */
  function Str2Int(s: string): nat {
    IntOf(DigitPrefix(s))
  }

  lemma {:induction false} PrefixIs(ds: string, rest: string)
    requires AllDigits(ds) && (rest == "" || !IsDigit(rest[0]))
    ensures DigitPrefix(ds + rest) == ds
  {
    if ds == "" {
      assert ds + rest == rest;
    } else {
      assert (ds + rest)[1..] == ds[1..] + rest;
      PrefixIs(ds[1..], rest);
    }
  }

  // ------------------------------------------------------------------ printing

  function Unit(n: nat, unit: string): string {
    if n > 0 then Decimal(n) + unit else ""
  }

  /** The text of a duration: its parts without those that are zero, or whole seconds only. */
  function Text(ms: nat, inSeconds: bool): string {
    if inSeconds then Decimal(ms / 1000) + "s"
    else
      Unit(ms / 86400000, "d") + (Unit(ms % 86400000 / 3600000, "h") + (Unit(ms % 3600000 / 60000, "m")
      + (Unit(ms % 60000 / 1000, "s") + Unit(ms % 1000, "ms"))))
  }

  /** time_print */
  method TimePrint(ms0: nat, inSeconds: bool) returns (text: string)
    ensures text == Text(ms0, inSeconds)
  {
    var ms := ms0;
    hide Decimal;
    if inSeconds {
      return Decimal(ms / 1000) + "s";
    }
    SmallerUnits(ms0);
    var days := ms / 86400000;
    ms := ms % 86400000;
    var hours := ms / 3600000;
    ms := ms % 3600000;
    var minutes := ms / 60000;
    ms := ms % 60000;
    var seconds := ms / 1000;
    ms := ms % 1000;
    text := PrintUnits(days, hours, minutes, seconds, ms);
  }

  /** What is left after the larger units have been taken off. */
  lemma SmallerUnits(ms: nat)
    ensures ms % 86400000 % 3600000 == ms % 3600000
    ensures ms % 3600000 % 60000 == ms % 60000
    ensures ms % 60000 % 1000 == ms % 1000
  {
    ModMod(ms, 3600000, 24);
    ModMod(ms, 60000, 60);
    ModMod(ms, 1000, 60);
  }

  method PrintUnits(days: nat, hours: nat, minutes: nat, seconds: nat, ms: nat) returns (text: string)
    ensures text == Unit(days, "d") + (Unit(hours, "h") + (Unit(minutes, "m") + (Unit(seconds, "s") + Unit(ms, "ms"))))
  {
    hide Unit;
    text := PrintUnit("", days, "d");
    text := PrintUnit(text, hours, "h");
    text := PrintUnit(text, minutes, "m");
    text := PrintUnit(text, seconds, "s");
    text := PrintUnit(text, ms, "ms");
  }

  method PrintUnit(text: string, n: nat, unit: string) returns (text': string)
    ensures text' == text + Unit(n, unit)
  {
    hide Decimal;
    text' := text;
    if n > 0 {
      text' := text' + (Decimal(n) + unit);
    }
  }

  // ------------------------------------------------------------------ parsing

  /** The units that have been seen, with their numbers. */
  datatype Units = Units(d: Option<nat>, h: Option<nat>, m: Option<nat>, s: Option<nat>, ms: Option<nat>)

  const NO_UNITS := Units(None, None, None, None, None)

  datatype Error = Twice | WrongFormat | TooLarge
  datatype Result = Ok(ms: nat) | Failed(error: Error)

  datatype Scanned = Scanned(units: Units) | ScanFailed(error: Error)

  const MAX_DIGITS: nat := 8

  /** The loop of time_parse on the rest `s` of the text, with the digits `ds` right before it. */
  function Scan(s: string, ds: string, u: Units): Scanned
    requires AllDigits(ds)
    decreases |s|
  {
    if s == "" then Scanned(u)
    else if s[0] == 'd' then
      if u.d.Some? then ScanFailed(Twice) else Scan(s[1..], "", u.(d := Some(IntOf(ds))))
    else if s[0] == 'h' then
      if u.h.Some? then ScanFailed(Twice) else Scan(s[1..], "", u.(h := Some(IntOf(ds))))
    else if s == "ms" then
      if u.ms.Some? then ScanFailed(Twice) else Scanned(u.(ms := Some(IntOf(ds))))
    else if s[0] == 'm' then
      if u.m.Some? then ScanFailed(Twice) else Scan(s[1..], "", u.(m := Some(IntOf(ds))))
    else if s[0] == 's' then
      if u.s.Some? then ScanFailed(Twice) else Scan(s[1..], "", u.(s := Some(IntOf(ds))))
    else if !IsDigit(s[0]) then ScanFailed(WrongFormat)
    else if |ds| >= MAX_DIGITS then ScanFailed(TooLarge)
    else Scan(s[1..], ds + [s[0]], u)
  }

  function Number(n: Option<nat>): nat {
    match n
    case None => 0
    case Some(v) => v
  }

  function Total(u: Units): nat {
    24 * 60 * 60 * 1000 * Number(u.d) + 60 * 60 * 1000 * Number(u.h) + 60 * 1000 * Number(u.m) + 1000 * Number(u.s)
        + Number(u.ms)
  }

  /** What a text means: its units added up, or seconds if there is no unit. */
  function Parsed(text: string): Result {
    match Scan(text, "", NO_UNITS)
    case ScanFailed(e) => Failed(e)
    case Scanned(u) => Ok(if u == NO_UNITS then Str2Int(text) * 1000 else Total(u))
  }

  /** What the scan does with one character of the text; the number in front of a unit is read again from
      where its digits start. */
  lemma ScanNext(text: string, i: nat, k: nat, u: Units)
    requires k <= i < |text| && AllDigits(text[i - k..i])
    ensures text[i + 1..i + 1] == ""
    ensures IsDigit(text[i]) ==> text[i - k..i + 1] == text[i - k..i] + [text[i]]
    ensures var c, ds, rest := text[i], text[i - k..i], text[i + 1..];
            Scan(text[i..], ds, u)
            == if c == 'd' then
                 if u.d.Some? then ScanFailed(Twice) else Scan(rest, "", u.(d := Some(Str2Int(text[i - k..]))))
               else if c == 'h' then
                 if u.h.Some? then ScanFailed(Twice) else Scan(rest, "", u.(h := Some(Str2Int(text[i - k..]))))
               else if text[i..] == "ms" then
                 if u.ms.Some? then ScanFailed(Twice) else Scanned(u.(ms := Some(Str2Int(text[i - k..]))))
               else if c == 'm' then
                 if u.m.Some? then ScanFailed(Twice) else Scan(rest, "", u.(m := Some(Str2Int(text[i - k..]))))
               else if c == 's' then
                 if u.s.Some? then ScanFailed(Twice) else Scan(rest, "", u.(s := Some(Str2Int(text[i - k..]))))
               else if !IsDigit(c) then ScanFailed(WrongFormat)
               else if |ds| >= MAX_DIGITS then ScanFailed(TooLarge)
               else Scan(rest, ds + [c], u)
  {
    var rest, ds := text[i..], text[i - k..i];
    assert rest[0] == text[i] && rest[1..] == text[i + 1..] && text[i - k..] == ds + rest;
    if !IsDigit(text[i]) { PrefixIs(ds, rest); }
    hide IntOf, DigitPrefix;
  }

  lemma NothingToScan(text: string, i: nat, u: Units)
    requires i == |text|
    ensures text[i..] == "" && text[i - 0..i] == "" && Scan("", "", u) == Scanned(u)
  {
  }

  lemma LastNumber(text: string, i: nat, k: nat, u: Units)
    requires k <= i == |text| && AllDigits(text[i - k..i])
    ensures Scan(text[i..], text[i - k..i], u) == Scanned(u)
  {
  }

  /** time_parse */
  method TimeParse(text: string) returns (r: Result)
    ensures r == Parsed(text)
  {
    hide Scan, Str2Int, IntOf;
    var u := NO_UNITS;
    var i, k: nat := 0, 0;
    var len := |text|;
    assert text[0..] == text && text[0..0] == "";
    while i < len
      invariant k <= i <= len && AllDigits(text[i - k..i])
      invariant Scan(text[i..], text[i - k..i], u) == Scan(text, "", NO_UNITS)
    {
      var c := text[i];
      ScanNext(text, i, k, u);
      if c == 'd' {
        if u.d.Some? { return Failed(Twice); }
        u := u.(d := Some(Str2Int(text[i - k..])));
        k := 0;
      } else if c == 'h' {
        if u.h.Some? { return Failed(Twice); }
        u := u.(h := Some(Str2Int(text[i - k..])));
        k := 0;
      } else if c == 'm' && text[i..] == "ms" {
        if u.ms.Some? { return Failed(Twice); }
        u := u.(ms := Some(Str2Int(text[i - k..])));
        i := i + 1;
        k := 0;
        NothingToScan(text, i + 1, u);
      } else if c == 'm' {
        if u.m.Some? { return Failed(Twice); }
        u := u.(m := Some(Str2Int(text[i - k..])));
        k := 0;
      } else if c == 's' {
        if u.s.Some? { return Failed(Twice); }
        u := u.(s := Some(Str2Int(text[i - k..])));
        k := 0;
      } else if !IsDigit(c) {
        return Failed(WrongFormat);
      } else {
        if k >= MAX_DIGITS { return Failed(TooLarge); }
        k := k + 1;
      }
      i := i + 1;
    }
    LastNumber(text, i, k, u);
    r := Ok(if u == NO_UNITS then Str2Int(text) * 1000 else Total(u));
  }

  // ------------------------------------------------------------------ parsing what was printed

  /** The digits of a number are collected. */
  lemma {:induction false} ScanDigits(num: string, rest: string, ds: string, u: Units)
    requires AllDigits(num) && AllDigits(ds) && |ds| + |num| <= MAX_DIGITS
    ensures Scan(num + rest, ds, u) == Scan(rest, ds + num, u)
    decreases |num|
  {
    if num == "" {
      assert num + rest == rest && ds + num == ds;
    } else {
      var s := num + rest;
      assert s[0] == num[0] && s[1..] == num[1..] + rest;
      assert (ds + [num[0]]) + num[1..] == ds + num;
      ScanDigits(num[1..], rest, ds + [num[0]], u);
    }
  }

  /** A number with more digits is refused. */
  lemma {:induction false} TooManyDigits(num: string, rest: string, ds: string, u: Units)
    requires AllDigits(num) && AllDigits(ds) && |ds| <= MAX_DIGITS < |ds| + |num|
    ensures Scan(num + rest, ds, u) == ScanFailed(TooLarge)
    decreases |num|
  {
    var s := num + rest;
    assert s[0] == num[0] && s[1..] == num[1..] + rest;
    if |ds| < MAX_DIGITS { TooManyDigits(num[1..], rest, ds + [num[0]], u); }
  }

  lemma Short(n: nat)
    ensures |Decimal(n)| <= MAX_DIGITS <==> n <= 99999999
  {
    DecimalLength(n, 8);
    assert Ten(8) == 100000000;
  }

  /** A number and what comes after it. */
  lemma ScanNumber(n: nat, rest: string, u: Units)
    requires n <= 99999999
    ensures Scan(Decimal(n) + rest, "", u) == Scan(rest, Decimal(n), u) && IntOf(Decimal(n)) == n
  {
    Short(n);
    DecimalValue(n);
    ScanDigits(Decimal(n), rest, "", u);
    assert "" + Decimal(n) == Decimal(n);
  }

  /** What a printed unit adds: nothing if its number is zero. */
  function Seen(n: nat): Option<nat> {
    if n > 0 then Some(n) else None
  }

  lemma ScanDay(n: nat, rest: string, u: Units)
    requires n <= 99999999 && u.d.None?
    ensures Scan(Unit(n, "d") + rest, "", u) == Scan(rest, "", u.(d := Seen(n)))
  {
    UnitText(n, "d", rest, u);
  }

  lemma ScanHour(n: nat, rest: string, u: Units)
    requires n <= 99999999 && u.h.None?
    ensures Scan(Unit(n, "h") + rest, "", u) == Scan(rest, "", u.(h := Seen(n)))
  {
    UnitText(n, "h", rest, u);
  }

  /** Minutes: the text after them is never a single "s". */
  lemma ScanMinute(n: nat, rest: string, u: Units)
    requires n <= 99999999 && u.m.None? && rest != "s"
    ensures Scan(Unit(n, "m") + rest, "", u) == Scan(rest, "", u.(m := Seen(n)))
  {
    UnitText(n, "m", rest, u);
    assert ("m" + rest)[1..] == rest && "ms"[1..] == "s";
  }

  lemma ScanSecond(n: nat, rest: string, u: Units)
    requires n <= 99999999 && u.s.None?
    ensures Scan(Unit(n, "s") + rest, "", u) == Scan(rest, "", u.(s := Seen(n)))
  {
    UnitText(n, "s", rest, u);
  }

  lemma ScanMillis(n: nat, u: Units)
    requires n <= 99999999 && u.ms.None?
    ensures Scan(Unit(n, "ms"), "", u) == Scanned(u.(ms := Seen(n)))
  {
    if n > 0 { ScanNumber(n, "ms", u); }
  }

  lemma UnitText(n: nat, unit: string, rest: string, u: Units)
    requires n <= 99999999 && |unit| == 1
    ensures n == 0 ==> Unit(n, unit) + rest == rest
    ensures n > 0 ==> Scan(Unit(n, unit) + rest, "", u) == Scan(unit + rest, Decimal(n), u) && IntOf(Decimal(n)) == n
    ensures (unit + rest)[1..] == rest && (unit + rest)[0] == unit[0]
  {
    if n > 0 {
      assert (Decimal(n) + unit) + rest == Decimal(n) + (unit + rest);
      ScanNumber(n, unit + rest, u);
    }
  }

  /** What is printed after the minutes. */
  lemma AfterMinutes(s: nat, ms: nat)
    ensures Unit(s, "s") + Unit(ms, "ms") != "s"
  {
    var t := Unit(s, "s") + Unit(ms, "ms");
    if s > 0 {
      assert t[0] == Decimal(s)[0] && IsDigit(t[0]);
    } else if ms > 0 {
      assert t[0] == Decimal(ms)[0] && IsDigit(t[0]);
    }
  }

  lemma ScanText(d: nat, h: nat, m: nat, s: nat, ms: nat)
    requires d <= 99999999 && h <= 99999999 && m <= 99999999 && s <= 99999999 && ms <= 99999999
    ensures Scan(Unit(d, "d") + (Unit(h, "h") + (Unit(m, "m") + (Unit(s, "s") + Unit(ms, "ms")))), "", NO_UNITS)
            == Scanned(Units(Seen(d), Seen(h), Seen(m), Seen(s), Seen(ms)))
  {
    hide Scan, Unit;
    var t4 := Unit(s, "s") + Unit(ms, "ms");
    var t3 := Unit(m, "m") + t4;
    var t2 := Unit(h, "h") + t3;
    AfterMinutes(s, ms);
    ScanDay(d, t2, NO_UNITS);
    ScanHour(h, t3, Units(Seen(d), None, None, None, None));
    ScanMinute(m, t4, Units(Seen(d), Seen(h), None, None, None));
    ScanSecond(s, Unit(ms, "ms"), Units(Seen(d), Seen(h), Seen(m), None, None));
    ScanMillis(ms, Units(Seen(d), Seen(h), Seen(m), Seen(s), None));
  }

  /** Parsing undoes printing exactly as long as the number of days has no more than 8 digits. */
  lemma ParseUndoesPrint(ms: nat)
    ensures Parsed(Text(ms, false)) == Ok(ms) <==> ms / 86400000 <= 99999999
    ensures ms / 86400000 > 99999999 ==> Parsed(Text(ms, false)) == Failed(TooLarge)
  {
    var d, h, m, s, r := ms / 86400000, ms % 86400000 / 3600000, ms % 3600000 / 60000, ms % 60000 / 1000, ms % 1000;
    SumOfUnits(ms);
    hide Unit;
    UnitsRead(d, h, m, s, r);
  }

  lemma UnitsRead(d: nat, h: nat, m: nat, s: nat, r: nat)
    requires h < 24 && m < 60 && s < 60 && r < 1000
    ensures var text := Unit(d, "d") + (Unit(h, "h") + (Unit(m, "m") + (Unit(s, "s") + Unit(r, "ms"))));
            Parsed(text)
            == if d <= 99999999 then Ok(86400000 * d + 3600000 * h + 60000 * m + 1000 * s + r) else Failed(TooLarge)
  {
    var rest := Unit(h, "h") + (Unit(m, "m") + (Unit(s, "s") + Unit(r, "ms")));
    NoDigits();
    hide Scan, Decimal, Str2Int;
    if d <= 99999999 {
      hide Unit;
      ScanText(d, h, m, s, r);
    } else {
      Short(d);
      TooManyDigits(Decimal(d), "d" + rest, "", NO_UNITS);
      assert Unit(d, "d") + rest == Decimal(d) + ("d" + rest);
    }
  }

  lemma NoDigits()
    ensures Str2Int("") == 0
  {
  }

  lemma SumOfUnits(ms: nat)
    ensures var d, h, m := ms / 86400000, ms % 86400000 / 3600000, ms % 3600000 / 60000;
            var s, r := ms % 60000 / 1000, ms % 1000;
            && h < 24 && m < 60 && s < 60 && r < 1000
            && ms == 86400000 * d + 3600000 * h + 60000 * m + 1000 * s + r
  {
    SmallerUnits(ms);
    var x := ms % 86400000;
    var y := ms % 3600000;
    var z := ms % 60000;
    assert ms == 86400000 * (ms / 86400000) + x;
    assert x == 3600000 * (x / 3600000) + y && y == 60000 * (y / 60000) + z && z == 1000 * (z / 1000) + ms % 1000;
  }

  lemma ScanSeconds(ds: string)
    requires AllDigits(ds)
    ensures Scan("s", ds, NO_UNITS) == Scanned(NO_UNITS.(s := Some(IntOf(ds))))
  {
    assert "s"[1..] == "";
  }

  /** When durations are printed in seconds the text is exact for whole seconds of at most 8 digits. */
  lemma ParseUndoesSeconds(ms: nat)
    ensures Parsed(Text(ms, true)) == Ok(ms) <==> ms % 1000 == 0 && ms / 1000 <= 99999999
  {
    var n := ms / 1000;
    hide Decimal, IntOf, DigitPrefix;
    hide Scan;
    if n <= 99999999 {
      ScanNumber(n, "s", NO_UNITS);
      ScanSeconds(Decimal(n));
    } else {
      Short(n);
      TooManyDigits(Decimal(n), "s", "", NO_UNITS);
    }
  }

  // ------------------------------------------------------------------ any text of numbers with units

  datatype UnitName = Days | Hours | Minutes | Seconds | Millis

  function Letters(unit: UnitName): (s: string)
    ensures s != ""
  {
    match unit
    case Days => "d"
    case Hours => "h"
    case Minutes => "m"
    case Seconds => "s"
    case Millis => "ms"
  }

  /** How many milliseconds there are in a unit. */
  function Length(unit: UnitName): nat {
    match unit
    case Days => 86400000
    case Hours => 3600000
    case Minutes => 60000
    case Seconds => 1000
    case Millis => 1
  }

  predicate IsNumber(num: string) {
    AllDigits(num) && 1 <= |num| <= 8
  }

  datatype Quantity = Quantity(num: string, unit: UnitName)

  /** A number of at most 8 digits with a unit that may stand anywhere in a text. */
  type Token = t: Quantity | IsNumber(t.num) && t.unit != Millis witness Quantity("0", Days)

  function TextOf(ts: seq<Token>): string {
    if ts == [] then "" else (ts[0].num + Letters(ts[0].unit)) + TextOf(ts[1..])
  }

  function SumOf(ts: seq<Token>): nat {
    if ts == [] then 0 else Length(ts[0].unit) * IntOf(ts[0].num) + SumOf(ts[1..])
  }

  predicate Uses(ts: seq<Token>, unit: UnitName) {
    exists i :: 0 <= i < |ts| && ts[i].unit == unit
  }

  /** No unit twice. */
  ghost predicate UnitsDiffer(ts: seq<Token>) {
    forall i, j :: 0 <= i < j < |ts| ==> ts[i].unit != ts[j].unit
  }

  function Get(u: Units, unit: UnitName): Option<nat> {
    match unit
    case Days => u.d
    case Hours => u.h
    case Minutes => u.m
    case Seconds => u.s
    case Millis => u.ms
  }

  function Set(u: Units, unit: UnitName, n: nat): Units {
    match unit
    case Days => u.(d := Some(n))
    case Hours => u.(h := Some(n))
    case Minutes => u.(m := Some(n))
    case Seconds => u.(s := Some(n))
    case Millis => u.(ms := Some(n))
  }

  function SetAll(u: Units, ts: seq<Token>): Units
    decreases |ts|
  {
    if ts == [] then u else SetAll(Set(u, ts[0].unit, IntOf(ts[0].num)), ts[1..])
  }

  lemma SetGet(u: Units, unit: UnitName, n: nat, other: UnitName)
    ensures Get(Set(u, unit, n), other) == if other == unit then Some(n) else Get(u, other)
    ensures Get(u, unit).None? ==> Total(Set(u, unit, n)) == Total(u) + Length(unit) * n
    ensures Set(u, unit, n) != NO_UNITS
  {
  }

  /** One number with a unit other than milliseconds; what follows must not make its "m" the "m" of "ms". */
  lemma ScanToken(t: Token, rest: string, u: Units)
    requires rest != "s"
    ensures Scan((t.num + Letters(t.unit)) + rest, "", u)
            == if Get(u, t.unit).Some? then ScanFailed(Twice) else Scan(rest, "", Set(u, t.unit, IntOf(t.num)))
  {
    var after := Letters(t.unit) + rest;
    assert (t.num + Letters(t.unit)) + rest == t.num + after;
    ScanDigits(t.num, after, "", u);
    assert "" + t.num == t.num;
    assert after[0] == Letters(t.unit)[0] && after[1..] == rest;
    assert "ms"[1..] == "s";
    hide IntOf;
  }

  /** Milliseconds come last. */
  lemma ScanMilliToken(num: string, u: Units)
    requires IsNumber(num) && u.ms.None?
    ensures Scan(num + "ms", "", u) == Scanned(Set(u, Millis, IntOf(num)))
  {
    ScanDigits(num, "ms", "", u);
    assert "" + num == num;
    hide IntOf;
  }

  ghost predicate Free(u: Units, ts: seq<Token>) {
    forall i :: 0 <= i < |ts| ==> Get(u, ts[i].unit).None?
  }

  lemma FreeNext(u: Units, ts: seq<Token>, n: nat)
    requires ts != [] && UnitsDiffer(ts) && Free(u, ts)
    ensures Get(u, ts[0].unit).None? && UnitsDiffer(ts[1..])
    ensures Free(Set(u, ts[0].unit, n), ts[1..])
  {
    forall i | 0 <= i < |ts| - 1 ensures Get(Set(u, ts[0].unit, n), ts[1..][i].unit).None? {
      SetGet(u, ts[0].unit, n, ts[i + 1].unit);
    }
  }

  lemma TextNotS(ts: seq<Token>, tail: string)
    requires tail != "s"
    ensures TextOf(ts) + tail != "s"
  {
    if ts != [] {
      assert (TextOf(ts) + tail)[0] == ts[0].num[0];
    }
  }

  /** All the numbers with units in front of a text. */
  lemma {:induction false} ScanTokens(ts: seq<Token>, tail: string, u: Units)
    requires UnitsDiffer(ts) && Free(u, ts) && tail != "s"
    ensures Scan(TextOf(ts) + tail, "", u) == Scan(tail, "", SetAll(u, ts))
    decreases |ts|
  {
    hide Scan, Letters, IntOf, UnitsDiffer, Free, Set, Get;
    if ts == [] {
      assert TextOf(ts) + tail == tail;
    } else {
      var t, rest := ts[0], TextOf(ts[1..]) + tail;
      FreeNext(u, ts, IntOf(t.num));
      TextNotS(ts[1..], tail);
      assert TextOf(ts) + tail == (t.num + Letters(t.unit)) + rest;
      ScanToken(t, rest, u);
      ScanTokens(ts[1..], tail, Set(u, t.unit, IntOf(t.num)));
    }
  }

  lemma {:induction false} SetAllTotal(u: Units, ts: seq<Token>)
    requires UnitsDiffer(ts) && Free(u, ts)
    ensures Total(SetAll(u, ts)) == Total(u) + SumOf(ts) && SetAll(u, ts).ms == u.ms
    ensures ts != [] ==> SetAll(u, ts) != NO_UNITS
    ensures forall unit :: Get(SetAll(u, ts), unit).Some? <==> Get(u, unit).Some? || Uses(ts, unit)
    decreases |ts|
  {
    hide Total, IntOf, UnitsDiffer, Free;
    if ts != [] {
      var t, tail := ts[0], ts[1..];
      var v := Set(u, t.unit, IntOf(t.num));
      FreeNext(u, ts, IntOf(t.num));
      SetGet(u, t.unit, IntOf(t.num), Millis);
      SetAllTotal(v, tail);
      forall unit ensures Get(v, unit).Some? || Uses(tail, unit) <==> Get(u, unit).Some? || Uses(ts, unit) {
        SetGet(u, t.unit, IntOf(t.num), unit);
        UsesCons(ts, unit);
      }
      if tail == [] { SetGet(u, t.unit, IntOf(t.num), t.unit); }
    }
  }

  lemma UsesCons(ts: seq<Token>, unit: UnitName)
    requires ts != []
    ensures Uses(ts, unit) <==> ts[0].unit == unit || Uses(ts[1..], unit)
  {
    var tail := ts[1..];
    if Uses(ts, unit) {
      var i :| 0 <= i < |ts| && ts[i].unit == unit;
      assert i > 0 ==> tail[i - 1] == ts[i];
    }
    if Uses(tail, unit) {
      var i :| 0 <= i < |tail| && tail[i].unit == unit;
      assert ts[i + 1] == tail[i];
    }
  }

  /** Numbers with units, in any order and no unit twice, add up; digits after the last unit are ignored. */
  lemma TokensParsed(ts: seq<Token>, trail: string)
    requires UnitsDiffer(ts) && ts != [] && AllDigits(trail) && |trail| <= 8
    ensures Parsed(TextOf(ts) + trail) == Ok(SumOf(ts))
  {
    hide Scan, Str2Int;
    if trail != "" { assert IsDigit(trail[0]); }
    ScanTokens(ts, trail, NO_UNITS);
    SetAllTotal(NO_UNITS, ts);
    TrailIgnored(trail, SetAll(NO_UNITS, ts));
  }

  lemma TrailIgnored(trail: string, u: Units)
    requires AllDigits(trail) && |trail| <= 8
    ensures Scan(trail, "", u) == Scanned(u)
  {
    ScanDigits(trail, "", "", u);
    assert trail + "" == trail && "" + trail == trail;
  }

  /** Milliseconds may follow at the end. */
  lemma MillisParsed(ts: seq<Token>, num: string)
    requires UnitsDiffer(ts) && IsNumber(num)
    ensures Parsed(TextOf(ts) + (num + "ms")) == Ok(SumOf(ts) + IntOf(num))
  {
    hide Scan, Str2Int, IntOf;
    var u := SetAll(NO_UNITS, ts);
    assert (num + "ms")[0] == num[0];
    ScanTokens(ts, num + "ms", NO_UNITS);
    SetAllTotal(NO_UNITS, ts);
    ScanMilliToken(num, u);
    SetGet(u, Millis, IntOf(num), Millis);
  }

  /** A number without a unit means seconds. */
  lemma PlainParsed(num: string)
    requires AllDigits(num) && |num| <= 8
    ensures Parsed(num) == Ok(1000 * IntOf(num))
  {
    TrailIgnored(num, NO_UNITS);
    PrefixIs(num, "");
    assert num + "" == num;
    hide Scan, IntOf, DigitPrefix;
  }

  /** A unit that has been used already is an error, whatever follows. */
  lemma TwiceRefused(ts: seq<Token>, t: Token, rest: string)
    requires UnitsDiffer(ts) && Uses(ts, t.unit) && rest != "s"
    ensures Parsed(TextOf(ts) + ((t.num + Letters(t.unit)) + rest)) == Failed(Twice)
  {
    var tail := (t.num + Letters(t.unit)) + rest;
    assert tail[0] == t.num[0];
    ScanTokens(ts, tail, NO_UNITS);
    SetAllTotal(NO_UNITS, ts);
    ScanToken(t, rest, SetAll(NO_UNITS, ts));
    hide Scan;
  }

  /** So is a number with more than 8 digits. */
  lemma LongRefused(ts: seq<Token>, num: string, rest: string)
    requires UnitsDiffer(ts) && AllDigits(num) && |num| > 8
    ensures Parsed(TextOf(ts) + (num + rest)) == Failed(TooLarge)
  {
    assert (num + rest)[0] == num[0];
    ScanTokens(ts, num + rest, NO_UNITS);
    TooManyDigits(num, rest, "", SetAll(NO_UNITS, ts));
    hide Scan;
  }

  /** So is a character that is neither a digit nor a unit. */
  lemma OthersRefused(ts: seq<Token>, num: string, c: char, rest: string)
    requires UnitsDiffer(ts) && AllDigits(num) && |num| <= 8
    requires !('0' <= c <= '9') && c != 'd' && c != 'h' && c != 'm' && c != 's'
    ensures Parsed(TextOf(ts) + (num + ([c] + rest))) == Failed(WrongFormat)
  {
    var tail := [c] + rest;
    if num == "" { assert num + tail == tail; }
    assert (num + tail)[0] == if num == "" then c else num[0];
    ScanTokens(ts, num + tail, NO_UNITS);
    ScanDigits(num, tail, "", SetAll(NO_UNITS, ts));
    assert "" + num == num;
    OtherCharacter(tail, num, SetAll(NO_UNITS, ts));
    hide Scan;
  }

  lemma OtherCharacter(s: string, ds: string, u: Units)
    requires AllDigits(ds) && s != "" && !IsDigit(s[0]) && s[0] != 'd' && s[0] != 'h' && s[0] != 'm' && s[0] != 's'
    ensures Scan(s, ds, u) == ScanFailed(WrongFormat)
  {
  }

  /** What is printed, unit by unit: none with the number 0, and nothing at all for 0. */
  lemma PrintedUnits(ms: nat)
    ensures var d, h, m := ms / 86400000, ms % 86400000 / 3600000, ms % 3600000 / 60000;
            var s, r := ms % 60000 / 1000, ms % 1000;
            Text(ms, false)
            == (if d > 0 then Decimal(d) + "d" else "") + ((if h > 0 then Decimal(h) + "h" else "")
               + ((if m > 0 then Decimal(m) + "m" else "") + ((if s > 0 then Decimal(s) + "s" else "")
               + (if r > 0 then Decimal(r) + "ms" else ""))))
    ensures Text(ms, false) == "" <==> ms == 0
  {
    SumOfUnits(ms);
    hide Decimal;
  }
}
