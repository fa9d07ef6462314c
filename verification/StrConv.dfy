/** Text of signed numbers (mpz_get_str and mpz_set_str in src/mini-gmp.c). */
module StrConv {
  import opened Wrappers
  import opened Numbers
  import opened Limbs
  import opened Mpn
  import opened Mpz
  import opened Digits
  import opened StrBits
  import opened StrOther
  import opened StrSize

  // ------------------------------------------------------------------ what a text means

  /** isspace() */
  predicate IsSpace(c: char) {
    c == ' ' || '\U{0009}' <= c <= '\U{000D}'
  }

  /** The digit that a character stands for; `base` for a character that is no digit. */
  function DigitValue(c: char, base: nat): nat {
    if '0' <= c <= '9' then (c - '0') as nat
    else if 'a' <= c <= 'z' then (c - 'a') as nat + 10
    else if 'A' <= c <= 'Z' then (c - 'A') as nat + 10
    else base
  }

  /** The digits in a text, with blanks skipped; none if there is anything else. */
  function DigitsIn(s: string, base: nat): (r: Option<seq<nat>>)
    ensures r.Some? ==> AreDigits(base, r.value)
  {
    if s == "" then Some([])
    else if IsSpace(s[0]) then DigitsIn(s[1..], base)
    else if DigitValue(s[0], base) >= base then None
    else
      match DigitsIn(s[1..], base)
      case None => None
      case Some(ds) => Some([DigitValue(s[0], base)] + ds)
  }

  function SkipSpaces(s: string): string {
    if s != "" && IsSpace(s[0]) then SkipSpaces(s[1..]) else s
  }

  /** The base that the prefix of a text asks for, and how long the prefix is. */
  function Prefix(s: string): (nat, nat) {
    if s != "" && s[0] == '0' then
      if |s| > 1 && (s[1] == 'x' || s[1] == 'X') then (16, 2)
      else if |s| > 1 && (s[1] == 'b' || s[1] == 'B') then (2, 2)
      else (8, 0)
    else (10, 0)
  }

  /** The number that a text stands for; base 0 means that the text has a prefix. */
  function Parse(s: string, base: nat): Option<int> {
    var s1 := SkipSpaces(s);
    var negative := s1 != "" && s1[0] == '-';
    var s2 := if negative then s1[1..] else s1;
    var (b, n) := if base == 0 then Prefix(s2) else (base, 0);
    match DigitsIn(s2[n..], b)
    case None => None
    case Some(ds) =>
      if ds == [] then None
      else Some(if negative then -(FromHigh(b, ds) as int) else FromHigh(b, ds))
  }

  // ------------------------------------------------------------------ the text of a number

  const LOWER_DIGITS := "0123456789abcdefghijklmnopqrstuvwxyz"
  const UPPER_DIGITS := "0123456789ABCDEFGHIJKLMNOPQRSTUVWXYZ"

  function Chars(table: string, ds: seq<nat>): (s: string)
    requires |table| == 36 && AreDigits(36, ds)
    ensures |s| == |ds| && forall i :: 0 <= i < |ds| ==> s[i] == table[ds[i]]
  {
    seq(|ds|, i requires 0 <= i < |ds| => table[ds[i]])
  }

  /** The text of `v`: no blanks, no prefix, no leading zeros. */
  ghost predicate IsText(s: string, table: string, base: nat, v: int)
    requires |table| == 36 && base <= 36
  {
    exists ds: seq<nat> ::
      && AreDigits(base, ds) && ds != [] && (ds[0] == 0 ==> |ds| == 1) && FromHigh(base, ds) == Abs(v)
      && s == (if v < 0 then "-" else "") + Chars(table, ds)
  }

  lemma DigitOfChar(d: nat, base: nat)
    requires d < base <= 36
    ensures !IsSpace(LOWER_DIGITS[d]) && DigitValue(LOWER_DIGITS[d], base) == d
    ensures !IsSpace(UPPER_DIGITS[d]) && DigitValue(UPPER_DIGITS[d], base) == d
    ensures LOWER_DIGITS[d] != '-' && UPPER_DIGITS[d] != '-'
    ensures (LOWER_DIGITS[d] == '0' ==> d == 0) && (UPPER_DIGITS[d] == '0' ==> d == 0)
  {
    LowerDigit(d, base);
    UpperDigit(d, base);
  }

  lemma LowerDigit(d: nat, base: nat)
    requires d < base <= 36
    ensures !IsSpace(LOWER_DIGITS[d]) && DigitValue(LOWER_DIGITS[d], base) == d
    ensures LOWER_DIGITS[d] == if d < 10 then '0' + d as char else 'a' + (d - 10) as char
    ensures LOWER_DIGITS[d] != '-' && (LOWER_DIGITS[d] == '0' ==> d == 0)
  {
    assert LOWER_DIGITS[d] == if d < 10 then '0' + d as char else 'a' + (d - 10) as char;
  }

  lemma UpperDigit(d: nat, base: nat)
    requires d < base <= 36
    ensures !IsSpace(UPPER_DIGITS[d]) && DigitValue(UPPER_DIGITS[d], base) == d
    ensures UPPER_DIGITS[d] == if d < 10 then '0' + d as char else 'A' + (d - 10) as char
    ensures UPPER_DIGITS[d] != '-' && (UPPER_DIGITS[d] == '0' ==> d == 0)
  {
    assert UPPER_DIGITS[d] == if d < 10 then '0' + d as char else 'A' + (d - 10) as char;
  }

  predicate Table(table: string) {
    table == LOWER_DIGITS || table == UPPER_DIGITS
  }

  /** Digits survive being written as characters. */
  lemma {:induction false} DigitsOfChars(table: string, ds: seq<nat>, base: nat)
    requires Table(table) && base <= 36 && AreDigits(base, ds)
    ensures DigitsIn(Chars(table, ds), base) == Some(ds)
  {
    var s := Chars(table, ds);
    if ds != [] {
      var d := ds[0];
      DigitOfChar(d, base);
      DigitsOfChars(table, ds[1..], base);
      assert s[0] == table[d] && s[1..] == Chars(table, ds[1..]);
      assert ds == [d] + ds[1..];
      hide DigitValue, IsSpace, Chars;
    } else {
      assert s == "";
    }
  }

  /** Reading a written number gives it back, whatever the base and the case of the digits. */
  lemma ReadBack(s: string, table: string, base: nat, v: int)
    requires Table(table) && 2 <= base <= 36 && IsText(s, table, base, v)
    ensures Parse(s, base) == Some(v)
  {
    assert |table| == 36;
    hide LOWER_DIGITS, UPPER_DIGITS, Table, FromHigh, SkipSpaces, Chars, DigitsIn, Parse;
    var ds := TextDigits(s, table, base, v);
    DigitsOfChars(table, ds, base);
    FirstChar(s, table, base, v, ds);
    SignAndDigits(s, Chars(table, ds), base, v, ds);
  }

  /** A sign and digits are all that there is to parse. */
  lemma SignAndDigits(s: string, t: string, base: nat, v: int, ds: seq<nat>)
    requires SkipSpaces(s) == s != "" && (s[0] == '-' <==> v < 0) && t == (if v < 0 then s[1..] else s)
    requires base > 0 && DigitsIn(t, base) == Some(ds) && ds != [] && FromHigh(base, ds) == Abs(v)
    ensures Parse(s, base) == Some(v)
  {
    assert t[0..] == t;
  }

  lemma TextDigits(s: string, table: string, base: nat, v: int) returns (ds: seq<nat>)
    requires Table(table) && base <= 36 && IsText(s, table, base, v)
    ensures AreDigits(base, ds) && ds != [] && (ds[0] == 0 ==> |ds| == 1) && FromHigh(base, ds) == Abs(v)
    ensures s == (if v < 0 then "-" else "") + Chars(table, ds)
  {
    ds :| && AreDigits(base, ds) && ds != [] && (ds[0] == 0 ==> |ds| == 1) && FromHigh(base, ds) == Abs(v)
          && s == (if v < 0 then "-" else "") + Chars(table, ds);
  }

  /** The sign and the digits are where they belong. */
  lemma FirstChar(s: string, table: string, base: nat, v: int, ds: seq<nat>)
    requires Table(table) && base <= 36 && AreDigits(base, ds) && ds != []
    requires s == (if v < 0 then "-" else "") + Chars(table, ds)
    ensures SkipSpaces(s) == s && s != "" && (s[0] == '-' <==> v < 0)
    ensures (if v < 0 then s[1..] else s) == Chars(table, ds)
    ensures Chars(table, ds)[0] == '0' ==> ds[0] == 0
  {
    DigitOfChar(ds[0], base);
    var t := Chars(table, ds);
    assert t[0] == table[ds[0]];
    if v < 0 {
      assert s[0] == '-' && s[1..] == t;
    } else {
      assert s == t;
    }
  }

  /** A decimal text needs no base: it can be read with base 0 too, as symbol_parse does for integers. */
  lemma ReadBackDecimal(s: string, table: string, v: int)
    requires Table(table) && IsText(s, table, 10, v)
    ensures Parse(s, 0) == Some(v)
  {
    assert |table| == 36;
    hide LOWER_DIGITS, UPPER_DIGITS, Table, FromHigh, SkipSpaces, Chars, DigitsIn, Parse, Prefix, AreDigits;
    var ds := TextDigits(s, table, 10, v);
    var t := Chars(table, ds);
    DigitsOfChars(table, ds, 10);
    FirstChar(s, table, 10, v, ds);
    DecimalDigits(t, ds);
    if t[0] == '0' {
      DigitsOfChars(table, ds, 8);
    }
    PrefixedDigits(s, t, if t[0] == '0' then 8 else 10, v, ds);
  }

  lemma PrefixedDigits(s: string, t: string, b: nat, v: int, ds: seq<nat>)
    requires SkipSpaces(s) == s != "" && (s[0] == '-' <==> v < 0) && t == (if v < 0 then s[1..] else s)
    requires Prefix(t) == (b, 0) && DigitsIn(t, b) == Some(ds) && ds != [] && FromHigh(b, ds) == Abs(v)
    ensures Parse(s, 0) == Some(v)
  {
    hide SkipSpaces, Prefix, DigitsIn, FromHigh;
    assert t[0..] == t;
  }

  /** A text that starts with a zero digit is zero in any base. */
  lemma DecimalDigits(t: string, ds: seq<nat>)
    requires |t| == |ds| > 0 && (t[0] == '0' ==> ds[0] == 0) && (ds[0] == 0 ==> |ds| == 1) && AreDigits(10, ds)
    ensures Prefix(t) == if t[0] == '0' then (8, 0) else (10, 0)
    ensures t[0] == '0' ==> FromHigh(8, ds) == FromHigh(10, ds) && AreDigits(8, ds)
  {
    if t[0] == '0' {
      assert ds == [0];
      FromHighOne(10, 0);
      FromHighOne(8, 0);
    }
  }

  // ------------------------------------------------------------------ texts with a prefix

  /** What follows a prefix is read in the base the prefix asks for, with or without a sign. */
  lemma PrefixParses(s: string, n: nat, b: nat, v: nat, ds: seq<nat>)
    requires s != "" && s[0] == '0' && n <= |s| && Prefix(s) == (b, n)
    requires DigitsIn(s[n..], b) == Some(ds) && ds != [] && FromHigh(b, ds) == v
    ensures Parse(s, 0) == Some(v) && Parse("-" + s, 0) == Some(-(v as int))
  {
    hide FromHigh, DigitsIn, Prefix;
    assert ("-" + s)[1..] == s;
  }

  /** The text of `v` in capital or small letters. */
  ghost predicate Written(t: string, base: nat, v: int)
    requires base <= 36
  {
    IsText(t, LOWER_DIGITS, base, v) || IsText(t, UPPER_DIGITS, base, v)
  }

  /** In base 0 a text that starts with 0x or 0X is hexadecimal. */
  lemma ReadHexadecimal(t: string, v: nat)
    requires Written(t, 16, v)
    ensures Parse("0x" + t, 0) == Some(v) && Parse("-0x" + t, 0) == Some(-(v as int))
    ensures Parse("0X" + t, 0) == Some(v) && Parse("-0X" + t, 0) == Some(-(v as int))
  {
    hide *;
    ReadPrefixed('x', t, 16, v);
    ReadPrefixed('X', t, 16, v);
    assert "-" + ("0x" + t) == "-0x" + t && "-" + ("0X" + t) == "-0X" + t;
    assert ['0', 'x'] == "0x" && ['0', 'X'] == "0X";
  }

  /** One that starts with 0b or 0B is binary. */
  lemma ReadBinary(t: string, v: nat)
    requires Written(t, 2, v)
    ensures Parse("0b" + t, 0) == Some(v) && Parse("-0b" + t, 0) == Some(-(v as int))
    ensures Parse("0B" + t, 0) == Some(v) && Parse("-0B" + t, 0) == Some(-(v as int))
  {
    hide *;
    ReadPrefixed('b', t, 2, v);
    ReadPrefixed('B', t, 2, v);
    assert "-" + ("0b" + t) == "-0b" + t && "-" + ("0B" + t) == "-0B" + t;
    assert ['0', 'b'] == "0b" && ['0', 'B'] == "0B";
  }

  lemma ReadPrefixed(c: char, t: string, b: nat, v: nat)
    requires b <= 36 && Written(t, b, v)
    requires (b == 16 && (c == 'x' || c == 'X')) || (b == 2 && (c == 'b' || c == 'B'))
    ensures Parse(['0', c] + t, 0) == Some(v) && Parse("-" + (['0', c] + t), 0) == Some(-(v as int))
  {
    hide Written, DigitsIn, Parse, FromHigh;
    var ds, d := NatDigits(t, b, v);
    assert (['0', c] + t)[2..] == t;
    PrefixParses(['0', c] + t, 2, b, v, ds);
  }

  /** The digits of a text without a sign, and the first of them. */
  lemma NatDigits(t: string, b: nat, v: nat) returns (ds: seq<nat>, d: nat)
    requires b <= 36 && Written(t, b, v)
    ensures DigitsIn(t, b) == Some(ds) && ds != [] && FromHigh(b, ds) == v
    ensures t != "" && d < b && (t[0] == LOWER_DIGITS[d] || t[0] == UPPER_DIGITS[d])
  {
    var table := if IsText(t, LOWER_DIGITS, b, v) then LOWER_DIGITS else UPPER_DIGITS;
    assert Table(table) && |table| == 36;
    hide LOWER_DIGITS, UPPER_DIGITS, Table, FromHigh;
    ds := TextDigits(t, table, b, v);
    assert t == Chars(table, ds);
    DigitsOfChars(table, ds, b);
    d := ds[0];
  }

  /** One that starts with another 0 is octal. */
  lemma ReadOctal(t: string, v: nat)
    requires Written(t, 8, v)
    ensures Parse("0" + t, 0) == Some(v) && Parse("-0" + t, 0) == Some(-(v as int))
  {
    hide *;
    var ds, d := NatDigits(t, 8, v);
    OctalPrefix(t, d);
    ZeroInFront(t, ds);
    PrefixParses("0" + t, 0, 8, v, [0] + ds);
    assert "-" + ("0" + t) == "-0" + t;
  }

  lemma OctalPrefix(t: string, d: nat)
    requires t != "" && d < 8 && (t[0] == LOWER_DIGITS[d] || t[0] == UPPER_DIGITS[d])
    ensures Prefix("0" + t) == (8, 0)
  {
    OctalDigit(d);
  }

  lemma OctalDigit(d: nat)
    requires d < 8
    ensures LOWER_DIGITS[d] == UPPER_DIGITS[d] == '0' + d as char
  {
  }

  lemma ZeroInFront(t: string, ds: seq<nat>)
    requires DigitsIn(t, 8) == Some(ds)
    ensures ("0" + t)[0..] == "0" + t && DigitsIn("0" + t, 8) == Some([0] + ds)
    ensures FromHigh(8, [0] + ds) == FromHigh(8, ds)
  {
    assert ("0" + t)[1..] == t;
    FromHighAppend(8, [0], ds);
    FromHighOne(8, 0);
  }

  // ------------------------------------------------------------------ what is accepted

  /** The blanks of the C locale: space, tab, line feed, vertical tab, form feed and carriage return. */
  ghost predicate Blank(c: char) {
    c == ' ' || c == '\t' || c == '\n' || c == '\U{000B}' || c == '\U{000C}' || c == '\r'
  }

  lemma BlankIs(c: char)
    ensures Blank(c) <==> IsSpace(c)
  {
  }

  /** A digit of the base, in either case. */
  ghost predicate DigitOf(c: char, base: nat)
    requires base <= 36
  {
    exists d: nat :: d < base && (c == LOWER_DIGITS[d] || c == UPPER_DIGITS[d])
  }

  lemma DigitOfIs(c: char, base: nat)
    requires base <= 36
    ensures DigitOf(c, base) <==> DigitValue(c, base) < base
  {
    var d := DigitValue(c, base);
    if d < base {
      if d < 10 {
        assert c == LOWER_DIGITS[d];
      } else {
        assert c == LOWER_DIGITS[d] || c == UPPER_DIGITS[d];
      }
    }
    if DigitOf(c, base) {
      var e: nat :| e < base && (c == LOWER_DIGITS[e] || c == UPPER_DIGITS[e]);
      DigitOfChar(e, base);
    }
  }

  ghost predicate OnlyBlanks(s: string) {
    forall i :: 0 <= i < |s| ==> Blank(s[i])
  }

  ghost predicate OnlyDigits(s: string, base: nat)
    requires base <= 36
  {
    forall i :: 0 <= i < |s| ==> Blank(s[i]) || DigitOf(s[i], base)
  }

  lemma {:induction false} DigitsInIff(s: string, base: nat)
    requires base <= 36
    ensures DigitsIn(s, base).Some? <==> OnlyDigits(s, base)
    ensures DigitsIn(s, base) == Some([]) <==> OnlyBlanks(s)
  {
    hide DigitValue, DigitOf, IsSpace;
    if s != "" {
      var t := s[1..];
      assert s == [s[0]] + t;
      DigitsInIff(t, base);
      BlankIs(s[0]);
      DigitOfIs(s[0], base);
      OnlyCons(s[0], t, base);
      hide Blank, OnlyBlanks, OnlyDigits;
    }
  }

  lemma OnlyCons(c: char, t: string, base: nat)
    requires base <= 36
    ensures OnlyBlanks([c] + t) <==> Blank(c) && OnlyBlanks(t)
    ensures OnlyDigits([c] + t, base) <==> (Blank(c) || DigitOf(c, base)) && OnlyDigits(t, base)
  {
    hide Blank, DigitOf;
    var s := [c] + t;
    assert s[0] == c && forall i :: 0 <= i < |t| ==> s[i + 1] == t[i];
    if OnlyBlanks(s) { forall i | 0 <= i < |t| ensures Blank(t[i]) { assert s[i + 1] == t[i]; } }
    if OnlyDigits(s, base) {
      forall i | 0 <= i < |t| ensures Blank(t[i]) || DigitOf(t[i], base) { assert s[i + 1] == t[i]; }
    }
  }

  /** Blanks in front make no difference. */
  lemma {:induction false} BlanksSkipped(blanks: string, s: string, base: nat)
    requires OnlyBlanks(blanks)
    ensures Parse(blanks + s, base) == Parse(s, base)
  {
    if blanks == "" {
      assert blanks + s == s;
    } else {
      assert (blanks + s)[1..] == blanks[1..] + s && (blanks + s)[0] == blanks[0];
      BlankIs(blanks[0]);
      BlanksSkipped(blanks[1..], s, base);
      hide IsSpace, DigitsIn, Prefix, FromHigh;
    }
  }

  lemma {:induction false} DigitsAround(a: string, c: char, b: string, base: nat)
    requires Blank(c)
    ensures DigitsIn(a + [c] + b, base) == DigitsIn(a + b, base)
  {
    var s := a + [c] + b;
    if a == "" {
      BlankIs(c);
      assert s[0] == c && s[1..] == b && a + b == b;
    } else {
      assert s[0] == a[0] == (a + b)[0] && s[1..] == a[1..] + [c] + b && (a + b)[1..] == a[1..] + b;
      DigitsAround(a[1..], c, b, base);
    }
    hide IsSpace, Blank, DigitValue;
  }

  /** With a given base, blanks make no difference anywhere in the text. */
  lemma {:induction false} BlankAnywhere(a: string, c: char, b: string, base: nat)
    requires Blank(c) && base != 0
    ensures Parse(a + [c] + b, base) == Parse(a + b, base)
  {
    hide *;
    var s := a + [c] + b;
    if a == "" {
      assert s == [c] + b && a + b == b;
      OneBlank(c);
      BlanksSkipped([c], b, base);
    } else {
      var t := a[1..];
      assert s[0] == a[0] == (a + b)[0] && s[1..] == t + [c] + b && (a + b)[1..] == t + b;
      ParseNext(s, base);
      ParseNext(a + b, base);
      DigitsAround(a, c, b, base);
      DigitsAround(t, c, b, base);
      if Blank(a[0]) { BlankAnywhere(t, c, b, base); }
    }
  }

  lemma OneBlank(c: char)
    requires Blank(c)
    ensures OnlyBlanks([c])
  {
  }

  /** What the first character of a text decides. */
  lemma ParseNext(s: string, base: nat)
    requires s != "" && base != 0
    ensures Parse(s, base)
            == if Blank(s[0]) then Parse(s[1..], base)
               else if s[0] == '-' then Signed(true, base, DigitsIn(s[1..], base))
               else Signed(false, base, DigitsIn(s, base))
  {
    BlankIs(s[0]);
    assert s[0..] == s && s[1..][0..] == s[1..];
    hide IsSpace, Blank, DigitsIn, FromHigh, Prefix;
  }

  ghost function Signed(negative: bool, base: nat, ds: Option<seq<nat>>): Option<int> {
    match ds
    case None => None
    case Some(ds) =>
      if ds == [] then None else Some(if negative then -(FromHigh(base, ds) as int) else FromHigh(base, ds))
  }

  /** After the blanks in front and a sign there must be a digit of the base, and nothing else but digits and blanks. */
  lemma ParsedIff(s: string, base: nat)
    requires 2 <= base <= 36 && (s == "" || !Blank(s[0]))
    ensures var t := if s != "" && s[0] == '-' then s[1..] else s;
            Parse(s, base).Some? <==> OnlyDigits(t, base) && !OnlyBlanks(t)
  {
    if s != "" { BlankIs(s[0]); }
    var t := if s != "" && s[0] == '-' then s[1..] else s;
    DigitsInIff(t, base);
    hide DigitsIn, OnlyDigits, OnlyBlanks, IsSpace, Blank, FromHigh, Prefix;
    assert t[0..] == t;
  }

  // ------------------------------------------------------------------ mpz_get_str

  /** The digits of the magnitude. */
  method MagnitudeDigits(u: Number, base: Limb, ghost v: int) returns (sp: seq<nat>)
    requires u.Is(v) && v != 0 && 2 <= base <= 36
    ensures AreDigits(base, sp) && sp != [] && sp[0] != 0 && FromHigh(base, sp) == Abs(v)
  {
    var un := Abs(u.size);
    Opened(u.d[..], u.size, v, u.d[..]);
    var bits := PowerOfTwoBits(base);
    hide Represents, V, FromHigh;
    if bits > 0 {
      sp := GetStrBits(bits, u.d, un);
    } else {
      var info := GetBaseInfo(base);
      var tp := new Limb[un];
      CopyI(tp, 0, u.d, 0, un);
      VCopy(u.d[..], tp[..], 0, 0, un);
      assert tp[0..0 + un][un - 1] == u.d[0..0 + un][un - 1];
      sp := GetStrOther(base, info, tp, un);
    }
  }

  /** The base that mpz_get_str takes: it writes decimal numbers for -1, 0 and 1. */
  function TextBase(base0: int): nat {
    if Abs(base0) <= 1 then 10 else Abs(base0)
  }

  function TableOf(base0: int): string {
    if base0 >= 0 then LOWER_DIGITS else UPPER_DIGITS
  }

  /** mpz_get_str; there is no text for a base above 36. A negative base asks for capital letters. Room for
      the digits, a sign and the NUL is enough, and is what is allocated if there is no buffer. */
  method GetStr(sp0: array?<char>, base0: int, u: Number, ghost v: int) returns (sp: array?<char>, sn: nat)
    requires u.Is(v)
    requires sp0 != null && Abs(base0) <= 36 ==>
               forall size: nat :: SizeOf(Abs(v), TextBase(base0), size) ==> size + 2 <= sp0.Length
    modifies sp0
    ensures sp == null <==> Abs(base0) > 36
    ensures TextBase(base0) == if -1 <= base0 <= 1 then 10 else if base0 < 0 then -base0 else base0
    ensures TableOf(base0) == if base0 < 0 then UPPER_DIGITS else LOWER_DIGITS
    ensures sp != null ==> if sp0 != null then sp == sp0 else fresh(sp)
    ensures sp != null ==> sn < sp.Length && sp[sn] == '\0' && IsText(sp[..sn], TableOf(base0), TextBase(base0), v)
  {
    var digits := if base0 >= 0 then LOWER_DIGITS else UPPER_DIGITS;
    var base: nat := if base0 >= 0 then base0 else -base0;
    if base <= 1 { base := 10; }
    if base > 36 { return null, 0; }
    assert |digits| == 36 && digits[0] == '0' && digits == TableOf(base0);
    hide LOWER_DIGITS, UPPER_DIGITS, TableOf, IsText, SizeOf;
    var size := SizeInBase(u, base, v);
    sn := 1 + size;
    sp := sp0;
    if sp0 == null { sp := new char[1 + sn]; }
    assert size + 2 <= sp.Length by { if sp0 != null { assert SizeOf(Abs(v), TextBase(base0), size); } }
    hide TextBase;
    sn := PutText(sp, digits, base, u, v, size);
  }

  /** The part of mpz_get_str after it has its buffer. */
  method PutText(sp: array<char>, digits: string, base: Limb, u: Number, ghost v: int, ghost size: nat)
      returns (sn: nat)
    requires u.Is(v) && |digits| == 36 && digits[0] == '0' && 2 <= base <= 36
    requires SizeOf(Abs(v), base, size) && size + 2 <= sp.Length
    modifies sp
    ensures sn < sp.Length && sp[sn] == '\0' && IsText(sp[..sn], digits, base, v)
  {
    Opened(u.d[..], u.size, v, u.d[..]);
    hide Represents, IsText, SizeOf;
    if u.size == 0 {
      SizeUnique(0, base, size, 1) by { ZeroSize(base); }
      sp[0] := '0';
      sp[1] := '\0';
      ZeroText(digits, base);
      assert sp[..1] == "0";
      return 1;
    }
    var ds := MagnitudeDigits(u, base, v);
    DigitsSize(base, ds);
    SizeUnique(Abs(v), base, size, |ds|);
    var i := 0;
    if u.size < 0 {
      sp[0] := '-';
      i := 1;
    }
    assert sp[..i] == if v < 0 then "-" else "";
    sn := WriteChars(sp, i, digits, ds);
    TextOf(sp[..sn], digits, base, v, ds);
  }

  lemma ZeroSize(base: nat)
    ensures SizeOf(0, base, 1)
  {
  }

  lemma TextOf(s: string, table: string, base: nat, v: int, ds: seq<nat>)
    requires |table| == 36 && base <= 36 && AreDigits(base, ds) && ds != [] && ds[0] != 0
             && FromHigh(base, ds) == Abs(v)
    requires s == (if v < 0 then "-" else "") + Chars(table, ds)
    ensures IsText(s, table, base, v)
  {
  }

  /** The last loop of mpz_get_str: the digits are replaced by their characters, and the text ends there. */
  method WriteChars(sp: array<char>, i0: nat, digits: string, ds: seq<nat>) returns (sn: nat)
    requires |digits| == 36 && AreDigits(36, ds) && i0 + |ds| < sp.Length
    modifies sp
    ensures sn == i0 + |ds| && sp[..sn] == old(sp[..i0]) + Chars(digits, ds) && sp[sn] == '\0'
  {
    ghost var front, text := sp[..i0], Chars(digits, ds);
    sn := i0 + |ds|;
    var i := i0;
    while i < sn
      invariant i0 <= i <= sn && sp[..i] == front + text[..i - i0]
    {
      sp[i] := digits[ds[i - i0]];
      i := i + 1;
      assert sp[..i] == sp[..i - 1] + [sp[i - 1]];
      assert text[..i - i0] == text[..i - 1 - i0] + [text[i - 1 - i0]];
      assert front + text[..i - 1 - i0] + [sp[i - 1]] == front + text[..i - i0];
    }
    assert text[..|ds|] == text;
    sp[sn] := '\0';
    assert sp[..sn] == front + text;
  }

  lemma ZeroText(table: string, base: nat)
    requires |table| == 36 && table[0] == '0' && 2 <= base <= 36
    ensures IsText("0", table, base, 0)
  {
    FromHighOne(base, 0);
    var ds: seq<nat> := [0];
    assert Chars(table, ds) == "0";
    assert "" + "0" == "0";
  }

  // ------------------------------------------------------------------ mpz_set_str

  lemma {:induction false} SpacesSkipped(s: string, i: nat)
    requires i <= |s| && forall k :: 0 <= k < i ==> IsSpace(s[k])
    requires i == |s| || !IsSpace(s[i])
    ensures SkipSpaces(s) == s[i..]
  {
    if i > 0 {
      SpacesSkipped(s[1..], i - 1);
      assert s[1..][i - 1..] == s[i..];
    }
  }

  lemma {:induction false} DigitsAppend(s: string, c: char, base: nat)
    ensures DigitsIn(s + [c], base)
            == match DigitsIn(s, base)
               case None => None
               case Some(ds) => if IsSpace(c) then Some(ds)
                                else if DigitValue(c, base) >= base then None
                                else Some(ds + [DigitValue(c, base)])
  {
    if s == "" {
      assert s + [c] == [c] && [c][1..] == "";
      assert DigitsIn("", base) == Some([]);
      var d := DigitValue(c, base);
      assert [d] + [] == [] + [d];
    } else {
      DigitsAppend(s[1..], c, base);
      assert (s + [c])[1..] == s[1..] + [c] && (s + [c])[0] == s[0];
      hide DigitValue, IsSpace;
      if DigitsIn(s[1..], base).Some? && DigitValue(s[0], base) < base && !IsSpace(s[0]) {
        var ds := DigitsIn(s[1..], base).value;
        assert [DigitValue(s[0], base)] + (ds + [DigitValue(c, base)])
               == ([DigitValue(s[0], base)] + ds) + [DigitValue(c, base)];
      }
    }
  }

  /** A text with something in it that is no digit is refused whatever follows. */
  lemma {:induction false} NoDigits(s: string, t: string, base: nat)
    requires DigitsIn(s, base) == None
    ensures DigitsIn(s + t, base) == None
  {
    assert (s + t)[1..] == s[1..] + t && (s + t)[0] == s[0];
    if IsSpace(s[0]) || DigitValue(s[0], base) < base { NoDigits(s[1..], t, base); }
  }

  /** The digit loop of mpz_set_str. */
  method ReadDigits(s: string, base: nat) returns (dp: Option<seq<nat>>)
    ensures dp == DigitsIn(s, base)
  {
    var ds: seq<nat> := [];
    var i := 0;
    hide DigitsIn, IsSpace, DigitValue;
    assert DigitsIn(s[..0], base) == Some([]) by { NoChars(s, base); }
    while i < |s|
      invariant i <= |s| && DigitsIn(s[..i], base) == Some(ds)
    {
      var digit := base;
      assert s[..i + 1] == s[..i] + [s[i]];
      DigitsAppend(s[..i], s[i], base);
      if !IsSpace(s[i]) {
        digit := DigitValue(s[i], base);
        if digit >= base {
          NoDigits(s[..i + 1], s[i + 1..], base);
          assert s == s[..i + 1] + s[i + 1..];
          return None;
        }
        ds := ds + [digit];
      }
      i := i + 1;
    }
    assert s[..i] == s;
    dp := Some(ds);
  }

  lemma NoChars(s: string, base: nat)
    ensures DigitsIn(s[..0], base) == Some([])
  {
  }

  /** The digits become limbs; the sign goes into the size. */
  method StoreDigits(r: Number, dp: seq<nat>, base: Limb, sign: bool)
    requires 2 <= base <= 36 && AreDigits(base, dp) && dp != []
    modifies r, r.d
    ensures r.Is(if sign then -(FromHigh(base, dp) as int) else FromHigh(base, dp))
  {
    var bits := PowerOfTwoBits(base);
    var rn: nat;
    hide V, FromHigh;
    if bits > 0 {
      var alloc := (|dp| * bits + 63) / 64;
      var rp := r.Realloc(alloc);
      Commute(|dp|, bits);
      rn := SetStrBits(rp, dp, bits);
    } else {
      rn := StoreOther(r, dp, base);
    }
    SignedMagnitude(r.d[..], rn, FromHigh(base, dp));
    r.size := if sign then -(rn as int) else rn;
  }

  method StoreOther(r: Number, dp: seq<nat>, base: Limb) returns (rn: nat)
    requires 2 <= base <= 36 && AreDigits(base, dp) && dp != []
    modifies r`d, r.d
    ensures Magnitude(r.d[..], rn, FromHigh(base, dp))
  {
    var info := GetBaseInfo(base);
    ghost var left := GroupCount(|dp|, info.exp);
    hide FromHigh, Largest;
    var alloc := (|dp| + info.exp - 1) / info.exp;
    var rp := r.Realloc(alloc);
    rn := SetStrOther(rp, dp, base, info);
    ghost var n := rn;
    if rp[rn - 1] == 0 {
      rn := rn - 1;
      VTop(rp[..], 0, rn);
    }
  }

  /** mpz_set_str: reads what Parse() says, or fails and leaves zero. */
  method SetStr(r: Number, text: string, base0: nat) returns (ret: int)
    requires base0 == 0 || 2 <= base0 <= 36
    modifies r, r.d
    ensures match Parse(text, base0)
            case Some(v) => ret == 0 && r.Is(v)
            case None => ret == -1 && r.Is(0)
  {
    var sp, base := text, base0;
    var i := 0;
    while i < |text| && IsSpace(text[i])
      invariant i <= |text| && forall k :: 0 <= k < i ==> IsSpace(text[k])
    {
      i := i + 1;
    }
    SpacesSkipped(text, i);
    sp := text[i..];
    var sign := sp != "" && sp[0] == '-';
    if sign { sp := sp[1..]; }
    if base == 0 {
      if sp != "" && sp[0] == '0' {
        if |sp| > 1 && (sp[1] == 'x' || sp[1] == 'X') {
          base := 16;
          sp := sp[2..];
        } else if |sp| > 1 && (sp[1] == 'b' || sp[1] == 'B') {
          base := 2;
          sp := sp[2..];
        } else {
          base := 8;
        }
      } else {
        base := 10;
      }
    }
    ret := SetDigits(r, sp, base, sign);
    hide IsSpace, SkipSpaces;
  }

  /** mpz_set_str from the digits on. */
  method SetDigits(r: Number, sp: string, base: nat, sign: bool) returns (ret: int)
    requires 2 <= base <= 36
    modifies r, r.d
    ensures match DigitsIn(sp, base)
            case None => ret == -1 && r.Is(0)
            case Some(ds) => if ds == [] then ret == -1 && r.Is(0)
                             else ret == 0 && r.Is(if sign then -(FromHigh(base, ds) as int) else FromHigh(base, ds))
  {
    if sp == "" {
      r.size := 0;
      return -1;
    }
    var dp := ReadDigits(sp, base);
    if dp.None? || dp.value == [] {
      r.size := 0;
      return -1;
    }
    StoreDigits(r, dp.value, base, sign);
    ret := 0;
  }

  // ------------------------------------------------------------------ both

  /** A number that is written and read again, in whatever base from 2 to 36 and whatever the case of the digits. */
  method WriteAndRead(u: Number, base: int, r: Number, ghost v: int) returns (ret: int)
    requires u.Is(v) && 2 <= Abs(base) <= 36
    modifies r, r.d
    ensures ret == 0 && r.Is(v)
  {
    var sp, sn := GetStr(null, base, u, v);
    var text := sp[..sn];
    ReadBack(text, TableOf(base), Abs(base), v);
    ret := SetStr(r, text, Abs(base));
  }
}
