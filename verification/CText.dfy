/** C strings and the numbers in them. A string is the characters before its terminator, so `*ptr` is
    the terminator exactly when the position of `ptr` is the length. The conversions follow sections
    7.22.1.4 and 6.4.4.1 of ISO/IEC 9899:2011, for 64-bit `long` and bases up to sixteen, but without
    the optional `0x` before the digits of base sixteen. */
module CText {
  import opened Machine
  import opened Seqs

  const LONG_MAX: int := 0x7FFF_FFFF_FFFF_FFFF
  const LONG_MIN: int := -0x8000_0000_0000_0000
  const INT_MAX: int := 0x7FFF_FFFF
  const INT_MIN: int := -0x8000_0000

  predicate IsSpace(c: char) {
    c == ' ' || 9 <= c as int <= 13
  }

  /** The value of a digit, or 16 for any other character. */
  function DigitOf(c: char): (d: nat)
    ensures d <= 16
  {
    if '0' <= c <= '9' then c as int - '0' as int
    else if 'a' <= c <= 'f' then c as int - 'a' as int + 10
    else if 'A' <= c <= 'F' then c as int - 'A' as int + 10
    else 16
  }

  predicate AllDigits(s: string, base: nat) {
    forall c :: c in s ==> DigitOf(c) < base
  }

  /** How many characters at the front are spaces. */
  function Spaces(s: string): (n: nat)
    ensures n <= |s|
  {
    if s == [] || !IsSpace(s[0]) then 0 else 1 + Spaces(s[1..])
  }

  /** How many characters at the front are digits. */
  function DigitRun(s: string, base: nat): (n: nat)
    ensures n <= |s| && AllDigits(s[..n], base)
    ensures n < |s| ==> DigitOf(s[n]) >= base
  {
    if s == [] || DigitOf(s[0]) >= base then 0
    else
      var n := 1 + DigitRun(s[1..], base);
      assert s[..n] == [s[0]] + s[1..][..n - 1];
      n
  }

  function DigitsValue(s: string, base: nat): nat {
    if s == [] then 0 else DigitsValue(s[..|s| - 1], base) * base + DigitOf(s[|s| - 1])
  }

  /** What a conversion recognises: a sign, digits, and where they end. Without digits nothing is
      consumed. */
  datatype Scan = Scan(neg: bool, digits: string, end: nat)

  function SignEnd(s: string, i: nat): (j: nat)
    requires i <= |s|
    ensures i <= j <= |s|
  {
    if i < |s| && (s[i] == '-' || s[i] == '+') then i + 1 else i
  }

  function ScanNumber(s: string, base: nat): (r: Scan)
    ensures r.end <= |s| && (r.digits == [] ==> r.end == 0)
  {
    var i := Spaces(s);
    var j := SignEnd(s, i);
    var k := DigitRun(s[j..], base);
    if k == 0 then Scan(false, "", 0) else Scan(i < j && s[i] == '-', s[j..j + k], j + k)
  }

  /** The result of a conversion: the value, the end position, and whether it was out of range. */
  datatype Conversion = Conversion(value: int, end: nat, outOfRange: bool)

  function Strtoul(s: string, base: nat): (c: Conversion)
    ensures c.end <= |s| && 0 <= c.value < TWO_64
    ensures c.outOfRange ==> c.value == TWO_64 - 1
  {
    var r := ScanNumber(s, base);
    var m: int := DigitsValue(r.digits, base);
    if m >= TWO_64 then Conversion(TWO_64 - 1, r.end, true)
    else Conversion(if r.neg then Wrap(-m) else m, r.end, false)
  }

  function Strtol(s: string): (c: Conversion)
    ensures c.end <= |s| && LONG_MIN <= c.value <= LONG_MAX
    ensures c.outOfRange ==> c.value == LONG_MIN || c.value == LONG_MAX
  {
    var r := ScanNumber(s, 10);
    var m: int := DigitsValue(r.digits, 10);
    var v: int := if r.neg then -m else m;
    if v > LONG_MAX then Conversion(LONG_MAX, r.end, true)
    else if v < LONG_MIN then Conversion(LONG_MIN, r.end, true)
    else Conversion(v, r.end, false)
  }

  // ---- Truth values ----

  const TRUTHS: seq<string> := ["1", "true", "yes", "si"]
  const FALSEHOODS: seq<string> := ["0", "false", "no"]

  function TruthOf(token: string): Option<bool> {
    if token in TRUTHS then Some(true) else if token in FALSEHOODS then Some(false) else None
  }

  /** The words for true and false, one by one. */
  lemma TruthCases(v: string)
    ensures TruthOf(v) ==
            if v == "1" || v == "true" || v == "yes" || v == "si" then Some(true)
            else if v == "0" || v == "false" || v == "no" then Some(false)
            else None
  {
    assert v in TRUTHS <==> v == TRUTHS[0] || v == TRUTHS[1] || v == TRUTHS[2] || v == TRUTHS[3];
    assert v in FALSEHOODS <==> v == FALSEHOODS[0] || v == FALSEHOODS[1] || v == FALSEHOODS[2];
  }

  function ShowBool(b: bool): string {
    if b then "true" else "false"
  }

  lemma BoolIsRead(b: bool)
    ensures TruthOf(ShowBool(b)) == Some(b)
  {
    assert TRUTHS[1] == "true" && FALSEHOODS[1] == "false";
    assert |"false"| == 5;
  }

  // ---- Printing ----

  function DigitChar(d: nat): (c: char)
    requires d < 16
    ensures DigitOf(c) == d && !IsSpace(c) && c != '-' && c != '+'
    ensures c !in " =\n\",[]#"
  {
    "0123456789ABCDEF"[d]
  }

  /** `%u` of a number. */
  function Dec(n: nat): (s: string)
    ensures s != [] && AllDigits(s, 10)
  {
    if n < 10 then [DigitChar(n)] else Dec(n / 10) + [DigitChar(n % 10)]
  }

  /** `%d` of a number. */
  function DecInt(n: int): string {
    if n < 0 then "-" + Dec(-n) else Dec(n)
  }

  /** No leading zeros. */
  lemma {:induction false} DecIsShortest(n: nat)
    ensures Dec(n)[0] == '0' <==> n == 0
    ensures n == 0 ==> Dec(n) == "0"
  {
    if n >= 10 {
      DecIsShortest(n / 10);
    }
  }

  lemma {:induction false} DecValue(n: nat)
    ensures DigitsValue(Dec(n), 10) == n
  {
    if n >= 10 {
      DecValue(n / 10);
      var s := Dec(n);
      assert s[..|s| - 1] == Dec(n / 10);
    }
  }

  // ---- Numerals ----

  const WHITESPACE: string := " \t\n\U{0B}\U{0C}\r"

  predicate AllSpaces(s: string) {
    forall c :: c in s ==> c in WHITESPACE
  }

  /** What each digit stands for. */
  lemma DigitValues(d: nat)
    requires d < 16
    ensures DigitOf("0123456789abcdef"[d]) == d && DigitOf("0123456789ABCDEF"[d]) == d
  {
  }

  lemma SpaceChar(c: char)
    ensures IsSpace(c) <==> c in WHITESPACE
  {
    var s := WHITESPACE;
    assert c in s <==> c == s[0] || c == s[1] || c == s[2] || c == s[3] || c == s[4] || c == s[5];
  }

  lemma DigitChars(c: char)
    ensures DigitOf(c) < 10 <==> c in "0123456789"
    ensures DigitOf(c) < 16 <==> c in "0123456789abcdefABCDEF"
  {
    var s := "0123456789abcdefABCDEF";
    if '0' <= c <= '9' {
      assert s[c as int - '0' as int] == c && "0123456789"[c as int - '0' as int] == c;
    } else if 'a' <= c <= 'f' {
      assert s[c as int - 'a' as int + 10] == c;
    } else if 'A' <= c <= 'F' {
      assert s[c as int - 'A' as int + 16] == c;
    }
  }

  /** Spaces, an optional sign, and digits. */
  ghost predicate IsNumeral(s: string, sp: string, sign: string, ds: string, base: nat) {
    && s == sp + (sign + ds)
    && AllSpaces(sp) && (sign == "" || sign == "+" || sign == "-")
    && ds != [] && AllDigits(ds, base)
  }

  lemma DigitIsPlain(c: char)
    requires DigitOf(c) < 16
    ensures !IsSpace(c) && c != '-' && c != '+'
  {
  }

  lemma {:induction false} SpacesOver(sp: string, rest: string)
    requires AllSpaces(sp) && (rest == [] || !IsSpace(rest[0]))
    ensures Spaces(sp + rest) == |sp|
  {
    if sp == [] {
      assert sp + rest == rest;
    } else {
      assert (sp + rest)[1..] == sp[1..] + rest;
      assert sp[0] in sp;
      SpacesOver(sp[1..], rest);
    }
  }

  lemma {:induction false} SpacesAreSpaces(s: string)
    ensures AllSpaces(s[..Spaces(s)])
  {
    if s != [] && IsSpace(s[0]) {
      SpacesAreSpaces(s[1..]);
      assert s[..Spaces(s)] == [s[0]] + s[1..][..Spaces(s[1..])];
    }
  }

  lemma {:induction false} DigitRunOver(ds: string, rest: string, base: nat)
    requires AllDigits(ds, base) && (rest == "" || DigitOf(rest[0]) >= base)
    ensures DigitRun(ds + rest, base) == |ds|
  {
    hide DigitOf;
    if ds == "" {
      assert ds + rest == rest;
    } else {
      assert (ds + rest)[1..] == ds[1..] + rest && ds[0] in ds;
      DigitRunOver(ds[1..], rest, base);
    }
  }

  lemma NumeralParts(s: string, sp: string, sign: string, ds: string, rest: string, base: nat)
    requires IsNumeral(s, sp, sign, ds, base) && base <= 16
    ensures var t, i, j := s + rest, |sp|, |sp| + |sign|;
            && Spaces(t) == i && SignEnd(t, i) == j <= |t| && t[j..] == ds + rest
            && (i < j && t[i] == '-' <==> sign == "-")
  {
    hide Spaces, DigitOf, IsSpace;
    assert ds[0] in ds;
    DigitIsPlain(ds[0]);
    var after := sign + ds + rest;
    assert after[0] == if sign == "" then ds[0] else sign[0];
    assert !IsSpace('-') && !IsSpace('+') by { SignsArePlain(); }
    SpacesOver(sp, after);
    assert s + rest == sp + after;
    assert (s + rest)[|sp|] == after[0];
    assert (s + rest)[|sp| + |sign|..] == ds + rest;
  }

  lemma SignsArePlain()
    ensures !IsSpace('-') && !IsSpace('+')
  {
  }

  /** A numeral is consumed whole, and nothing behind it. */
  lemma NumeralPrefixScanned(s: string, sp: string, sign: string, ds: string, rest: string, base: nat)
    requires IsNumeral(s, sp, sign, ds, base) && base <= 16 && (rest == "" || DigitOf(rest[0]) >= base)
    ensures ScanNumber(s + rest, base) == Scan(sign == "-", ds, |s|)
  {
    hide Spaces, DigitRun, DigitOf, SignEnd;
    NumeralParts(s, sp, sign, ds, rest, base);
    DigitRunOver(ds, rest, base);
    var t, j := s + rest, |sp| + |sign|;
    assert t[j..j + |ds|] == t[j..][..|ds|] == (ds + rest)[..|ds|] == ds;
  }

  lemma NumeralIsScanned(s: string, sp: string, sign: string, ds: string, base: nat)
    requires IsNumeral(s, sp, sign, ds, base) && base <= 16
    ensures ScanNumber(s, base) == Scan(sign == "-", ds, |s|)
  {
    hide ScanNumber;
    assert s + "" == s;
    NumeralPrefixScanned(s, sp, sign, ds, "", base);
  }

  lemma ScanSame(s: string, t: string, i: nat, j: nat, k: nat, base: nat)
    requires i <= |s| && i <= |t| && i == Spaces(s) == Spaces(t) && j == SignEnd(s, i) == SignEnd(t, i)
    requires k == DigitRun(s[j..], base) == DigitRun(t[j..], base)
    requires (i < j ==> s[i] == t[i]) && s[j..j + k] == t[j..j + k]
    ensures ScanNumber(s, base) == ScanNumber(t, base)
  {
    hide Spaces, DigitRun, SignEnd;
  }

  /** A character that is no space, sign or digit makes no difference behind a text. */
  lemma ScanBefore(s: string, c: char, base: nat)
    requires base <= 16 && DigitOf(c) >= base && !IsSpace(c) && c != '-' && c != '+'
    ensures ScanNumber(s + [c], base) == ScanNumber(s, base)
  {
    hide Spaces, DigitRun, DigitOf, IsSpace, SignEnd, ScanNumber;
    var t, i := s + [c], Spaces(s);
    SpacesBefore(s, c);
    SignBefore(s, c, i);
    var j := SignEnd(s, i);
    assert t[j..] == s[j..] + [c];
    DigitsBefore(s[j..], c, base);
    var k := DigitRun(s[j..], base);
    assert t[j..j + k] == s[j..j + k];
    ScanSame(s, t, i, j, k, base);
  }

  lemma SignBefore(s: string, c: char, i: nat)
    requires i <= |s| && c != '-' && c != '+'
    ensures var j := SignEnd(s, i); SignEnd(s + [c], i) == j && (i < j ==> i < |s| && (s + [c])[i] == s[i])
  {
  }

  lemma {:induction false} SpacesBefore(s: string, c: char)
    requires !IsSpace(c)
    ensures Spaces(s + [c]) == Spaces(s)
  {
    if s != [] {
      assert (s + [c])[1..] == s[1..] + [c];
      SpacesBefore(s[1..], c);
    }
  }

  lemma {:induction false} DigitsBefore(s: string, c: char, base: nat)
    requires DigitOf(c) >= base
    ensures DigitRun(s + [c], base) == DigitRun(s, base)
  {
    if s != [] {
      assert (s + [c])[1..] == s[1..] + [c];
      DigitsBefore(s[1..], c, base);
    }
  }

  /** What is consumed is a numeral. */
  lemma ScannedIsNumeral(s: string, base: nat)
    requires ScanNumber(s, base).digits != []
    ensures var r := ScanNumber(s, base);
            var i := Spaces(s);
            var j := SignEnd(s, i);
            && IsNumeral(s[..r.end], s[..i], s[i..j], r.digits, base)
            && (r.neg <==> s[i..j] == "-")
  {
    hide Spaces, DigitRun, DigitOf;
    var r := ScanNumber(s, base);
    var i := Spaces(s);
    var j := SignEnd(s, i);
    SpacesAreSpaces(s);
    assert s[j..][..r.end - j] == s[j..r.end];
    assert s[..r.end] == s[..i] + (s[i..j] + s[j..r.end]);
    assert i < j ==> s[i..j] == [s[i]];
  }

  /** The conversions consume a text whole exactly when it is empty or a numeral. */
  lemma ScannedWholeExactly(s: string, base: nat)
    requires base <= 16
    ensures ScanNumber(s, base).end == |s| <==>
            s == "" || exists sp: string, sign: string, ds: string :: IsNumeral(s, sp, sign, ds, base)
  {
    hide ScanNumber, IsNumeral, Spaces, SignEnd;
    if ScanNumber(s, base).end == |s| && s != "" {
      ScannedIsNumeral(s, base);
      assert s[..|s|] == s;
    }
    if sp: string, sign: string, ds: string :| IsNumeral(s, sp, sign, ds, base) {
      NumeralIsScanned(s, sp, sign, ds, base);
    }
  }

  // ---- What numerals stand for ----

  /** The number a numeral stands for when read as unsigned: a minus sign negates it modulo 2^64. */
  function UnsignedOf(sign: string, ds: string): nat {
    var m: int := DigitsValue(ds, 10);
    if sign == "-" then Wrap(-m) else m
  }

  function SignedOf(sign: string, ds: string): int {
    var m: int := DigitsValue(ds, 10);
    if sign == "-" then -m else m
  }

  ghost predicate Numeral(text: string) {
    exists sp: string, sign: string, ds: string :: IsNumeral(text, sp, sign, ds, 10)
  }

  /** The empty text stands for zero, and a numeral below 2^64 for its unsigned value. */
  ghost predicate DenotesUnsigned(text: string, v: int) {
    || (text == "" && v == 0)
    || exists sp: string, sign: string, ds: string ::
         IsNumeral(text, sp, sign, ds, 10) && DigitsValue(ds, 10) < TWO_64 && v == UnsignedOf(sign, ds)
  }

  ghost predicate DenotesSigned(text: string, v: int) {
    || (text == "" && v == 0)
    || exists sp: string, sign: string, ds: string :: IsNumeral(text, sp, sign, ds, 10) && v == SignedOf(sign, ds)
  }

  lemma EmptyScan()
    ensures ScanNumber("", 10) == Scan(false, "", 0) && DigitsValue("", 10) == 0 && !Numeral("")
  {
  }

  /** A text consumed whole is a numeral with the sign and digits found. */
  lemma ScannedText(text: string, base: nat)
    requires ScanNumber(text, base).end == |text| && text != ""
    ensures var r := ScanNumber(text, base);
            exists sp: string, sign: string ::
              IsNumeral(text, sp, sign, r.digits, base) && (r.neg <==> sign == "-")
  {
    hide ScanNumber, IsNumeral, Spaces, SignEnd;
    ScannedIsNumeral(text, base);
    assert text[..|text|] == text;
  }

  /** What `strtoul` consumes whole and in range, and what it makes of it. */
  lemma UnsignedExactly(text: string, v: int)
    ensures DenotesUnsigned(text, v) <==>
            var c := Strtoul(text, 10); c.end == |text| && !c.outOfRange && c.value == v
  {
    hide ScanNumber, IsNumeral, DigitsValue, Wrap;
    EmptyScan();
    var r := ScanNumber(text, 10);
    if r.end == |text| && text != "" {
      ScannedText(text, 10);
    }
    if sp: string, sign: string, ds: string :|
      IsNumeral(text, sp, sign, ds, 10) && DigitsValue(ds, 10) < TWO_64 && v == UnsignedOf(sign, ds) {
      NumeralIsScanned(text, sp, sign, ds, 10);
    }
  }

  lemma SignedExactly(text: string, v: int)
    ensures DenotesSigned(text, v) && LONG_MIN <= v <= LONG_MAX <==>
            var c := Strtol(text); c.end == |text| && !c.outOfRange && c.value == v
  {
    hide ScanNumber, IsNumeral, DigitsValue;
    EmptyScan();
    var r := ScanNumber(text, 10);
    if r.end == |text| && text != "" {
      ScannedText(text, 10);
    }
    if sp: string, sign: string, ds: string :| IsNumeral(text, sp, sign, ds, 10) && v == SignedOf(sign, ds) {
      NumeralIsScanned(text, sp, sign, ds, 10);
    }
  }

  lemma WholeExactly(text: string)
    ensures Strtoul(text, 10).end == |text| <==> text == "" || Numeral(text)
    ensures Strtol(text).end == |text| <==> text == "" || Numeral(text)
  {
    hide ScanNumber, IsNumeral, DigitsValue;
    ScannedWholeExactly(text, 10);
  }

  lemma ScannedNumeral(text: string)
    ensures ScanNumber(text, 10).digits != [] ==> Numeral(text[..ScanNumber(text, 10).end])
  {
    hide IsNumeral, Spaces, SignEnd, ScanNumber;
    if ScanNumber(text, 10).digits != [] {
      ScannedIsNumeral(text, 10);
    }
  }

  /** A text that does not start with a numeral reads as zero. */
  lemma NothingScanned(text: string)
    requires forall n :: 0 <= n <= |text| ==> !Numeral(text[..n])
    ensures Strtol(text) == Conversion(0, 0, false) && Strtoul(text, 10) == Conversion(0, 0, false)
  {
    hide Numeral, Spaces, DigitRun;
    ScannedNumeral(text);
    EmptyScan();
  }

  /** A text that is nothing but an optional minus sign and digits. */
  lemma ScanPlain(neg: bool, ds: string, base: nat)
    requires ds != [] && base <= 16 && AllDigits(ds, base)
    ensures var s := (if neg then "-" else "") + ds;
            ScanNumber(s, base) == Scan(neg, ds, |s|)
  {
    hide ScanNumber;
    var sign := if neg then "-" else "";
    assert sign + ds == "" + (sign + ds);
    NumeralIsScanned(sign + ds, "", sign, ds, base);
  }

  lemma StrtoulOfDec(n: nat)
    requires n < TWO_64
    ensures Strtoul(Dec(n), 10) == Conversion(n, |Dec(n)|, false)
  {
    hide Dec, ScanNumber, DigitsValue;
    ScanPlain(false, Dec(n), 10);
    assert "" + Dec(n) == Dec(n);
    DecValue(n);
  }

  /** A negative text wraps: `%d` of a number is read back modulo 2^64. */
  lemma StrtoulOfDecInt(n: int)
    requires 0 < n + TWO_64 && n < TWO_64
    ensures Strtoul(DecInt(n), 10) == Conversion(Wrap(n), |DecInt(n)|, false)
  {
    hide Dec, ScanNumber, DigitsValue;
    if n < 0 {
      ScanPlain(true, Dec(-n), 10);
      DecValue(-n);
    } else {
      StrtoulOfDec(n);
    }
  }

  lemma StrtolOfDecInt(n: int)
    requires LONG_MIN <= n <= LONG_MAX
    ensures Strtol(DecInt(n)) == Conversion(n, |DecInt(n)|, false)
  {
    hide Dec, ScanNumber, DigitsValue;
    var m: nat := if n < 0 then -n else n;
    ScanPlain(n < 0, Dec(m), 10);
    assert "" + Dec(m) == Dec(m);
    DecValue(m);
  }
}
