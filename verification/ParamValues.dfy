/** What each kind of parameter makes of the text behind its `=`, for every text. */
module ParamValues {
  import opened Machine
  import opened Seqs
  import opened CText
  import opened ParamLists
  import opened ParamText
  import opened ParamKeys
  import opened ParamLines

  // ---- Where a scalar ends ----

  lemma IndexAfter(a: string, b: string, c: char)
    requires c !in a && b != [] && b[0] == c
    ensures IndexOf(a + b, c) == |a| && c in a + b
  {
    assert (a + b)[..|a|] == a;
    assert (a + b)[|a|] == c;
    IndexOfUnique(a + b, c, |a|);
  }

  lemma ScalarEndsAtBlank(v: string, tail: string)
    requires ' ' !in v && tail != [] && tail[0] == ' '
    ensures ScalarEnd(v + tail) == |v| < |v + tail| && (v + tail)[..|v|] == v
  {
    hide IndexOf;
    IndexAfter(v, tail, ' ');
  }

  lemma ScalarEndsAtNewline(v: string)
    requires ' ' !in v && '\n' !in v
    ensures ScalarEnd(v + "\n") == |v| < |v + "\n"| && (v + "\n")[..|v|] == v
  {
    hide IndexOf;
    IndexAfter(v, "\n", '\n');
  }

  /** A scalar is the text up to the first blank, or up to the newline when there is none. */
  lemma ScalarTaken(p: Param, line: string, v: string, tail: string)
    requires Scalar(p.kind) && |v + tail| <= |line| && ' ' !in v
    requires (tail != [] && tail[0] == ' ') || (tail == "\n" && '\n' !in v)
    ensures TakeValue(p, line, v + tail) == TakeScalar(p, v, line[..|line| - |tail|])
  {
    hide TakeScalar, ScalarEnd;
    if tail[0] == ' ' {
      ScalarEndsAtBlank(v, tail);
    } else {
      ScalarEndsAtNewline(v);
    }
  }

  // ---- Scalars ----

  lemma BoolTakenExactly(p: Param, v: string, line: string)
    requires p.kind == KBool
    ensures TakeScalar(p, v, line) ==
            if v == "1" || v == "true" || v == "yes" || v == "si" then
              Taken(p.(val := VBool(true), changed := true), line)
            else if v == "0" || v == "false" || v == "no" then
              Taken(p.(val := VBool(false), changed := true), line)
            else Refused(UnknownParam)
  {
    hide TruthOf;
    TruthCases(v);
  }

  /** An unsigned value must be a number, or nothing. Its lowest 32 bits are stored, and all ones for a
      number of 2^64 or more. */
  lemma UintTakenExactly(p: Param, v: string, line: string, n: nat)
    requires p.kind == KUint
    ensures v != "" && !Numeral(v) <==> TakeScalar(p, v, line) == Refused(InvalidNumber)
    ensures DenotesUnsigned(v, n) ==>
              TakeScalar(p, v, line) == Taken(p.(val := VUint(n % 4_294_967_296), changed := true), line)
    ensures Numeral(v) && (forall m: nat :: !DenotesUnsigned(v, m)) ==>
              TakeScalar(p, v, line) == Taken(p.(val := VUint(4_294_967_295), changed := true), line)
  {
    hide DenotesUnsigned, Numeral, Strtoul, Strtol;
    UnsignedExactly(v, n);
    WholeExactly(v);
    var c := Strtoul(v, 10);
    UnsignedExactly(v, c.value);
  }

  /** An int value is the number the text starts with, whatever follows it, and zero when there is none.
      A number that is no int is cut to its lowest 32 bits, after going to the nearest 64-bit one. */
  lemma IntTakenExactly(p: Param, num: string, junk: string, line: string, sp: string, sign: string, ds: string)
    requires p.kind == KInt
    requires IsNumeral(num, sp, sign, ds, 10) && (junk == "" || junk[0] !in "0123456789")
    ensures var a := TakeScalar(p, num + junk, line);
            && a.Taken? && a.line == line && a.param == p.(val := a.param.val, changed := true)
            && a.param.val.VInt? && -2_147_483_648 <= a.param.val.i <= 2_147_483_647
            && (-0x8000_0000_0000_0000 <= SignedOf(sign, ds) <= 0x7FFF_FFFF_FFFF_FFFF ==>
                  (a.param.val.i - SignedOf(sign, ds)) % 4_294_967_296 == 0)
            && (SignedOf(sign, ds) > 0x7FFF_FFFF_FFFF_FFFF ==> a.param.val.i == -1)
            && (SignedOf(sign, ds) < -0x8000_0000_0000_0000 ==> a.param.val.i == 0)
            && (-2_147_483_648 <= SignedOf(sign, ds) <= 2_147_483_647 ==> a.param.val.i == SignedOf(sign, ds))
  {
    hide IsNumeral, DigitsValue, ScanNumber;
    if junk != "" {
      DigitChars(junk[0]);
    }
    NumeralPrefixScanned(num, sp, sign, ds, junk, 10);
  }

  lemma NoIntIsZero(p: Param, v: string, line: string)
    requires p.kind == KInt && forall n :: 0 <= n <= |v| ==> !Numeral(v[..n])
    ensures TakeScalar(p, v, line) == Taken(p.(val := VInt(0), changed := true), line)
  {
    hide Numeral, Strtol;
    NothingScanned(v);
  }

  // ---- Blobs ----

  ghost predicate Contains(v: string, pat: string) {
    exists j :: 0 <= j <= |v| && pat <= v[j..]
  }

  /** The value of two hex digits. */
  function Pair(h: string, i: nat): Byte
    requires 2 * i + 2 <= |h| && AllDigits(h, 16)
  {
    assert h[2 * i] in h && h[2 * i + 1] in h;
    DigitOf(h[2 * i]) * 16 + DigitOf(h[2 * i + 1])
  }

  lemma PairRead(h: string, i: nat)
    requires 2 * i + 2 <= |h| && AllDigits(h, 16)
    ensures HexByte(h, i) == Pair(h, i)
  {
    hide ScanNumber, DigitOf;
    var s := h[2 * i..2 * i + 2];
    assert s[0] == h[2 * i] && s[1] == h[2 * i + 1];
    assert h[2 * i] in h && h[2 * i + 1] in h;
    ScanPlain(false, s, 16);
    assert "" + s == s;
    assert s[..1] == [s[0]] && s[..1][..0] == [];
    assert DigitsValue(s[..1], 16) == DigitOf(s[0]);
    assert DigitsValue(s, 16) == DigitOf(s[0]) * 16 + DigitOf(s[1]);
  }

  lemma FindContains(v: string, pat: string)
    ensures Find(v, pat).Some? <==> Contains(v, pat)
  {
    hide Find;
  }

  /** A blob is pairs of hex digits, in either case, with `0x` before them or without. Too many are
      refused or leave the variable, an odd number leaves the text, and fewer than the variable holds
      leave its other bytes alone. */
  lemma BlobTakenExactly(p: Param, v: string, line: string, h: string)
    requires p.kind.KBin? && h == if Contains(v, "0x") then v[2..] else v
    ensures |h| / 2 > 2048 ==> TakeScalar(p, v, line) == Refused(BinOverflow)
    ensures |h| / 2 <= 2048 && (|h| % 2 == 1 || |h| / 2 > p.kind.len) ==> TakeScalar(p, v, line) == Attempt.Undefined
    ensures |h| / 2 <= 2048 && |h| % 2 == 0 && |h| / 2 <= p.kind.len && AllDigits(h, 16) ==>
              var a, n := TakeScalar(p, v, line), |h| / 2;
              && a.Taken? && a.line == line && a.param == p.(val := a.param.val, changed := true)
              && a.param.val.VBin? && |a.param.val.bytes| >= n
              && (forall i :: 0 <= i < n ==> a.param.val.bytes[i] == Pair(h, i))
              && (p.val.VBin? && n <= |p.val.bytes| ==> a.param.val.bytes[n..] == p.val.bytes[n..])
  {
    hide Find, Contains, HexByte, Pair;
    FindContains(v, "0x");
    if |h| % 2 == 0 && AllDigits(h, 16) {
      forall i | 0 <= i < |h| / 2
        ensures HexByte(h, i) == Pair(h, i)
      {
        PairRead(h, i);
      }
    }
  }

  // ---- Strings ----

  /** A string is what lies between the first character, which may be any, and the next quote. */
  lemma StringTakenExactly(p: Param, line: string, first: char, s: string, rest: string)
    requires p.kind == KStr && '"' !in s
    ensures TakeValue(p, line, "") == Attempt.Undefined
    ensures |[first] + s| <= |line| ==> TakeValue(p, line, [first] + s) == Unterminated
    ensures |[first] + (s + ("\"" + rest))| <= |line| ==>
              TakeValue(p, line, [first] + (s + ("\"" + rest))) ==
                Taken(p.(val := VStr(s), changed := true), line[..|line| - |"\"" + rest|])
  {
    hide IndexOf;
    var whole := [first] + (s + ("\"" + rest));
    assert ([first] + s)[1..] == s && whole[1..] == s + ("\"" + rest);
    assert s[..|s|] == s && (s + ("\"" + rest))[..|s|] == s;
    IndexOfUnique(s, '"', |s|);
    IndexAfter(s, "\"" + rest, '"');
  }

  // ---- Lists ----

  /** Every list has a longest valid front. */
  lemma {:induction false} LongestFound(kind: ElemKind, tokens: seq<string>, n: nat) returns (items: seq<Elem>)
    requires n <= 32 && n <= |tokens|
    requires exists front: seq<Elem> :: |front| == n && forall i :: 0 <= i < n ==> ElemWord(kind, tokens[i], front[i])
    ensures LongestValid(kind, tokens, items)
    decreases |tokens| - n
  {
    hide ElemWord;
    items :| |items| == n && forall i :: 0 <= i < n ==> ElemWord(kind, tokens[i], items[i]);
    if n < 32 && n < |tokens| && exists e :: ElemWord(kind, tokens[n], e) {
      var e :| ElemWord(kind, tokens[n], e);
      var before := items + [e];
      assert |before| == n + 1 && forall i :: 0 <= i < n + 1 ==> ElemWord(kind, tokens[i], before[i]);
      items := LongestFound(kind, tokens, n + 1);
    }
  }

  /** A list takes its longest valid front, at most thirty-two elements, and keeps its old elements when
      that is empty. It is marked exactly when it was before, or all its words are valid and fit. */
  lemma ListTakenExactly(p: Param, elem: ElemKind, words: seq<string>, seps: seq<string>, items: seq<Elem>)
    requires WellSeparated(words, seps) && LongestValid(elem, words, items)
    ensures TakeList(p, elem, "[" + Joined(words, seps)) ==
            p.(val := if items == [] then p.val else VList(items), changed := p.changed || |items| == |words|)
  {
    hide Tokens, ReadItems, Joined, LongestValid;
    TokensOfJoined(words, seps);
    assert ("[" + Joined(words, seps))[1..] == Joined(words, seps);
    ReadsLongest(elem, words, items, 0);
    assert words[0..] == words && items[0..] == items;
  }

  /** Without an opening bracket nothing is read. */
  lemma NoBracketNoList(p: Param, elem: ElemKind, text: string)
    requires text == "" || text[0] != '['
    ensures TakeList(p, elem, text) == p
  {
  }
}
