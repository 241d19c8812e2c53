/** Flags and the values they take from the command line. */
module FlagValues {
  import opened Machine
  import opened Seqs
  import opened CText

  datatype Kind = KBool | KUint8 | KUint16 | KUint32 | KUint64 | KInt | KSize | KStr | KList

  /** A string flag may hold the null pointer, as a default. */
  datatype Value =
    | BoolValue(b: bool)
    | NumValue(n: int)
    | StrValue(s: Option<string>)
    | ListValue(items: seq<string>)

  datatype Flag = Flag(name: string, kind: Kind, mandatory: bool, def: Value, val: Value, changed: bool)

  datatype Error = NoError | UnknownFlag | NoValue | InvalidNumber | IntegerOverflow

  datatype Reading = Good(value: Value) | Bad(error: Error)

  function UintMax(kind: Kind): nat {
    match kind
    case KUint8 => 0xFF
    case KUint16 => 0xFFFF
    case KUint32 => 0xFFFF_FFFF
    case _ => TWO_64 - 1
  }

  function ReadUint(arg: string, max: nat): Reading {
    var c := Strtoul(arg, 10);
    if c.end != |arg| then Bad(InvalidNumber)
    else if c.outOfRange || c.value > max then Bad(IntegerOverflow)
    else Good(NumValue(c.value))
  }

  function ReadInt(arg: string): Reading {
    var c := Strtol(arg);
    if c.end != |arg| then Bad(InvalidNumber)
    else if c.outOfRange then Bad(IntegerOverflow)
    else if c.value > INT_MAX || c.value < INT_MIN then Bad(IntegerOverflow)
    else Good(NumValue(c.value))
  }

  /** The exponent of 1024 that a suffix letter stands for, in either case. */
  function SuffixPower(c: char): Option<nat> {
    if c == 'K' || c == 'k' then Some(1)
    else if c == 'M' || c == 'm' then Some(2)
    else if c == 'G' || c == 'g' then Some(3)
    else if c == 'T' || c == 't' then Some(4)
    else if c == 'P' || c == 'p' then Some(5)
    else None
  }

  function Pow1024(k: nat): (p: nat)
    ensures p >= 1
  {
    if k == 0 then 1 else 1024 * Pow1024(k - 1)
  }

  /** A number of bytes with an optional suffix. The product is checked in 128 bits and stored in 64. */
  function ReadSize(arg: string): Reading {
    var c := Strtoul(arg, 10);
    if c.outOfRange then Bad(IntegerOverflow)
    else if c.end < |arg| && c.end + 1 < |arg| then Bad(InvalidNumber)
    else if c.end < |arg| && SuffixPower(arg[c.end]).None? then Bad(InvalidNumber)
    else
      var mult := if c.end < |arg| then Pow1024(SuffixPower(arg[c.end]).value) else 1;
      var wide := c.value * mult % (TWO_64 * TWO_64);
      if wide > TWO_64 - 1 then Bad(IntegerOverflow)
      else Good(NumValue(Wrap(c.value * mult)))
  }

  function ReadBool(arg: string): Reading {
    var b := TruthOf(arg);
    if b.Some? then Good(BoolValue(b.value)) else Bad(UnknownFlag)
  }

  /** What a flag that is not a list makes of an argument. */
  function Read(kind: Kind, arg: string): Reading {
    match kind
    case KBool => ReadBool(arg)
    case KInt => ReadInt(arg)
    case KSize => ReadSize(arg)
    case KStr | KList => Good(StrValue(Some(arg)))
    case _ => ReadUint(arg, UintMax(kind))
  }

  datatype Stored = Kept(flag: Flag) | Refused(error: Error)

  /** One option group applied to its flag. An ignored group is checked like any other, except for a
      boolean, and counts as a mention, but leaves the value alone. */
  function Store(f: Flag, ignore: bool, arg: string): Stored {
    match f.kind
    case KList =>
      if ignore then Kept(f.(changed := true))
      else Kept(f.(changed := true, val := ListValue(Items(f.val) + [arg])))
    case KBool =>
      if ignore then Kept(f.(changed := true)) else StoreReading(f, false, Read(f.kind, arg))
    case _ => StoreReading(f, ignore, Read(f.kind, arg))
  }

  function StoreReading(f: Flag, ignore: bool, r: Reading): Stored {
    match r
    case Bad(e) => Refused(e)
    case Good(v) => Kept(if ignore then f.(changed := true) else f.(changed := true, val := v))
  }

  function Items(v: Value): seq<string> {
    if v.ListValue? then v.items else []
  }

  // ---- Numbers ----

  /** An unsigned flag accepts value `v` exactly from the texts that stand for it, if it fits; other
      texts that are no numbers are invalid, and other numbers overflow. */
  lemma UintAcceptedExactly(text: string, max: nat, v: int)
    requires max < TWO_64
    ensures ReadUint(text, max) == Good(NumValue(v)) <==> DenotesUnsigned(text, v) && v <= max
    ensures ReadUint(text, max) == Bad(InvalidNumber) <==> text != "" && !Numeral(text)
    ensures ReadUint(text, max).Bad? ==> ReadUint(text, max).error in {InvalidNumber, IntegerOverflow}
  {
    hide Strtoul, DenotesUnsigned, Numeral;
    UnsignedExactly(text, v);
    WholeExactly(text);
  }

  /** The same for a signed flag, with the range of `int`. */
  lemma IntAcceptedExactly(text: string, v: int)
    ensures ReadInt(text) == Good(NumValue(v)) <==> DenotesSigned(text, v) && -0x8000_0000 <= v <= 0x7FFF_FFFF
    ensures ReadInt(text) == Bad(InvalidNumber) <==> text != "" && !Numeral(text)
    ensures ReadInt(text).Bad? ==> ReadInt(text).error in {InvalidNumber, IntegerOverflow}
  {
    hide Strtol, DenotesSigned, Numeral;
    SignedExactly(text, v);
    WholeExactly(text);
  }

  // ---- Sizes ----

  /** What a suffix letter multiplies by, in either case. */
  ghost predicate SuffixMeans(c: char, mult: nat) {
    || ((c == 'K' || c == 'k') && mult == 1024)
    || ((c == 'M' || c == 'm') && mult == 1_048_576)
    || ((c == 'G' || c == 'g') && mult == 1_073_741_824)
    || ((c == 'T' || c == 't') && mult == 1_099_511_627_776)
    || ((c == 'P' || c == 'p') && mult == 1_125_899_906_842_624)
  }

  /** A base and at most one suffix letter. The base is a numeral below 2^64, or nothing at all, which
      stands for zero. */
  ghost predicate DenotesSize(text: string, base: nat, mult: nat) {
    || (DenotesUnsigned(text, base) && mult == 1)
    || (text != "" && DenotesUnsigned(text[..|text| - 1], base) && SuffixMeans(text[|text| - 1], mult))
  }

  lemma SuffixIs(c: char, mult: nat)
    ensures SuffixMeans(c, mult) <==> SuffixPower(c).Some? && Pow1024(SuffixPower(c).value) == mult
  {
    if SuffixPower(c).Some? {
      Powers();
    }
  }

  lemma Powers()
    ensures Pow1024(0) == 1 && Pow1024(1) == 1024 && Pow1024(2) == 1_048_576 && Pow1024(3) == 1_073_741_824
    ensures Pow1024(4) == 1_099_511_627_776 && Pow1024(5) == 1_125_899_906_842_624
  {
    assert Pow1024(1) == 1024;
    assert Pow1024(2) == 1024 * Pow1024(1);
    assert Pow1024(3) == 1024 * Pow1024(2);
    assert Pow1024(4) == 1024 * Pow1024(3);
    assert Pow1024(5) == 1024 * Pow1024(4);
  }

  lemma SuffixIsPlain(c: char)
    requires SuffixPower(c).Some?
    ensures DigitOf(c) == 16 && !IsSpace(c) && c != '-' && c != '+' && 1 <= SuffixPower(c).value <= 5
  {
  }

  lemma {:induction false} Pow1024Bound(k: nat)
    requires k <= 5
    ensures Pow1024(k) <= 1024 * 1024 * 1024 * 1024 * 1024
  {
    if k > 0 {
      Pow1024Steps(k);
    }
  }

  lemma Pow1024Steps(k: nat)
    requires 1 <= k <= 5
    ensures Pow1024(k) <= 1024 * 1024 * 1024 * 1024 * 1024
  {
    assert Pow1024(1) == 1024;
    assert Pow1024(2) == 1024 * 1024;
    assert Pow1024(3) == 1024 * 1024 * 1024;
    assert Pow1024(4) == 1024 * 1024 * 1024 * 1024;
    assert Pow1024(5) == 1024 * 1024 * 1024 * 1024 * 1024;
  }

  /** The 128-bit product is the true product. */
  lemma ProductFits(base: nat, k: nat)
    requires base < TWO_64 && k <= 5
    ensures base * Pow1024(k) % (TWO_64 * TWO_64) == base * Pow1024(k)
  {
    Pow1024Bound(k);
    MulBound(base, TWO_64 - 1, Pow1024(k), 1024 * 1024 * 1024 * 1024 * 1024);
  }

  lemma MulBound(a: nat, a': nat, b: nat, b': nat)
    requires a <= a' && b <= b'
    ensures 0 <= a * b <= a' * b'
  {
    assert a * b <= a' * b <= a' * b';
  }

  /** How far a size is scanned does not depend on its suffix. */
  lemma SizeScanned(text: string)
    ensures text != "" && SuffixPower(text[|text| - 1]).Some? ==>
              && Strtoul(text, 10) == Strtoul(text[..|text| - 1], 10)
              && 1 <= SuffixPower(text[|text| - 1]).value <= 5
  {
    hide ScanNumber, DigitsValue, DigitOf, IsSpace, SuffixPower;
    if text != "" && SuffixPower(text[|text| - 1]).Some? {
      var num, c := text[..|text| - 1], text[|text| - 1];
      SuffixIsPlain(c);
      assert text == num + [c];
      ScanBefore(num, c, 10);
    }
  }

  /** A text that is not refused as no number, and has no digits out of range, denotes a size. */
  lemma SizeSeen(text: string) returns (base: nat, mult: nat)
    requires !Strtoul(text, 10).outOfRange && ReadSize(text) != Bad(InvalidNumber)
    ensures DenotesSize(text, base, mult)
  {
    hide Strtoul, Pow1024, SuffixPower, DenotesUnsigned, SuffixMeans;
    var c := Strtoul(text, 10);
    SizeScanned(text);
    base := c.value;
    if c.end == |text| {
      mult := 1;
      UnsignedExactly(text, base);
    } else {
      mult := Pow1024(SuffixPower(text[c.end]).value);
      UnsignedExactly(text[..|text| - 1], base);
      SuffixIs(text[c.end], mult);
    }
  }

  /** A size that does not fit 64 bits overflows. */
  lemma SizeIsRead(text: string, base: nat, mult: nat)
    requires DenotesSize(text, base, mult)
    ensures ReadSize(text) == if base * mult < TWO_64 then Good(NumValue(base * mult)) else Bad(IntegerOverflow)
  {
    hide Strtoul, Pow1024, SuffixPower, DenotesUnsigned, SuffixMeans;
    SizeScanned(text);
    PowZero();
    UnsignedExactly(text, base);
    if DenotesUnsigned(text, base) && mult == 1 {
      ProductFits(base, 0);
    } else {
      var last := text[|text| - 1];
      UnsignedExactly(text[..|text| - 1], base);
      SuffixIs(last, mult);
      ProductFits(base, SuffixPower(last).value);
    }
  }

  /** A size is accepted with value `v` exactly when the text denotes it and `v` fits 64 bits: the
      stored product has never wrapped. */
  lemma SizeAcceptedExactly(text: string, v: int)
    ensures ReadSize(text) == Good(NumValue(v)) <==>
            exists base: nat, mult: nat :: DenotesSize(text, base, mult) && v == base * mult < TWO_64
  {
    hide Strtoul, DenotesSize;
    if base: nat, mult: nat :| DenotesSize(text, base, mult) && v == base * mult < TWO_64 {
      SizeIsRead(text, base, mult);
    }
    if ReadSize(text) == Good(NumValue(v)) {
      var base, mult := SizeSeen(text);
      SizeIsRead(text, base, mult);
    }
  }

  /** A text is refused as no number exactly when it denotes no size and does not start with a number
      out of range. */
  lemma SizeRefusedExactly(text: string)
    ensures ReadSize(text) == Bad(InvalidNumber) <==>
            !Strtoul(text, 10).outOfRange && !exists base: nat, mult: nat :: DenotesSize(text, base, mult)
    ensures ReadSize(text).Bad? ==> ReadSize(text).error in {InvalidNumber, IntegerOverflow}
  {
    hide Strtoul, DenotesSize;
    if base: nat, mult: nat :| DenotesSize(text, base, mult) {
      SizeIsRead(text, base, mult);
    }
    if !Strtoul(text, 10).outOfRange && ReadSize(text) != Bad(InvalidNumber) {
      var base, mult := SizeSeen(text);
    }
  }

  /** A suffix letter on its own is a size, of zero bytes. */
  lemma BareSuffixIsZero(c: char)
    requires c in "KMGTPkmgtp"
    ensures ReadSize([c]) == Good(NumValue(0))
  {
    hide ReadSize, DenotesUnsigned;
    var text, all := [c], "KMGTPkmgtp";
    assert text[..|text| - 1] == "";
    assert DenotesUnsigned("", 0) by { NothingIsZero(); }
    assert c in all <==> exists i :: 0 <= i < 10 && all[i] == c;
    SuffixesMean();
    var mult: nat :| SuffixMeans(c, mult);
    assert DenotesSize(text, 0, mult);
    SizeAcceptedExactly(text, 0);
  }

  lemma NothingIsZero()
    ensures DenotesUnsigned("", 0)
  {
  }

  lemma SuffixesMean()
    ensures forall c: char :: c in "KMGTPkmgtp" ==> exists mult: nat :: SuffixMeans(c, mult)
  {
    forall c: char | c in "KMGTPkmgtp"
      ensures exists mult: nat :: SuffixMeans(c, mult)
    {
      assert SuffixPower(c).Some?;
      SuffixIs(c, Pow1024(SuffixPower(c).value));
    }
  }

  /** Neither an empty text nor a negative one is refused for an unsigned flag. */
  lemma EmptyAndNegativeAccepted(max: nat)
    requires max < TWO_64
    ensures ReadUint("", max) == Good(NumValue(0))
    ensures ReadUint("-1", 18_446_744_073_709_551_615) == Good(NumValue(18_446_744_073_709_551_615))
  {
    UintAcceptedExactly("", max, 0);
    assert IsNumeral("-1", "", "-", "1", 10) by {
      assert "-1" == "" + ("-" + "1");
    }
    assert DigitsValue("1", 10) == 1;
    assert UnsignedOf("-", "1") == TWO_64 - 1;
    UintAcceptedExactly("-1", TWO_64 - 1, TWO_64 - 1);
  }

  lemma PowZero()
    ensures Pow1024(0) == 1
  {
  }

  // ---- Every kind ----

  /** A boolean flag accepts exactly seven words. */
  lemma BoolAcceptedExactly(text: string, b: bool)
    ensures Read(KBool, text) == Good(BoolValue(b)) <==>
            if b then text == "1" || text == "true" || text == "yes" || text == "si"
            else text == "0" || text == "false" || text == "no"
    ensures Read(KBool, text).Bad? <==> text !in ["1", "true", "yes", "si", "0", "false", "no"]
    ensures Read(KBool, text).Bad? ==> Read(KBool, text).error == UnknownFlag
    ensures Read(KBool, text).Good? ==> Read(KBool, text).value.BoolValue?
  {
    hide TruthOf;
    TruthCases(text);
    var all := ["1", "true", "yes", "si", "0", "false", "no"];
    assert text in all <==> text == all[0] || text == all[1] || text == all[2] || text == all[3] || text == all[4]
                            || text == all[5] || text == all[6];
  }

  /** What each kind of number flag accepts. */
  lemma NumberAcceptedExactly(kind: Kind, text: string, v: int)
    ensures kind == KUint8 ==> (Read(kind, text) == Good(NumValue(v)) <==> DenotesUnsigned(text, v) && v <= 255)
    ensures kind == KUint16 ==> (Read(kind, text) == Good(NumValue(v)) <==> DenotesUnsigned(text, v) && v <= 65535)
    ensures kind == KUint32 ==>
              (Read(kind, text) == Good(NumValue(v)) <==> DenotesUnsigned(text, v) && v <= 4_294_967_295)
    ensures kind == KUint64 ==> (Read(kind, text) == Good(NumValue(v)) <==> DenotesUnsigned(text, v))
    ensures kind == KInt ==>
              (Read(kind, text) == Good(NumValue(v)) <==>
               DenotesSigned(text, v) && -2_147_483_648 <= v <= 2_147_483_647)
    ensures kind == KSize ==>
              (Read(kind, text) == Good(NumValue(v)) <==>
               exists base: nat, mult: nat :: DenotesSize(text, base, mult) && v == base * mult < TWO_64)
    ensures kind != KBool && kind != KStr && kind != KList && Read(kind, text).Good? ==>
              Read(kind, text).value.NumValue?
    ensures kind == KStr ==> Read(kind, text) == Good(StrValue(Some(text)))
  {
    hide ReadUint, ReadInt, ReadSize, DenotesUnsigned, DenotesSigned, DenotesSize;
    if kind != KBool && kind != KStr && kind != KList {
      NumbersOnly(kind, text);
    }
    match kind
    case KInt => IntAcceptedExactly(text, v);
    case KSize => SizeAcceptedExactly(text, v);
    case KBool | KStr | KList =>
    case _ =>
      UintAcceptedExactly(text, UintMax(kind), v);
      UnsignedFits(text, v);
  }

  lemma NumbersOnly(kind: Kind, text: string)
    requires kind != KBool && kind != KStr && kind != KList
    ensures Read(kind, text).Good? ==> Read(kind, text).value.NumValue?
  {
    hide Strtoul, Strtol;
  }

  lemma UnsignedFits(text: string, v: int)
    ensures DenotesUnsigned(text, v) ==> 0 <= v < TWO_64
  {
    hide IsNumeral, DigitsValue;
  }

  /** What storing a group comes to: a list gains the argument and takes any; an ignored boolean takes
      any argument; everything else is refused when its argument is no value of the kind, ignored or
      not. */
  lemma StoreExactly(f: Flag, ignore: bool, arg: string)
    ensures f.kind == KList && f.val.ListValue? ==>
              Store(f, ignore, arg) ==
                Kept(f.(val := if ignore then f.val else ListValue(f.val.items + [arg]), changed := true))
    ensures f.kind == KBool && ignore ==> Store(f, ignore, arg) == Kept(f.(changed := true))
    ensures f.kind != KList && !(f.kind == KBool && ignore) ==>
              Store(f, ignore, arg) ==
                if Read(f.kind, arg).Bad? then Refused(Read(f.kind, arg).error)
                else Kept(f.(val := if ignore then f.val else Read(f.kind, arg).value, changed := true))
  {
    hide Read;
  }
}
