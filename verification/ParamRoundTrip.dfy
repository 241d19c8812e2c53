/** Saving parameters and parsing the file restores them. */
module ParamRoundTrip {
  import opened Machine
  import opened Seqs
  import opened CText
  import opened ParamLists
  import opened ParamText
  import opened ParamKeys
  import opened ParamLines
  import opened ParamValues

  // ---- Values ----

  /** A value of the parameter's kind that its printed form can hold. */
  predicate Savable(kind: Kind, v: Value) {
    match kind
    case KBool => v.VBool?
    case KUint => v.VUint? && v.u <= UINT_MAX
    case KInt => v.VInt? && INT_MIN <= v.i <= INT_MAX
    case KStr => v.VStr? && '"' !in v.s && '\n' !in v.s && '=' !in v.s
    case KList(elem) =>
      && v.VList? && 1 <= |v.items| <= LIST_MAX
      && forall e :: e in v.items ==> ElemFits(elem, e) && (e.U? ==> e.u <= INT_MAX)
    case KBin(len) => v.VBin? && |v.bytes| == len <= MAX_BIN
  }

  /** What follows the value in its line. */
  predicate TailFits(kind: Kind, tail: string) {
    match kind
    case KStr => true
    case KList(_) => true
    case KBin(_) => tail == "\n"
    case _ => tail != [] && tail[0] == ' '
  }

  lemma PlainNumber(n: int)
    ensures ' ' !in DecInt(n) && '\n' !in DecInt(n) && '=' !in DecInt(n)
  {
    hide DecInt;
    DecIntChars(n);
  }

  /** The low 32 bits survive being printed signed and read as a 64-bit number. */
  lemma UintWraps(u: nat)
    requires u <= UINT_MAX
    ensures Wrap(AsInt32(u)) % 0x1_0000_0000 == u
  {
  }

  lemma IntKeeps(i: int)
    requires INT_MIN <= i <= INT_MAX
    ensures AsInt32(i) == i
  {
  }

  lemma TakesScalar(p: Param, line: string, v: Value)
    requires Savable(p.kind, v) && (p.kind.KBool? || p.kind.KUint? || p.kind.KInt?)
    ensures TakeScalar(p, ValueText(v), line) == Taken(p.(val := v, changed := true), line)
  {
    hide DecInt, Strtol, Strtoul, TruthOf, ShowBool, AsInt32;
    match v
    case VBool(b) => BoolIsRead(b);
    case VUint(u) =>
      StrtoulOfDecInt(AsInt32(u));
      UintWraps(u);
    case VInt(i) =>
      StrtolOfDecInt(i);
      IntKeeps(i);
    case _ =>
  }

  // ---- Strings ----

  lemma TakesString(p: Param, line: string, s: string, tail: string)
    requires p.kind == KStr && '"' !in s && |ValueText(VStr(s)) + tail| <= |line|
    ensures TakeValue(p, line, ValueText(VStr(s)) + tail) ==
            Taken(p.(val := VStr(s), changed := true), line[..|line| - |tail| - 1])
  {
    hide IndexOf;
    var text := ValueText(VStr(s)) + tail;
    assert text[1..] == s + ("\"" + tail);
    IndexAfter(s, "\"" + tail, '"');
    assert text[1..][..|s|] == s;
  }

  // ---- Lists ----

  function Commas(n: nat): (seps: seq<string>)
    ensures |seps| == n
  {
    seq(n, _ => ",")
  }

  function Words(items: seq<Elem>): (ws: seq<string>)
    ensures |ws| == |items|
  {
    seq(|items|, i requires 0 <= i < |items| => ShowElem(items[i]))
  }

  /** The separators of a printed list of `n` elements. */
  function ListSeps(n: nat): (seps: seq<string>)
    requires n > 0
    ensures |seps| == n + 1
  {
    [""] + Commas(n - 1) + [""]
  }

  lemma ListWellSeparated(items: seq<Elem>)
    requires items != []
    ensures WellSeparated(Words(items), ListSeps(|items|))
  {
    hide ShowElem;
    forall w | w in Words(items)
      ensures IsWord(w)
    {
      var i :| 0 <= i < |items| && Words(items)[i] == w;
      ElemIsWord(items[i]);
    }
  }

  lemma ListSepsTail(n: nat)
    requires n > 1
    ensures ListSeps(n)[1..] == [","] + ListSeps(n - 1)[1..]
  {
    assert Commas(n - 1) == [","] + Commas(n - 2);
  }

  lemma JoinedFrom(words: seq<string>, seps: seq<string>)
    requires |seps| == |words| + 1 && words != [] && seps[0] == ","
    ensures Joined(words, seps) == "," + Joined(words, [""] + seps[1..])
  {
    assert ([""] + seps[1..])[1..] == seps[1..];
    assert "" + (words[0] + Joined(words[1..], seps[1..])) == words[0] + Joined(words[1..], seps[1..]);
  }

  /** A printed list is its words joined by commas, and a closing bracket. */
  lemma {:induction false} ListTextJoined(items: seq<Elem>)
    requires items != []
    ensures ListText(items) == Joined(Words(items), ListSeps(|items|)) + "]"
    decreases |items|
  {
    hide ShowElem;
    var n := |items|;
    var words, seps := Words(items), ListSeps(n);
    assert Joined(words, seps) == words[0] + Joined(words[1..], seps[1..]);
    if n == 1 {
      assert seps[1..] == [""];
      assert Joined([], [""]) == "";
      assert words[1..] == [];
      assert words[0] + "" == words[0];
    } else {
      ListTextJoined(items[1..]);
      ListSepsTail(n);
      assert Words(items[1..]) == words[1..];
      JoinedFrom(words[1..], seps[1..]);
      assert [""] + seps[1..][1..] == ListSeps(n - 1);
      var rest := Joined(words[1..], ListSeps(n - 1));
      assert words[0] + ("," + rest) + "]" == words[0] + ("," + (rest + "]"));
    }
  }

  lemma {:induction false} JoinedAvoids(words: seq<string>, seps: seq<string>, c: char)
    requires |seps| == |words| + 1
    requires (forall w :: w in words ==> c !in w) && (forall p :: p in seps ==> c !in p)
    ensures c !in Joined(words, seps)
    decreases |words|
  {
    assert seps[0] in seps;
    if words != [] {
      assert words[0] in words;
      JoinedAvoids(words[1..], seps[1..], c);
    }
  }

  /** The printed list holds none of the characters that would end it or its line early. */
  lemma ListAvoids(items: seq<Elem>, c: char)
    requires items != [] && (c == ']' || c == '=' || c == '\n')
    ensures c !in Joined(Words(items), ListSeps(|items|))
  {
    hide ShowElem, Joined;
    forall w | w in Words(items)
      ensures c !in w
    {
      var i :| 0 <= i < |items| && Words(items)[i] == w;
      ElemIsWord(items[i]);
    }
    JoinedAvoids(Words(items), ListSeps(|items|), c);
  }

  lemma ListReads(elem: ElemKind, items: seq<Elem>)
    requires Savable(KList(elem), VList(items))
    ensures ReadItems(elem, Tokens(Joined(Words(items), ListSeps(|items|))), 0) == ListReading(items, true)
  {
    hide Tokens, ReadItems, Joined, ReadElem, ShowElem, ElemFits;
    ListWellSeparated(items);
    forall i | 0 <= i < |items|
      ensures ReadElem(elem, Words(items)[i]) == Some(items[i])
    {
      assert items[i] in items;
      ElemIsRead(elem, items[i]);
    }
    ListIsRead(elem, Words(items), items, ListSeps(|items|));
  }

  /** A printed list of unsigned elements comes back exactly when it is short enough and no element is
      above INT_MAX. */
  lemma UintListComesBackExactly(items: seq<Elem>)
    requires items != [] && forall e :: e in items ==> ElemFits(UintElem, e)
    ensures ReadItems(UintElem, Tokens(Joined(Words(items), ListSeps(|items|))), 0) == ListReading(items, true)
       <==> |items| <= LIST_MAX && forall e :: e in items ==> e.U? && e.u <= INT_MAX
  {
    hide Tokens, ReadItems, Joined, ReadElem, ShowElem, ListSeps;
    var words := Words(items);
    ListWellSeparated(items);
    TokensOfJoined(words, ListSeps(|items|));
    if ReadItems(UintElem, words, 0) == ListReading(items, true) {
      ReadMeansValid(UintElem, words, 0);
      forall e | e in items
        ensures e.U? && e.u <= INT_MAX
      {
        var i :| 0 <= i < |items| && items[i] == e;
        UintElemIsRead(e.u);
        assert words[i] == ShowElem(U(e.u));
      }
    }
    if |items| <= LIST_MAX && forall e :: e in items ==> e.U? && e.u <= INT_MAX {
      ListReads(UintElem, items);
    }
  }

  /** The extent of a printed list in its line. */
  lemma ListSpan(items: seq<Elem>, tail: string)
    requires items != []
    ensures var inner, text := Joined(Words(items), ListSeps(|items|)), ValueText(VList(items)) + tail;
            && IndexOf(text, ']') == |inner| + 1 < |text|
            && |text| == |inner| + 2 + |tail|
            && text[..|inner| + 1] == "[" + inner
  {
    hide IndexOf, Joined, ListText, Words, ListSeps;
    var inner := Joined(Words(items), ListSeps(|items|));
    ListTextJoined(items);
    ListAvoids(items, ']');
    var text := ValueText(VList(items)) + tail;
    assert text == ("[" + inner) + ("]" + tail);
    IndexAfter("[" + inner, "]" + tail, ']');
    assert (("[" + inner) + ("]" + tail))[..|inner| + 1] == "[" + inner;
  }

  lemma TakesItems(p: Param, elem: ElemKind, items: seq<Elem>)
    requires items != []
    requires ReadItems(elem, Tokens(Joined(Words(items), ListSeps(|items|))), 0) == ListReading(items, true)
    ensures TakeList(p, elem, "[" + Joined(Words(items), ListSeps(|items|))) == p.(val := VList(items), changed := true)
  {
    hide Tokens, ReadItems, Joined, Words, ListSeps;
    var inner := Joined(Words(items), ListSeps(|items|));
    assert ("[" + inner)[1..] == inner;
  }

  lemma TakesList(p: Param, line: string, items: seq<Elem>, tail: string)
    requires p.kind.KList? && Savable(p.kind, VList(items)) && |ValueText(VList(items)) + tail| <= |line|
    ensures TakeValue(p, line, ValueText(VList(items)) + tail) ==
            Taken(p.(val := VList(items), changed := true), line[..|line| - |tail|])
  {
    hide IndexOf, Tokens, ReadItems, Joined, ElemFits, Words, ListSeps, ValueText, TakeList;
    var inner := Joined(Words(items), ListSeps(|items|));
    var text := ValueText(VList(items)) + tail;
    ListSpan(items, tail);
    ListReads(p.kind.elem, items);
    TakesItems(p, p.kind.elem, items);
  }

  // ---- Blobs ----

  lemma {:induction false} HexTextShape(bytes: seq<Byte>)
    ensures |HexText(bytes)| == 2 * |bytes|
    ensures forall i :: 0 <= i < |bytes| ==> HexText(bytes)[2 * i..2 * i + 2] == Hex2(bytes[i])
    ensures forall c :: c in HexText(bytes) ==> DigitOf(c) < 16
  {
    if bytes != [] {
      HexTextShape(bytes[1..]);
      var h, t := HexText(bytes), HexText(bytes[1..]);
      forall i | 0 <= i < |bytes|
        ensures h[2 * i..2 * i + 2] == Hex2(bytes[i])
      {
        if i > 0 {
          assert t[2 * (i - 1)..2 * (i - 1) + 2] == Hex2(bytes[1..][i - 1]);
          assert h[2 * i..2 * i + 2] == t[2 * (i - 1)..2 * (i - 1) + 2];
        }
      }
    }
  }

  lemma Hex2Value(b: Byte)
    ensures Strtoul(Hex2(b), 16).value == b
  {
    hide ScanNumber;
    var s := Hex2(b);
    ScanPlain(false, s, 16);
    assert "" + s == s;
    assert s[..1] == [s[0]] && s[..1][..0] == [];
    assert DigitsValue(s[..1], 16) == b / 16;
    assert DigitsValue(s, 16) == b / 16 * 16 + b % 16;
  }

  lemma HexTextReads(bytes: seq<Byte>)
    ensures |HexText(bytes)| == 2 * |bytes|
    ensures HexBytes(HexText(bytes), |bytes|) == bytes
  {
    hide Strtoul, Hex2, HexText;
    HexTextShape(bytes);
    forall i | 0 <= i < |bytes|
      ensures HexBytes(HexText(bytes), |bytes|)[i] == bytes[i]
    {
      Hex2Value(bytes[i]);
    }
  }

  lemma TakesBlob(p: Param, line: string, bytes: seq<Byte>)
    requires p.kind.KBin? && Savable(p.kind, VBin(bytes))
    requires Beyond(p.val, |bytes|) == []
    ensures TakeScalar(p, ValueText(VBin(bytes)), line) == Taken(p.(val := VBin(bytes), changed := true), line)
  {
    hide Find, HexText, HexBytes;
    var v := ValueText(VBin(bytes));
    HexTextReads(bytes);
    assert v[2..] == HexText(bytes);
    assert "0x" <= v && v[0..] == v;
    FindUnique(v, "0x", 0);
    assert bytes + [] == bytes;
  }

  lemma HexAvoids(bytes: seq<Byte>)
    ensures var v := ValueText(VBin(bytes)); ' ' !in v && '\n' !in v && '=' !in v
  {
    hide HexText;
    HexTextShape(bytes);
  }

  // ---- Any value ----

  /** The variable behind the parameter has the right type, and a blob the right size. */
  predicate Typed(p: Param) {
    p.kind.KBin? ==> p.val.VBin? && |p.val.bytes| == p.kind.len
  }

  /** A printed value, followed by what follows it in its line, is read back. */
  lemma ValueIsRead(p: Param, v: Value, line: string, tail: string)
    requires Savable(p.kind, v) && Typed(p) && TailFits(p.kind, tail)
    requires |ValueText(v) + tail| <= |line|
    ensures var a := TakeValue(p, line, ValueText(v) + tail);
            a.Taken? && a.param == p.(val := v, changed := true)
  {
    hide ValueText, TakeScalar, ScalarEnd, IndexOf, TakeList;
    match p.kind
    case KStr => TakesString(p, line, v.s, tail);
    case KList(_) => TakesList(p, line, v.items, tail);
    case KBin(_) =>
      HexAvoids(v.bytes);
      ScalarEndsAtNewline(ValueText(v));
      TakesBlob(p, line[..|line| - 1], v.bytes);
    case _ =>
      ScalarPlain(v);
      ScalarEndsAtBlank(ValueText(v), tail);
      TakesScalar(p, line[..|line| - |tail|], v);
  }

  lemma ScalarPlain(v: Value)
    requires v.VBool? || v.VUint? || v.VInt?
    ensures ' ' !in ValueText(v)
  {
    hide DecInt, AsInt32;
    match v
    case VBool(b) =>
    case VUint(u) => PlainNumber(AsInt32(u));
    case VInt(i) => PlainNumber(i);
    case _ =>
  }

  // ---- What is printed ----

  /** The form of each element. Numbers are printed without leading zeros. */
  lemma ElemForm(e: Elem)
    ensures e == B(true) ==> ShowElem(e) == "true"
    ensures e == B(false) ==> ShowElem(e) == "false"
    ensures e.I? ==> ShowElem(e) == DecInt(e.i)
    ensures e.U? && e.u <= 0x7FFF_FFFF ==> ShowElem(e) == DecInt(e.u)
    ensures e.U? && 0x7FFF_FFFF < e.u <= 0xFFFF_FFFF ==> ShowElem(e) == DecInt(e.u - 0x1_0000_0000)
  {
    hide DecInt;
  }

  /** Two upper-case hex digits for each byte. */
  lemma {:induction false} HexForm(bytes: seq<Byte>, i: nat)
    requires i < |bytes|
    ensures var h, digits := HexText(bytes), "0123456789ABCDEF";
            && |h| == 2 * |bytes|
            && h[2 * i] == digits[bytes[i] / 16] && h[2 * i + 1] == digits[bytes[i] % 16]
    decreases |bytes|
  {
    if i > 0 {
      HexForm(bytes[1..], i - 1);
    } else {
      HexTextShape(bytes);
    }
  }

  /** The line of each kind: name, `=`, value, and for scalars and strings the description. */
  lemma LineForm(p: Param)
    requires (p.kind.KList? <==> p.val.VList?) && (p.kind.KBin? <==> p.val.VBin?)
    ensures p.val == VBool(true) ==> Line(p) == p.name + ("=" + ("true" + (" #" + p.desc + "\n")))
    ensures p.val == VBool(false) ==> Line(p) == p.name + ("=" + ("false" + (" #" + p.desc + "\n")))
    ensures p.val.VInt? ==> Line(p) == p.name + ("=" + (DecInt(p.val.i) + (" #" + p.desc + "\n")))
    ensures p.val.VUint? && p.val.u <= 0x7FFF_FFFF ==>
              Line(p) == p.name + ("=" + (DecInt(p.val.u) + (" #" + p.desc + "\n")))
    ensures p.val.VUint? && 0x7FFF_FFFF < p.val.u <= 0xFFFF_FFFF ==>
              Line(p) == p.name + ("=" + (DecInt(p.val.u - 0x1_0000_0000) + (" #" + p.desc + "\n")))
    ensures p.val.VStr? ==> Line(p) == p.name + ("=" + ("\"" + p.val.s + "\"" + (" #" + p.desc + "\n")))
    ensures p.val.VBin? ==> Line(p) == p.name + ("=" + ("0x" + HexText(p.val.bytes) + "\n"))
    ensures p.val == VList([]) ==> Line(p) == p.name + ("=" + ("[" + "\n"))
    ensures p.val.VList? && p.val.items != [] ==>
              Line(p) == p.name + ("=" + ("[" + (Joined(Words(p.val.items), ListSeps(|p.val.items|)) + "]") + "\n"))
  {
    hide DecInt, HexText, ListText, Joined;
    if p.val.VList? {
      if p.val.items != [] {
        ListTextJoined(p.val.items);
      } else {
        NoListText();
      }
    }
  }

  lemma NoListText()
    ensures ListText([]) == "" && "[" + ListText([]) == "["
  {
  }

  // ---- Lines ----

  /** A parameter whose printed line is its own: the conditions a caller can check before saving. */
  predicate LineOk(p: Param) {
    && PlainName(p.name) && '\n' !in p.name && p.name[0] != '#'
    && Savable(p.kind, p.val)
    && '=' !in p.desc
    && |Line(p)| < NAME_CAP
  }

  lemma ValueTextPlain(kind: Kind, v: Value)
    requires Savable(kind, v)
    ensures var t := ValueText(v); t != [] && t[0] != ' ' && '=' !in t && '\n' !in t
  {
    hide DecInt, AsInt32, HexText, ListText, Joined;
    match v
    case VBool(b) =>
    case VUint(u) =>
      PlainNumber(AsInt32(u));
      DecIntChars(AsInt32(u));
    case VInt(i) =>
      PlainNumber(i);
      DecIntChars(i);
    case VStr(s) =>
    case VList(items) =>
      ListTextJoined(items);
      ListAvoids(items, '=');
      ListAvoids(items, '\n');
    case VBin(bytes) => HexAvoids(bytes);
  }

  /** The part of the trailer on the value's own line; a description may go on for more lines. */
  function FirstTrailer(p: Param): string {
    Trailer(p)[..FrameLen(Trailer(p), |Trailer(p)|, '\n')]
  }

  function MoreTrailer(p: Param): string {
    Trailer(p)[FrameLen(Trailer(p), |Trailer(p)|, '\n')..]
  }

  lemma TrailerParts(p: Param)
    requires '=' !in p.desc
    ensures var t, m := FirstTrailer(p), MoreTrailer(p);
            && Trailer(p) == t + m && '=' !in t && '=' !in m
            && t != [] && t[|t| - 1] == '\n' && '\n' !in t[..|t| - 1]
            && TailFits(p.kind, t)
            && (m == [] || m[|m| - 1] == '\n')
  {
    var r := Trailer(p);
    var e := IndexOf(r, '\n');
    assert '=' !in r && r[|r| - 1] == '\n';
    assert '\n' in r;
    assert r[..|r|] == r;
    assert FirstTrailer(p)[..e] == r[..e];
  }

  function OwnLine(p: Param): string {
    p.name + ("=" + (ValueText(p.val) + FirstTrailer(p)))
  }

  lemma LineParts(p: Param)
    requires LineOk(p)
    ensures Line(p) == OwnLine(p) + MoreTrailer(p)
    ensures KeyedLine(OwnLine(p), p.name, ValueText(p.val) + FirstTrailer(p))
    ensures !Skipped(OwnLine(p))
  {
    hide FirstTrailer, MoreTrailer, ValueText, Trailer;
    TrailerParts(p);
    ValueTextPlain(p.kind, p.val);
    var v, t, m := ValueText(p.val), FirstTrailer(p), MoreTrailer(p);
    assert v + (t + m) == (v + t) + m;
    assert "=" + ((v + t) + m) == ("=" + (v + t)) + m;
    assert p.name + (("=" + (v + t)) + m) == (p.name + ("=" + (v + t))) + m;
    assert OwnLine(p)[0] == p.name[0] && p.name[0] in p.name;
  }

  /** A line ends at its own newline. */
  lemma EndsAtNewline(line: string, rest: string)
    requires line != [] && line[|line| - 1] == '\n' && '\n' !in line[..|line| - 1] && |line| < LINE_CAP
    ensures FirstLine(line + rest) == |line| && (line + rest)[..|line|] == line && (line + rest)[|line|..] == rest
  {
    hide FrameLen;
    var s := line + rest;
    assert s[..|line| - 1] == line[..|line| - 1];
    FrameEndsAt(s, LINE_CAP - 1, '\n', |line| - 1);
  }

  lemma OwnLineEnds(p: Param)
    requires LineOk(p)
    ensures var l := OwnLine(p); l != [] && l[|l| - 1] == '\n' && '\n' !in l[..|l| - 1]
  {
    hide FirstTrailer, MoreTrailer, ValueText;
    TrailerParts(p);
    ValueTextPlain(p.kind, p.val);
    var l, t := OwnLine(p), FirstTrailer(p);
    assert l[..|l| - 1] == p.name + ("=" + (ValueText(p.val) + t[..|t| - 1]));
  }

  // ---- Lines that belong to nobody ----

  lemma TriesNothing(p: Param, line: string)
    requires '=' !in line && |line| < NAME_CAP
    ensures Try(p, line) == NoMatch
  {
    hide Find, TakeValue, KeyOf;
    var pos := Find(line, p.name);
    if pos.Some? {
      assert forall c :: c in line[pos.value..] ==> c in line;
      NoEquals(line[pos.value..]);
    }
  }

  lemma {:induction false} LineWithoutEquals(params: seq<Param>, line: string, i: nat, found: bool)
    requires '=' !in line && |line| < NAME_CAP && i <= |params|
    ensures ParseLine(params, line, i, found) == LineDone(params, found)
    decreases |params| - i
  {
    hide Try;
    if i < |params| {
      TriesNothing(params[i], line);
      LineWithoutEquals(params, line, i + 1, found);
    }
  }

  /** Text without `=`, such as the later lines of a description, is passed over. */
  lemma {:induction false} TextWithoutEquals(params: seq<Param>, chunk: string, rest: string, found: bool)
    requires '=' !in chunk && |chunk| < NAME_CAP && (chunk == [] || chunk[|chunk| - 1] == '\n')
    ensures ParseText(params, chunk + rest, found) == ParseText(params, rest, found)
    decreases |chunk|
  {
    hide ParseLine, Skipped, FirstLine, IndexOf;
    if chunk == [] {
      assert chunk + rest == rest;
    } else {
      FirstOfChunk(chunk, rest);
      var n := IndexOf(chunk, '\n') + 1;
      var line, more := chunk[..n], chunk[n..];
      LineWithoutEquals(params, line, 0, found);
      TextWithoutEquals(params, more, rest, found);
      assert (chunk + rest)[n..] == more + rest;
    }
  }

  lemma FirstOfChunk(chunk: string, rest: string)
    requires chunk != [] && chunk[|chunk| - 1] == '\n' && |chunk| < NAME_CAP && '=' !in chunk
    ensures var n := IndexOf(chunk, '\n') + 1;
            && n <= |chunk|
            && FirstLine(chunk + rest) == n
            && (chunk + rest)[..n] == chunk[..n] && '=' !in chunk[..n] && '=' !in chunk[n..]
            && (chunk[n..] == [] || chunk[n..][|chunk[n..]| - 1] == '\n')
  {
    hide FrameLen;
    var e := IndexOf(chunk, '\n');
    assert chunk[..|chunk|] == chunk && chunk[|chunk| - 1] in chunk;
    assert (chunk + rest)[..e] == chunk[..e];
    assert (chunk + rest)[e] == chunk[e];
    FrameEndsAt(chunk + rest, LINE_CAP - 1, '\n', e);
  }

  // ---- The whole file ----

  /** Every line its own. A name may claim the line of another only when it is registered later, and
      only when the value of the other leaves nothing for it. */
  ghost predicate Restorable(saved: seq<Param>) {
    && (forall i :: 0 <= i < |saved| ==> LineOk(saved[i]))
    && (forall i, j :: 0 <= i < |saved| && 0 <= j < |saved| && i != j && Claims(saved[i].name, saved[j].name) ==>
         j < i && Excludes(saved[j].kind, saved[i].kind))
  }

  /** The same registrations, holding any values of the right types. */
  ghost predicate Receives(params: seq<Param>, saved: seq<Param>) {
    && |params| == |saved|
    && forall i :: 0 <= i < |params| ==>
         params[i].name == saved[i].name && params[i].kind == saved[i].kind && Typed(params[i])
  }

  function Restored1(p: Param, saved: Param): Param {
    p.(val := saved.val, changed := true)
  }

  /** The receiving parameters after the first `k` lines. */
  function Restored(params: seq<Param>, saved: seq<Param>, k: nat): (r: seq<Param>)
    requires |params| == |saved|
    ensures |r| == |params|
  {
    seq(|params|, i requires 0 <= i < |params| => if i < k then Restored1(params[i], saved[i]) else params[i])
  }

  lemma RestoredNext(params: seq<Param>, saved: seq<Param>, k: nat)
    requires |params| == |saved| && k < |params|
    ensures Restored(params, saved, k)[k := Restored1(params[k], saved[k])] == Restored(params, saved, k + 1)
    ensures Restored(params, saved, 0) == params
  {
  }

  /** The owner of a saved line is the first to claim it. */
  lemma OwnerFirst(saved: seq<Param>, params: seq<Param>, k: nat)
    requires Restorable(saved) && Receives(params, saved) && k < |saved|
    ensures PlainNames(params) && FirstClaimant(params, k, saved[k].name)
    ensures forall j :: k < j && Claimed(params, j, saved[k].name) ==> Excludes(params[k].kind, params[j].kind)
  {
    hide Claims, Savable, Line, Excludes, Typed, PlainName;
    ClaimsItself(saved[k].name);
    forall i | 0 <= i < |params|
      ensures PlainName(params[i].name)
    {
      assert LineOk(saved[i]);
    }
  }

  /** Only the last character of a saved line is a newline. */
  lemma OneNewline(v: string, t: string)
    requires '\n' !in v && t != [] && '\n' !in t[..|t| - 1]
    ensures OneLine(v + t)
  {
    var tail := v + t;
    forall i | 0 <= i < |tail| - 1
      ensures tail[i] != '\n'
    {
      assert tail[i] == if i < |v| then v[i] else t[..|t| - 1][i - |v|];
    }
  }

  lemma NoBlanksToSkip(v: string, t: string)
    requires v != [] && v[0] != ' '
    ensures SkipBlanks(v + t) == v + t
  {
  }

  /** The line of one saved parameter restores that one and nothing else. */
  lemma OwnLineRestores(params: seq<Param>, saved: seq<Param>, k: nat, found: bool)
    requires Restorable(saved) && Receives(params, saved) && k < |saved|
    ensures ParseLine(params, OwnLine(saved[k]), 0, found) ==
            LineDone(params[k := Restored1(params[k], saved[k])], true)
  {
    hide Restorable, Claims, Savable, ParseLine, TakeValue, OwnLine, FirstTrailer, ValueText, KeyedLine,
         PlainNames, TailFits, SkipBlanks, Trailer, MoreTrailer, OneLine, AllSearchable, Excludes, FirstClaimant;
    var p := saved[k];
    SavedIsOk(saved, k);
    OwnerFirst(saved, params, k);
    LineParts(p);
    TrailerParts(p);
    ValueTextPlain(p.kind, p.val);
    NoBlanksToSkip(ValueText(p.val), FirstTrailer(p));
    OwnLineLength(p);
    ValueIsRead(params[k], p.val, OwnLine(p), FirstTrailer(p));
    OneNewline(ValueText(p.val), FirstTrailer(p));
    ShortIsSearchable(params, OwnLine(p));
    FirstClaimantDecides(params, k, OwnLine(p), found, p.name, ValueText(p.val) + FirstTrailer(p));
  }

  lemma SavedIsOk(saved: seq<Param>, k: nat)
    requires Restorable(saved) && k < |saved|
    ensures LineOk(saved[k])
  {
  }

  lemma OwnLineLength(p: Param)
    ensures |ValueText(p.val) + FirstTrailer(p)| <= |OwnLine(p)|
  {
    hide ValueText, FirstTrailer;
  }

  lemma LineRestores(params: seq<Param>, saved: seq<Param>, k: nat, rest: string, found: bool)
    requires Restorable(saved) && Receives(params, saved) && k < |saved|
    ensures ParseText(params, Line(saved[k]) + rest, found) ==
            ParseText(params[k := Restored1(params[k], saved[k])], rest, true)
  {
    hide Restorable, ParseLine, OwnLine, FirstTrailer, MoreTrailer, ValueText, Trailer, KeyedLine, Skipped,
         FirstLine, Savable, Line;
    var p := saved[k];
    SavedIsOk(saved, k);
    LineParts(p);
    TrailerParts(p);
    OwnLineEnds(p);
    OwnLineRestores(params, saved, k, found);
    var line, more := OwnLine(p), MoreTrailer(p);
    assert Line(p) + rest == line + (more + rest);
    EndsAtNewline(line, more + rest);
    TextWithoutEquals(params[k := Restored1(params[k], saved[k])], more, rest, true);
  }

  /** Parsing the rest of a saved file restores the rest of the parameters. */
  lemma {:induction false} TextRestores(params: seq<Param>, saved: seq<Param>, k: nat, found: bool)
    requires Restorable(saved) && Receives(params, saved) && k <= |saved|
    ensures ParseText(Restored(params, saved, k), Text(saved[k..]), found) ==
            LineDone(Restored(params, saved, |saved|), found || k < |saved|)
    decreases |saved| - k
  {
    hide Restorable, Line, ParseLine, FirstLine, Skipped, Savable;
    if k < |saved| {
      assert saved[k..][0] == saved[k] && saved[k..][1..] == saved[k + 1..];
      ReceivesRestored(params, saved, k);
      RestoredNext(params, saved, k);
      assert Restored(params, saved, k)[k] == params[k];
      LineRestores(Restored(params, saved, k), saved, k, Text(saved[k + 1..]), found);
      TextRestores(params, saved, k + 1, true);
    }
  }

  lemma ReceivesRestored(params: seq<Param>, saved: seq<Param>, k: nat)
    requires Restorable(saved) && Receives(params, saved) && k <= |saved|
    ensures Receives(Restored(params, saved, k), saved)
  {
    hide Line, PlainName;
    forall i | 0 <= i < |params|
      ensures Typed(Restored(params, saved, k)[i])
    {
      assert LineOk(saved[i]);
    }
  }

  /** Saving and parsing gives every value back: for all parameters that can be saved, and whatever the
      receiving variables hold, the parse succeeds and leaves exactly the saved values. */
  lemma SavedFileRestores(params: seq<Param>, saved: seq<Param>)
    requires saved != [] && Restorable(saved) && Receives(params, saved)
    ensures var r := ParseText(params, Text(saved), false);
            && r.LineDone? && r.found && (forall p :: p in r.params && p.mandatory ==> p.changed)
            && |r.params| == |params|
            && forall i :: 0 <= i < |params| ==> r.params[i] == params[i].(val := saved[i].val, changed := true)
  {
    hide Restorable, ParseText, Text;
    assert saved[0..] == saved;
    RestoredNext(params, saved, 0);
    TextRestores(params, saved, 0, false);
  }

  /** Without a registered key there is no isolation: any longer word that a name ends for the first
      time is taken for that name. */
  lemma ForeignKeyIsTaken(p: Param, word: string, v: int, line: string)
    requires p.kind == KInt && PlainName(p.name) && Claims(p.name, word + p.name) && INT_MIN <= v <= INT_MAX
    requires KeyedLine(line, word + p.name, DecInt(v) + " \n") && |line| < NAME_CAP
    ensures ParseLine([p], line, 0, false) == LineDone([p.(val := VInt(v), changed := true)], true)
  {
    hide Claims, DecInt, ParseLine, TakeValue, SkipBlanks, ValueText;
    IntText(v);
    NoBlanksToSkip(DecInt(v), " \n");
    OneParam(p);
    assert |DecInt(v) + " \n"| <= |line|;
    ValueIsRead(p, VInt(v), line, " \n");
    IntOneLine(v);
    ShortIsSearchable([p], line);
    assert FirstClaimant([p], 0, word + p.name);
    FirstClaimantDecides([p], 0, line, false, word + p.name, DecInt(v) + " \n");
    assert [p][0 := p.(val := VInt(v), changed := true)] == [p.(val := VInt(v), changed := true)];
  }

  /** For example a line for MAXPINT sets PINT. */
  lemma MaxPintSetsPint(p: Param, v: int)
    requires p.kind == KInt && p.name == "PINT" && 0 <= v < 10
    ensures ParseLine([p], "MAXPINT" + ("=" + (DecInt(v) + " \n")), 0, false) ==
            LineDone([p.(val := VInt(v), changed := true)], true)
  {
    hide ParseLine, Claims;
    PintEndsMaxPint();
    assert "MAX" + "PINT" == "MAXPINT";
    assert Dec(v) == [DigitChar(v)];
    ForeignKeyIsTaken(p, "MAX", v, "MAXPINT" + ("=" + (DecInt(v) + " \n")));
  }

  /** Once MAXPINT is registered too, its line sets whichever of the two comes first. */
  lemma OrderDecidesMaxPint(p: Param, q: Param, v: int)
    requires p.kind == KInt && q.kind == KInt && p.name == "MAXPINT" && q.name == "PINT" && 0 <= v < 10
    ensures var line := "MAXPINT" + ("=" + (DecInt(v) + " \n"));
            && ParseLine([p, q], line, 0, false) == LineDone([p.(val := VInt(v), changed := true), q], true)
            && ParseLine([q, p], line, 0, false) == LineDone([q.(val := VInt(v), changed := true), p], true)
  {
    hide ParseLine, Claims, Try, DecInt, KeyedLine;
    var line := "MAXPINT" + ("=" + (DecInt(v) + " \n"));
    DigitLine("MAXPINT", v);
    BothClaimMaxPint();
    TwoNamesTake(p, q, "MAXPINT", v, line);
    TwoNamesTake(q, p, "MAXPINT", v, line);
  }

  lemma DigitLine(head: string, v: int)
    requires '=' !in head && |head| < 16 && 0 <= v < 10
    ensures var tail := DecInt(v) + " \n"; KeyedLine(head + ("=" + tail), head, tail)
    ensures |head + ("=" + (DecInt(v) + " \n"))| < NAME_CAP
  {
    assert Dec(v) == [DigitChar(v)];
  }

  lemma BothClaimMaxPint()
    ensures Claims("PINT", "MAXPINT") && Claims("MAXPINT", "MAXPINT")
  {
    hide Claims;
    PintEndsMaxPint();
    assert "MAX" + "PINT" == "MAXPINT";
    ClaimsItself("MAXPINT");
  }

  lemma PintEndsMaxPint()
    ensures Claims("PINT", "MAX" + "PINT")
  {
    hide Find;
    var key := "MAX" + "PINT";
    assert key[0..][0] == 'M' && key[1..][0] == 'A' && key[2..][0] == 'X';
    assert key[3..] == "PINT";
    FindUnique(key, "PINT", 3);
  }

  lemma IntOneLine(v: int)
    ensures OneLine(DecInt(v) + " \n")
  {
    hide DecInt, OneLine;
    PlainNumber(v);
    OneNewline(DecInt(v), " \n");
  }

  lemma IntTaken(p: Param, v: int, line: string)
    requires p.kind == KInt && INT_MIN <= v <= INT_MAX && |DecInt(v) + " \n"| <= |line|
    ensures TakeValue(p, line, DecInt(v) + " \n") == Taken(p.(val := VInt(v), changed := true), line[..|line| - 2])
  {
    hide ValueText, TakeScalar, ScalarEnd, IndexOf, TakeList, DecInt;
    IntText(v);
    PlainNumber(v);
    ScalarEndsAtBlank(DecInt(v), " \n");
    TakesScalar(p, line[..|line| - 2], VInt(v));
  }

  lemma ClaimantTakes(p: Param, head: string, v: int, line: string)
    requires p.kind == KInt && PlainName(p.name) && Claims(p.name, head) && INT_MIN <= v <= INT_MAX
    requires KeyedLine(line, head, DecInt(v) + " \n") && |line| < NAME_CAP
    ensures Try(p, line) == Taken(p.(val := VInt(v), changed := true), line[..|line| - 2])
  {
    hide Claims, DecInt, Try, TakeValue, SkipBlanks, ValueText, PlainName;
    IntText(v);
    NoBlanksToSkip(DecInt(v), " \n");
    TakesKeyed(p, line, head, DecInt(v) + " \n");
    IntTaken(p, v, line);
  }

  /** Isolation also fails when a line names two registered parameters: either takes the whole line,
      and the one registered first gets the value. */
  lemma TwoNamesTake(p: Param, q: Param, head: string, v: int, line: string)
    requires p.kind == KInt && q.kind == KInt && PlainName(p.name) && PlainName(q.name) && INT_MIN <= v <= INT_MAX
    requires Claims(p.name, head) && Claims(q.name, head)
    requires KeyedLine(line, head, DecInt(v) + " \n") && |line| < NAME_CAP
    ensures Try(p, line) == Taken(p.(val := VInt(v), changed := true), line[..|line| - 2])
    ensures Try(q, line) == Taken(q.(val := VInt(v), changed := true), line[..|line| - 2])
    ensures ParseLine([p, q], line, 0, false) == LineDone([p.(val := VInt(v), changed := true), q], true)
  {
    hide Claims, DecInt, Try, PlainName, ParseLine, TakeValue, SkipBlanks, Searchable, OneLine;
    var params, tail := [p, q], DecInt(v) + " \n";
    ClaimantTakes(p, head, v, line);
    ClaimantTakes(q, head, v, line);
    IntOneLine(v);
    ShortIsSearchable(params, line);
    IntText(v);
    NoBlanksToSkip(DecInt(v), " \n");
    IntTaken(p, v, line);
    assert FirstClaimant(params, 0, head);
    FirstClaimantDecides(params, 0, line, false, head, tail);
    assert params[0 := p.(val := VInt(v), changed := true)] == [p.(val := VInt(v), changed := true), q];
  }

  /** For example a line for `PINT PBOOL` sets whichever of the two int parameters comes first. */
  lemma PintPboolSetsFirst(p: Param, q: Param, v: int)
    requires p.kind == KInt && q.kind == KInt && p.name == "PINT" && q.name == "PBOOL" && 0 <= v < 10
    ensures var line := "PINT PBOOL" + ("=" + (DecInt(v) + " \n"));
            && ParseLine([p, q], line, 0, false) == LineDone([p.(val := VInt(v), changed := true), q], true)
            && ParseLine([q, p], line, 0, false) == LineDone([q.(val := VInt(v), changed := true), p], true)
    ensures !IsSuffix(p.name, q.name) && !IsSuffix(q.name, p.name)
  {
    hide ParseLine, Claims, Try, DecInt, KeyedLine;
    var line := "PINT PBOOL" + ("=" + (DecInt(v) + " \n"));
    DigitLine("PINT PBOOL", v);
    BothClaim();
    TwoNamesTake(p, q, "PINT PBOOL", v, line);
    TwoNamesTake(q, p, "PINT PBOOL", v, line);
  }

  lemma BothClaim()
    ensures Claims("PINT", "PINT PBOOL") && Claims("PBOOL", "PINT PBOOL")
  {
    hide Find;
    var head := "PINT PBOOL";
    assert head[0..] == head && head[5..] == "PBOOL";
    assert head[0..][1] == 'I' && head[1..][0] == 'I' && head[2..][0] == 'N';
    assert head[3..][0] == 'T' && head[4..][0] == ' ';
    FindUnique(head, "PINT", 0);
    FindUnique(head, "PBOOL", 5);
  }

  lemma IntText(v: int)
    ensures ValueText(VInt(v)) == DecInt(v) != [] && DecInt(v)[0] != ' '
  {
    hide DecInt;
    DecIntChars(v);
    assert DecInt(v)[0] in DecInt(v);
  }

  lemma OneParam(p: Param)
    requires PlainName(p.name)
    ensures PlainNames([p])
  {
  }

  /** An empty list is saved without its closing bracket, and the line cannot be parsed: looking for
      the bracket runs into a null pointer, and already copying the line into the name buffer is
      undefined when the name is too long for it. */
  lemma EmptyListIsUndefined(p: Param)
    requires PlainName(p.name) && p.kind.KList?
    ensures Line(p.(val := VList([]))) == p.name + ("=" + "[\n")
    ensures ParseLine([p], p.name + ("=" + "[\n"), 0, false) == LineUndefined
  {
    hide Claims, Try, TakeValue, SkipBlanks, ParseLine;
    var line := p.name + ("=" + "[\n");
    EmptyListText(p);
    if |line| < NAME_CAP {
      ClaimsItself(p.name);
      TakesKeyed(p, line, p.name, "[\n");
      NoBracket(p, line);
    } else {
      LongLineIsUndefined(p, line);
    }
    UndefinedAtOnce(p, line);
  }

  lemma LongLineIsUndefined(p: Param, line: string)
    requires p.name <= line && |line| >= NAME_CAP
    ensures Try(p, line) == Attempt.Undefined
  {
    hide KeyOf, TakeValue, IndexOf, SkipBlanks;
    assert line[0..] == line;
    FindUnique(line, p.name, 0);
  }

  lemma EmptyListText(p: Param)
    requires p.kind.KList?
    ensures Line(p.(val := VList([]))) == p.name + ("=" + "[\n")
  {
    assert "[" + ListText([]) == "[";
    assert "[" + "\n" == "[\n";
  }

  lemma NoBracket(p: Param, line: string)
    requires p.kind.KList? && |line| >= 2
    ensures TakeValue(p, line, SkipBlanks("[\n")) == Attempt.Undefined
  {
    hide TakeList, IndexOf, SkipBlanks, Tokens, ReadItems;
    BracketSkipped();
    BracketMissing(p, line, "[\n");
  }

  lemma BracketSkipped()
    ensures SkipBlanks("[\n") == "[\n" && ']' !in "[\n"
  {
    hide SkipBlanks;
    assert "[\n" == "[" + "\n";
    NoBlanksToSkip("[", "\n");
  }

  lemma BracketMissing(p: Param, line: string, text: string)
    requires p.kind.KList? && |text| <= |line| && ']' !in text
    ensures TakeValue(p, line, text) == Attempt.Undefined
  {
    hide TakeList, IndexOf;
    assert text[..|text|] == text;
    IndexOfUnique(text, ']', |text|);
  }

  lemma UndefinedAtOnce(p: Param, line: string)
    requires Try(p, line).Undefined?
    ensures ParseLine([p], line, 0, false) == LineUndefined
  {
    hide Try;
  }
}
