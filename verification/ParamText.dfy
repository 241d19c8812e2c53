/** The text form of a parameter file: how a parameter is printed and how a line is taken apart. */
module ParamText {
  import opened Machine
  import opened Seqs
  import opened CText
  import opened ParamLists

  const MAX_BIN: nat := 2048
  const LINE_CAP: nat := 1024
  const NAME_CAP: nat := 256

  datatype Kind = KBool | KUint | KInt | KStr | KList(elem: ElemKind) | KBin(len: nat)

  datatype Value =
    | VBool(b: bool)
    | VUint(u: nat)
    | VInt(i: int)
    | VStr(s: string)
    | VList(items: seq<Elem>)
    | VBin(bytes: seq<Byte>)

  datatype Param = Param(name: string, desc: string, kind: Kind, val: Value, mandatory: bool, changed: bool)

  datatype Error = NoError | UnknownParam | NoValue | InvalidNumber | BinOverflow

  // ---- Printing ----

  function Hex2(b: Byte): string {
    [DigitChar(b / 16), DigitChar(b % 16)]
  }

  function HexText(bytes: seq<Byte>): string {
    if bytes == [] then "" else Hex2(bytes[0]) + HexText(bytes[1..])
  }

  /** The elements after the opening bracket. Without elements there is no closing bracket either. */
  function ListText(items: seq<Elem>): string {
    if items == [] then ""
    else ShowElem(items[0]) + (if |items| == 1 then "]" else "," + ListText(items[1..]))
  }

  function ValueText(v: Value): string {
    match v
    case VBool(b) => ShowBool(b)
    case VUint(u) => DecInt(AsInt32(u))
    case VInt(i) => DecInt(i)
    case VStr(s) => "\"" + s + "\""
    case VList(items) => "[" + ListText(items)
    case VBin(bytes) => "0x" + HexText(bytes)
  }

  /** Lists and binary blobs are saved without their description. */
  function Trailer(p: Param): string {
    if p.kind.KList? || p.kind.KBin? then "\n" else " #" + p.desc + "\n"
  }

  function Line(p: Param): string {
    p.name + ("=" + (ValueText(p.val) + Trailer(p)))
  }

  function Text(params: seq<Param>): string {
    if params == [] then "" else Line(params[0]) + Text(params[1..])
  }

  // ---- Taking a line apart ----

  /** The first occurrence of `pat`. */
  function Find(s: string, pat: string): (r: Option<nat>)
    ensures r.Some? ==> r.value <= |s| && pat <= s[r.value..]
    ensures r.Some? ==> forall j :: 0 <= j < r.value ==> !(pat <= s[j..])
    ensures r.None? ==> forall j :: 0 <= j <= |s| ==> !(pat <= s[j..])
  {
    if pat <= s then
      assert s[0..] == s;
      Some(0)
    else if s == [] then None
    else
      var r := Find(s[1..], pat);
      assert forall j :: 1 <= j <= |s| ==> s[j..] == s[1..][j - 1..];
      assert s[0..] == s;
      if r.None? then None else Some(r.value + 1)
  }

  /** The text before the first `=`, cut at the first blank after its first character. */
  function KeyOf(rest: string): string {
    var t := rest[..IndexOf(rest, '=')];
    if t == [] then t else t[..1 + IndexOf(t[1..], ' ')]
  }

  function SkipBlanks(s: string): (t: string)
    ensures |t| <= |s| && t == s[|s| - |t|..]
    ensures t != [] ==> t[0] != ' '
  {
    if s != [] && s[0] == ' ' then SkipBlanks(s[1..]) else s
  }

  /** What looking for one parameter in a line leads to: nothing; undefined behaviour; a value that is
      not terminated, which ends the line; a refused value, which ends the parse; or a stored value and
      the line cut off behind it. */
  datatype Attempt =
    | NoMatch
    | Undefined
    | Unterminated
    | Refused(error: Error)
    | Taken(param: Param, line: string)

  function Try(p: Param, line: string): Attempt {
    var pos := Find(line, p.name);
    if pos.None? then NoMatch
    else
      var rest := line[pos.value..];
      var eq := IndexOf(rest, '=');
      if |rest| >= NAME_CAP then Undefined
      else if eq == |rest| || KeyOf(rest) != p.name then NoMatch
      else TakeValue(p, line, SkipBlanks(rest[eq + 1..]))
  }

  /** The value of `p` from `text`, the end of `line`. */
  function TakeValue(p: Param, line: string, text: string): Attempt
    requires |text| <= |line|
  {
    match p.kind
    case KList(elem) =>
      var e := IndexOf(text, ']');
      if e == |text| then Undefined
      else Taken(TakeList(p, elem, text[..e]), line[..|line| - |text| + e + 1])
    case KStr =>
      if text == [] then Undefined
      else
        var e := IndexOf(text[1..], '"');
        if e == |text| - 1 then Unterminated
        else Taken(p.(val := VStr(text[1..][..e]), changed := true), line[..|line| - |text| + 1 + e])
    case _ =>
      var e := ScalarEnd(text);
      if e == |text| then Unterminated
      else TakeScalar(p, text[..e], line[..|line| - |text| + e])
  }

  /** A scalar ends at the first blank, or at the line's end when there is none. */
  function ScalarEnd(text: string): (e: nat)
    ensures e <= |text|
  {
    if ' ' in text then IndexOf(text, ' ') else IndexOf(text, '\n')
  }

  /** The bracketed text without its closing bracket. Elements read before a bad one stay. */
  function TakeList(p: Param, elem: ElemKind, text: string): Param {
    if text == [] || text[0] != '[' then p
    else
      var r := ReadItems(elem, Tokens(text[1..]), 0);
      p.(val := if r.items == [] then p.val else VList(r.items), changed := p.changed || r.ok)
  }

  function TakeScalar(p: Param, v: string, line: string): Attempt {
    match p.kind
    case KBool =>
      var b := TruthOf(v);
      if b.None? then Refused(UnknownParam) else Taken(p.(val := VBool(b.value), changed := true), line)
    case KInt => Taken(p.(val := VInt(AsInt32(Strtol(v).value)), changed := true), line)
    case KUint =>
      var c := Strtoul(v, 10);
      if c.end != |v| then Refused(InvalidNumber)
      else Taken(p.(val := VUint(c.value % 0x1_0000_0000), changed := true), line)
    case KBin(len) => TakeBlob(p, len, v, line)
    case _ => NoMatch
  }

  /** The two hex digits at position `2 * i`. */
  function HexByte(h: string, i: nat): Byte
    requires 2 * i + 2 <= |h|
  {
    Strtoul(h[2 * i..2 * i + 2], 16).value % 256
  }

  function HexBytes(h: string, n: nat): (bytes: seq<Byte>)
    requires 2 * n <= |h|
    ensures |bytes| == n
  {
    seq(n, i requires 0 <= i < n => HexByte(h, i))
  }

  /** A blob may carry `0x` anywhere, which drops its first two characters. An odd number of digits
      runs past the end of the value, and too many run past the end of the variable. */
  function TakeBlob(p: Param, len: nat, v: string, line: string): Attempt {
    var h := if Find(v, "0x").Some? then v[2..] else v;
    if |h| / 2 > MAX_BIN then Refused(BinOverflow)
    else if |h| % 2 == 1 || |h| / 2 > len then Undefined
    else
      var bytes := HexBytes(h, |h| / 2);
      Taken(p.(val := VBin(bytes + Beyond(p.val, |bytes|)), changed := true), line)
  }

  /** The bytes of the variable that a shorter blob leaves alone. */
  function Beyond(v: Value, n: nat): seq<Byte> {
    if v.VBin? && n <= |v.bytes| then v.bytes[n..] else []
  }

  // ---- A line, a text, a file ----

  datatype LineResult =
    | LineDone(params: seq<Param>, found: bool)
    | LineFailed(params: seq<Param>, error: Error)
    | LineUndefined

  /** Every parameter from index `i` on is looked for in what is left of the line. */
  function ParseLine(params: seq<Param>, line: string, i: nat, found: bool): LineResult
    requires i <= |params|
    decreases |params| - i
  {
    if i == |params| then LineDone(params, found)
    else
      var a := Try(params[i], line);
      if a.NoMatch? then ParseLine(params, line, i + 1, found)
      else if a.Undefined? then LineUndefined
      else if a.Unterminated? then LineDone(params, true)
      else if a.Refused? then LineFailed(params, a.error)
      else ParseLine(params[i := a.param], a.line, i + 1, true)
  }

  /** Comments, blank lines and lines that start with a blank. */
  predicate Skipped(line: string) {
    line != [] && (line[0] == '#' || line[0] == ' ' || line[0] == '\n')
  }

  /** What one call of `fgets` returns. */
  function FirstLine(text: string): (n: nat)
    ensures n <= |text| && (text != [] ==> n > 0)
  {
    FrameLen(text, LINE_CAP - 1, '\n')
  }

  function ParseText(params: seq<Param>, text: string, found: bool): LineResult
    decreases |text|
  {
    if text == [] then LineDone(params, found)
    else
      var n := FirstLine(text);
      if Skipped(text[..n]) then ParseText(params, text[n..], found)
      else
        var r := ParseLine(params, text[..n], 0, found);
        if r.LineDone? then ParseText(r.params, text[n..], r.found) else r
  }
}
