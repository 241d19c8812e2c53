/** The parameter context: registered parameters, and the loops that save and parse them. */
module ParamFile {
  import opened Machine
  import opened Seqs
  import opened CText
  import opened ParamLists
  import opened ParamText
  import opened ParamRoundTrip

  const PARAMS_CAP: nat := 256

  /** A parse returns, or runs into behaviour the C standard leaves undefined. */
  datatype Outcome = Returned(ok: bool) | UndefinedBehaviour

  lemma ScalarEndFound(text: string)
    ensures ScalarEnd(text) == if IndexOf(text, ' ') == |text| then IndexOf(text, '\n') else IndexOf(text, ' ')
  {
    hide IndexOf;
    assert text[..|text|] == text;
  }

  class ParamContext {
    var params: seq<Param>
    var error: Error

    constructor ()
      ensures params == [] && error == NoError
    {
      params, error := [], NoError;
    }

    /** Registers a variable. Lists and blobs are always mandatory. */
    method Register(name: string, desc: string, kind: Kind, val: Value, mandatory: bool)
      requires |params| < PARAMS_CAP
      modifies this`params
      ensures params == old(params) +
                        [Param(name, desc, kind, val, mandatory || kind.KList? || kind.KBin?, false)]
    {
      params := params + [Param(name, desc, kind, val, mandatory || kind.KList? || kind.KBin?, false)];
    }

    // ---- Saving ----

    /** The text of all parameters in order; there is none without parameters. */
    method Save() returns (ok: bool, text: string)
      ensures ok <==> params != []
      ensures ok ==> text == Text(params)
    {
      hide Line;
      text := "";
      if |params| == 0 {
        return false, "";
      }
      assert params[0..] == params && "" + Text(params) == Text(params);
      for i := 0 to |params|
        invariant text + Text(params[i..]) == Text(params)
      {
        var line := SaveLine(params[i]);
        assert params[i..][0] == params[i] && params[i..][1..] == params[i + 1..];
        assert text + (Line(params[i]) + Text(params[i + 1..])) == text + Line(params[i]) + Text(params[i + 1..]);
        text := text + line;
      }
      assert params[|params|..] == [];
      assert text + "" == text;
      ok := true;
    }

    method SaveLine(p: Param) returns (line: string)
      ensures line == Line(p)
    {
      hide ShowBool, DecInt, AsInt32, ListText, HexText;
      var value: string;
      match p.val {
        case VBool(b) => value := ShowBool(b);
        case VUint(u) => value := DecInt(AsInt32(u));
        case VInt(i) => value := DecInt(i);
        case VStr(s) => value := "\"" + s + "\"";
        case VList(items) =>
          value := SaveList(items);
          value := "[" + value;
        case VBin(bytes) =>
          value := SaveBlob(bytes);
          value := "0x" + value;
      }
      line := p.name + ("=" + (value + Trailer(p)));
    }

    method SaveList(items: seq<Elem>) returns (text: string)
      ensures text == ListText(items)
    {
      hide ShowElem;
      text := "";
      assert items[0..] == items && "" + ListText(items) == ListText(items);
      for j := 0 to |items|
        invariant text + ListText(items[j..]) == ListText(items)
      {
        var sep := if j == |items| - 1 then "]" else ",";
        var rest := items[j..];
        assert rest[0] == items[j] && rest[1..] == items[j + 1..];
        assert ListText(rest) == ShowElem(items[j]) + (sep + ListText(items[j + 1..])) by {
          assert j == |items| - 1 ==> items[j + 1..] == [] && sep + "" == sep;
        }
        assert text + (ShowElem(items[j]) + (sep + ListText(items[j + 1..]))) ==
               text + (ShowElem(items[j]) + sep) + ListText(items[j + 1..]);
        text := text + (ShowElem(items[j]) + sep);
      }
      assert items[|items|..] == [] && text + "" == text;
    }

    method SaveBlob(bytes: seq<Byte>) returns (text: string)
      ensures text == HexText(bytes)
    {
      hide Hex2;
      text := "";
      assert bytes[0..] == bytes && "" + HexText(bytes) == HexText(bytes);
      for j := 0 to |bytes|
        invariant text + HexText(bytes[j..]) == HexText(bytes)
      {
        assert bytes[j..][0] == bytes[j] && bytes[j..][1..] == bytes[j + 1..];
        assert text + (Hex2(bytes[j]) + HexText(bytes[j + 1..])) == text + Hex2(bytes[j]) + HexText(bytes[j + 1..]);
        text := text + Hex2(bytes[j]);
      }
      assert bytes[|bytes|..] == [] && text + "" == text;
    }

    // ---- Parsing ----

    /** The token loop: elements are stored one by one until the list ends or is given up. */
    method ReadTokens(elem: ElemKind, tokens: seq<string>) returns (items: seq<Elem>, ok: bool)
      ensures ReadItems(elem, tokens, 0) == ListReading(items, ok)
    {
      hide ReadElem, ReadItems;
      var idx := 0;
      items, ok := [], false;
      ReadFromStart(elem, tokens);
      while idx < |tokens|
        invariant idx <= |tokens| && idx <= LIST_MAX
        invariant ReadItems(elem, tokens, 0) == Continued(items, ReadItems(elem, tokens[idx..], idx))
      {
        ReadOne(elem, tokens, idx, items);
        if idx >= LIST_MAX {
          return;
        }
        var e := ReadElem(elem, tokens[idx]);
        if e.None? {
          return;
        }
        items := items + [e.value];
        idx := idx + 1;
      }
      ReadAll(elem, tokens, items);
      ok := true;
    }

    /** A bracketed list, without its closing bracket. */
    method ParseListParam(p: Param, elem: ElemKind, text: string) returns (q: Param)
      ensures q == TakeList(p, elem, text)
    {
      hide Tokens, ReadItems;
      if text == [] || text[0] != '[' {
        return p;
      }
      var items, ok := ReadTokens(elem, Tokens(text[1..]));
      q := p;
      if items != [] {
        q := q.(val := VList(items));
      }
      if ok {
        q := q.(changed := true);
      }
    }

    /** The loop over pairs of hex digits. */
    method ParseBlob(p: Param, len: nat, v: string, line: string) returns (a: Attempt)
      ensures a == TakeBlob(p, len, v, line)
    {
      hide Find, HexByte;
      var h := if Find(v, "0x").Some? then v[2..] else v;
      if |h| / 2 > MAX_BIN {
        return Refused(BinOverflow);
      }
      if |h| % 2 == 1 || |h| / 2 > len {
        return Undefined;
      }
      var bytes: seq<Byte>, at := [], 0;
      while at != |h|
        invariant at % 2 == 0 && 0 <= at <= |h| && |bytes| == at / 2
        invariant forall i :: 0 <= i < |bytes| ==> bytes[i] == HexByte(h, i)
        decreases |h| - at
      {
        bytes := bytes + [HexByte(h, at / 2)];
        at := at + 2;
      }
      assert bytes == HexBytes(h, |h| / 2);
      a := Taken(p.(val := VBin(bytes + Beyond(p.val, |bytes|)), changed := true), line);
    }

    method SkipSpaces(s: string) returns (t: string)
      ensures t == SkipBlanks(s)
    {
      t := s;
      while t != [] && t[0] == ' '
        invariant SkipBlanks(t) == SkipBlanks(s)
        decreases |t|
      {
        t := t[1..];
      }
    }

    /** Looks for one parameter in what is left of the line. */
    method TryParam(p: Param, line: string) returns (a: Attempt)
      ensures a == Try(p, line)
    {
      hide Find, KeyOf, IndexOf, TakeValue, SkipBlanks;
      var pos := Find(line, p.name);
      if pos.None? {
        return NoMatch;
      }
      var rest := line[pos.value..];
      if |rest| >= NAME_CAP {
        return Undefined;
      }
      var eq := IndexOf(rest, '=');
      if eq == |rest| || KeyOf(rest) != p.name {
        return NoMatch;
      }
      var text := SkipSpaces(rest[eq + 1..]);
      a := TakeParam(p, line, text);
    }

    /** Takes the value of a parameter that has been found. */
    method TakeParam(p: Param, line: string, text: string) returns (a: Attempt)
      requires |text| <= |line|
      ensures a == TakeValue(p, line, text)
    {
      hide IndexOf, TakeList, TakeBlob, Strtol, Strtoul, TruthOf, ScalarEnd;
      match p.kind {
        case KList(elem) =>
          var e := IndexOf(text, ']');
          if e == |text| {
            return Undefined;
          }
          var q := ParseListParam(p, elem, text[..e]);
          a := Taken(q, line[..|line| - |text| + e + 1]);
        case KStr =>
          if text == [] {
            return Undefined;
          }
          var s := text[1..];
          var e := IndexOf(s, '"');
          if e == |s| {
            return Unterminated;
          }
          a := Taken(p.(val := VStr(s[..e]), changed := true), line[..|line| - |text| + 1 + e]);
        case _ =>
          var e := IndexOf(text, ' ');
          if e == |text| {
            e := IndexOf(text, '\n');
          }
          ScalarEndFound(text);
          if e == |text| {
            return Unterminated;
          }
          a := TakeScalarParam(p, text[..e], line[..|line| - |text| + e]);
      }
    }

    /** The switch over the kinds whose values end at a blank or newline. */
    method TakeScalarParam(p: Param, v: string, line: string) returns (a: Attempt)
      requires !p.kind.KList? && !p.kind.KStr?
      ensures a == TakeScalar(p, v, line)
    {
      hide TakeBlob, Strtol, Strtoul, TruthOf;
      match p.kind {
        case KBool =>
          TruthCases(v);
          if v == "1" || v == "true" || v == "yes" || v == "si" {
            a := Taken(p.(val := VBool(true), changed := true), line);
          } else if v == "0" || v == "false" || v == "no" {
            a := Taken(p.(val := VBool(false), changed := true), line);
          } else {
            a := Refused(UnknownParam);
          }
        case KInt =>
          a := Taken(p.(val := VInt(AsInt32(Strtol(v).value)), changed := true), line);
        case KUint =>
          var c := Strtoul(v, 10);
          if c.end != |v| {
            return Refused(InvalidNumber);
          }
          a := Taken(p.(val := VUint(c.value % 0x1_0000_0000), changed := true), line);
        case KBin(len) =>
          a := ParseBlob(p, len, v, line);
      }
    }

    /** The search of one line for every parameter; the line is cut behind each value taken. */
    method ParseOneLine(line0: string, found0: bool) returns (r: LineResult)
      modifies this`params, this`error
      ensures r == ParseLine(old(params), line0, 0, found0)
      ensures !r.LineUndefined? ==> params == r.params
      ensures error == if r.LineFailed? then r.error else old(error)
    {
      hide Try;
      var line, found, i := line0, found0, 0;
      while i < |params|
        invariant i <= |params|
        invariant ParseLine(params, line, i, found) == ParseLine(old(params), line0, 0, found0)
        invariant error == old(error)
        decreases |params| - i
      {
        var a := TryParam(params[i], line);
        match a {
          case NoMatch =>
          case Undefined => return LineUndefined;
          case Unterminated => return LineDone(params, true);
          case Refused(e) =>
            error := e;
            return LineFailed(params, e);
          case Taken(p, cut) =>
            params := params[i := p];
            line, found := cut, true;
        }
        i := i + 1;
      }
      r := LineDone(params, found);
    }

    /** The loop over the lines of a text. */
    method ParseLines(text0: string) returns (r: LineResult)
      modifies this`params, this`error
      ensures r == ParseText(old(params), text0, false)
      ensures !r.LineUndefined? ==> params == r.params
      ensures error == if r.LineFailed? then r.error else old(error)
    {
      hide ParseLine, FirstLine, Skipped;
      var text, found := text0, false;
      while text != []
        invariant ParseText(params, text, found) == ParseText(old(params), text0, false)
        invariant error == old(error)
        decreases |text|
      {
        var n := FirstLine(text);
        var line := text[..n];
        if !Skipped(line) {
          r := ParseOneLine(line, found);
          if !r.LineDone? {
            return;
          }
          found := r.found;
        }
        text := text[n..];
      }
      r := LineDone(params, found);
    }

    /** Checks the mandatory parameters once the file has been read. */
    method CheckMandatory() returns (ok: bool)
      modifies this`error
      ensures ok <==> forall p :: p in params && p.mandatory ==> p.changed
      ensures error == if ok then old(error) else NoValue
    {
      ok := true;
      for i := 0 to |params|
        invariant ok <==> forall p :: p in params[..i] && p.mandatory ==> p.changed
        invariant error == if ok then old(error) else NoValue
      {
        assert params[..i + 1] == params[..i] + [params[i]];
        if params[i].mandatory && !params[i].changed {
          error := NoValue;
          ok := false;
        }
      }
      assert params[..|params|] == params;
    }

    /** Parses a file, given its name and its text if it could be opened. */
    method Parse(filename: string, file: Option<string>) returns (o: Outcome)
      modifies this`params, this`error
      ensures Find(filename, ".txt").None? || file.None? ==>
                o == Returned(false) && params == old(params) && error == old(error)
      ensures Find(filename, ".txt").Some? && file.Some? ==>
                var r := ParseText(old(params), file.value, false);
                && (r.LineUndefined? <==> o == UndefinedBehaviour)
                && (!r.LineUndefined? ==> params == r.params)
                && (o == Returned(true) <==>
                      r.LineDone? && r.found && forall p :: p in r.params && p.mandatory ==> p.changed)
                && (r.LineFailed? ==> error == r.error)
                && (r.LineDone? && !r.found ==> error == UnknownParam)
                && (r.LineDone? && r.found ==> error == if o == Returned(true) then old(error) else NoValue)
    {
      hide Find, ParseText;
      if Find(filename, ".txt").None? {
        return Returned(false);
      }
      if file.None? {
        return Returned(false);
      }
      var r := ParseLines(file.value);
      match r {
        case LineUndefined => o := UndefinedBehaviour;
        case LineFailed(_, _) => o := Returned(false);
        case LineDone(_, found) =>
          if !found {
            error := UnknownParam;
            return Returned(false);
          }
          var ok := CheckMandatory();
          o := Returned(ok);
      }
    }
  }

  /** A reading that goes on after some elements. */
  function Continued(items: seq<Elem>, r: ListReading): ListReading {
    r.(items := items + r.items)
  }

  lemma ReadFromStart(elem: ElemKind, tokens: seq<string>)
    ensures ReadItems(elem, tokens, 0) == Continued([], ReadItems(elem, tokens[0..], 0))
  {
    hide ReadElem;
    assert tokens[0..] == tokens;
    var r := ReadItems(elem, tokens, 0);
    assert [] + r.items == r.items;
  }

  lemma ReadOne(elem: ElemKind, tokens: seq<string>, idx: nat, items: seq<Elem>)
    requires idx < |tokens|
    ensures var e, r := ReadElem(elem, tokens[idx]), Continued(items, ReadItems(elem, tokens[idx..], idx));
            if idx >= LIST_MAX || e.None? then r == ListReading(items, false)
            else r == Continued(items + [e.value], ReadItems(elem, tokens[idx + 1..], idx + 1))
  {
    hide ReadElem;
    assert tokens[idx..][0] == tokens[idx] && tokens[idx..][1..] == tokens[idx + 1..];
    assert items + [] == items;
    var e := ReadElem(elem, tokens[idx]);
    if e.Some? {
      var rest := ReadItems(elem, tokens[idx + 1..], idx + 1).items;
      assert items + ([e.value] + rest) == items + [e.value] + rest;
    }
  }

  lemma ReadAll(elem: ElemKind, tokens: seq<string>, items: seq<Elem>)
    ensures Continued(items, ReadItems(elem, tokens[|tokens|..], |tokens|)) == ListReading(items, true)
  {
    hide ReadElem;
    assert tokens[|tokens|..] == [] && items + [] == items;
  }
}
