/** What one line does to all parameters together. */
module ParamLines {
  import opened Seqs
  import opened CText
  import opened ParamLists
  import opened ParamText
  import opened ParamKeys

  /** Kinds whose values end at a blank or newline. */
  predicate Scalar(kind: Kind) {
    !kind.KList? && !kind.KStr?
  }

  /** A value of kind `a` taken from a line leaves no value of kind `b` in it. */
  predicate Excludes(a: Kind, b: Kind) {
    (Scalar(a) && Scalar(b)) || (a.KStr? && b.KStr?)
  }

  /** The part of a line that `fgets` returns holds a newline at its end if at all. */
  predicate OneLine(tail: string) {
    forall i :: 0 <= i < |tail| - 1 ==> tail[i] != '\n'
  }

  ghost predicate AllSearchable(params: seq<Param>, line: string) {
    forall i :: 0 <= i < |params| ==> Searchable(params[i].name, line)
  }

  lemma ShortIsSearchable(params: seq<Param>, line: string)
    requires |line| < NAME_CAP
    ensures AllSearchable(params, line)
  {
    hide Find;
  }

  ghost predicate Claimed(params: seq<Param>, i: int, head: string) {
    0 <= i < |params| && Claims(params[i].name, head)
  }

  lemma ParseLineStep(params: seq<Param>, line: string, k: nat, found: bool)
    requires k < |params| && Try(params[k], line).Taken?
    ensures var a := Try(params[k], line);
            ParseLine(params, line, k, found) == ParseLine(params[k := a.param], a.line, k + 1, true)
  {
    hide Try;
  }

  // ---- Values that exclude each other ----

  /** Nothing happens before the first claimant. */
  lemma {:induction false} NobodyElse(params: seq<Param>, line: string, i: nat, k: nat, found: bool,
                                      head: string, tail: string)
    requires PlainNames(params) && KeyedLine(line, head, tail) && AllSearchable(params, line) && i <= k <= |params|
    requires forall j :: i <= j < k ==> !Claimed(params, j, head)
    ensures ParseLine(params, line, i, found) == ParseLine(params, line, k, found)
    decreases k - i
  {
    hide Try, Claims, KeyedLine, Searchable, PlainName;
    if i < k {
      assert !Claimed(params, i, head);
      TakesKeyed(params[i], line, head, tail);
      NobodyElse(params, line, i + 1, k, found, head, tail);
    }
  }

  /** When every claimant finds its value unterminated, the line changes nothing any more. */
  lemma {:induction false} NothingLeft(params: seq<Param>, line: string, i: nat, head: string, tail: string)
    requires PlainNames(params) && KeyedLine(line, head, tail) && AllSearchable(params, line) && i <= |params|
    requires forall j :: i <= j && Claimed(params, j, head) ==>
               TakeValue(params[j], line, SkipBlanks(tail)) == Unterminated
    ensures ParseLine(params, line, i, true) == LineDone(params, true)
    decreases |params| - i
  {
    hide Try, Claims, KeyedLine, Searchable, PlainName, TakeValue, SkipBlanks;
    if i < |params| {
      TakesKeyed(params[i], line, head, tail);
      if !Claimed(params, i, head) {
        NothingLeft(params, line, i + 1, head, tail);
      }
    }
  }

  lemma {:induction false} BlanksSkipped(s: string)
    ensures AllBlanks(s[..|s| - |SkipBlanks(s)|])
  {
    if s != [] && s[0] == ' ' {
      BlanksSkipped(s[1..]);
      var n := |s| - |SkipBlanks(s)|;
      assert s[..n] == [s[0]] + s[1..][..n - 1];
    }
  }

  lemma {:induction false} SkipBlanksOver(blanks: string, text: string)
    requires AllBlanks(blanks) && (text != [] ==> text[0] != ' ')
    ensures SkipBlanks(blanks + text) == text
  {
    if blanks == [] {
      assert blanks + text == text;
    } else {
      assert blanks[0] in blanks && (blanks + text)[1..] == blanks[1..] + text;
      assert forall c :: c in blanks[1..] ==> c in blanks;
      SkipBlanksOver(blanks[1..], text);
    }
  }

  lemma SkipBlanksCut(tail: string, e: nat)
    requires e <= |SkipBlanks(tail)|
    ensures SkipBlanks(tail[..|tail| - |SkipBlanks(tail)| + e]) == SkipBlanks(tail)[..e]
  {
    hide SkipBlanks, AllBlanks;
    var text := SkipBlanks(tail);
    var b := |tail| - |text|;
    BlanksSkipped(tail);
    TakeSplit(tail, b, e);
    SkipBlanksOver(tail[..b], text[..e]);
  }

  /** A scalar up to its end holds neither a blank nor a newline. */
  lemma ScalarPart(text: string)
    requires OneLine(text) && ScalarEnd(text) < |text|
    ensures var v := text[..ScalarEnd(text)]; ' ' !in v && '\n' !in v
  {
    hide IndexOf;
    assert text[..|text|] == text;
    assert ScalarEnd(text) <= |text| - 1;
  }

  lemma ScalarUnterminated(p: Param, line: string, v: string)
    requires Scalar(p.kind) && |v| <= |line| && ' ' !in v && '\n' !in v
    ensures TakeValue(p, line, v) == Unterminated
  {
    hide IndexOf, TakeScalar;
    assert v[..|v|] == v;
    IndexOfUnique(v, '\n', |v|);
  }

  /** How much of a text the kind takes; the text is cut off there. */
  function ValueEnd(kind: Kind, text: string): (e: nat)
    ensures e <= |text|
  {
    match kind
    case KList(_) => var e := IndexOf(text, ']'); if e < |text| then e + 1 else e
    case KStr => if text == [] then 0 else 1 + IndexOf(text[1..], '"')
    case _ => ScalarEnd(text)
  }

  lemma TakenAtEnd(p: Param, line: string, text: string)
    requires |text| <= |line| && TakeValue(p, line, text).Taken?
    ensures TakeValue(p, line, text).line == line[..|line| - |text| + ValueEnd(p.kind, text)]
    ensures Scalar(p.kind) ==> ScalarEnd(text) < |text|
    ensures p.kind.KStr? ==> text != [] && IndexOf(text[1..], '"') < |text| - 1
  {
    hide IndexOf, ScalarEnd, TakeList, TakeScalar;
    match p.kind
    case KList(_) =>
    case KStr =>
    case _ => ScalarCuts(p, text[..ScalarEnd(text)], line[..|line| - |text| + ScalarEnd(text)]);
  }

  /** What is left of the value for a later claimant. */
  lemma LeavesUnterminated(p: Param, q: Param, line: string, line': string, text: string)
    requires Excludes(p.kind, q.kind) && OneLine(text) && |text| <= |line|
    requires TakeValue(p, line, text).Taken? && ValueEnd(p.kind, text) <= |line'|
    ensures TakeValue(q, line', text[..ValueEnd(p.kind, text)]) == Unterminated
  {
    hide IndexOf, ScalarEnd, TakeList, TakeScalar, TakeValue, OneLine;
    TakenAtEnd(p, line, text);
    var e := ValueEnd(p.kind, text);
    if Scalar(p.kind) {
      ScalarPart(text);
      ScalarUnterminated(q, line', text[..e]);
    } else {
      StringUnterminated(q, line', text);
    }
  }

  lemma StringUnterminated(q: Param, line': string, text: string)
    requires q.kind.KStr? && text != [] && 1 + IndexOf(text[1..], '"') <= |line'|
    ensures TakeValue(q, line', text[..1 + IndexOf(text[1..], '"')]) == Unterminated
  {
    hide IndexOf;
    var e := IndexOf(text[1..], '"');
    var t := text[..1 + e];
    assert t[1..] == text[1..][..e];
    assert t[1..][..|t[1..]|] == t[1..];
    IndexOfUnique(t[1..], '"', e);
  }

  /** What a line comes to when the one attempt that counts gives `a`. */
  function Decided(params: seq<Param>, k: nat, a: Attempt): LineResult
    requires k < |params|
  {
    match a
    case NoMatch => LineDone(params, true)
    case Undefined => LineUndefined
    case Unterminated => LineDone(params, true)
    case Refused(e) => LineFailed(params, e)
    case Taken(q, _) => LineDone(params[k := q], true)
  }

  ghost predicate FirstClaimant(params: seq<Param>, k: nat, head: string) {
    Claimed(params, k, head) && forall j :: 0 <= j < k ==> !Claimed(params, j, head)
  }

  /** The first claimant alone decides, when its value leaves none for the later claimants. */
  lemma FirstClaimantDecides(params: seq<Param>, k: nat, line: string, found: bool, head: string, tail: string)
    requires PlainNames(params) && KeyedLine(line, head, tail) && AllSearchable(params, line) && OneLine(tail)
    requires FirstClaimant(params, k, head)
    requires forall j :: k < j && Claimed(params, j, head) ==> Excludes(params[k].kind, params[j].kind)
    ensures var a, r := TakeValue(params[k], line, SkipBlanks(tail)), ParseLine(params, line, 0, found);
            && r == Decided(params, k, a)
            && (a.Taken? ==> r == LineDone(params[k := a.param], true))
            && (a.Refused? ==> r == LineFailed(params, a.error))
            && (a.Unterminated? ==> r == LineDone(params, true))
            && (a.Undefined? ==> r == LineUndefined)
  {
    hide Try, Claims, Searchable, PlainName, TakeValue, SkipBlanks, ParseLine;
    NobodyElse(params, line, 0, k, found, head, tail);
    TakesKeyed(params[k], line, head, tail);
    TakenIsMatch(params[k], line, SkipBlanks(tail));
    if Try(params[k], line).Taken? {
      ParseLineStep(params, line, k, found);
      AfterFirst(params, k, line, head, tail);
    } else {
      ParseLineEnds(params, line, k, found);
    }
  }

  lemma ParseLineEnds(params: seq<Param>, line: string, k: nat, found: bool)
    requires k < |params| && !Try(params[k], line).Taken? && !Try(params[k], line).NoMatch?
    ensures ParseLine(params, line, k, found) == Decided(params, k, Try(params[k], line))
  {
    hide Try;
  }

  lemma SkippedOneLine(tail: string)
    requires OneLine(tail)
    ensures OneLine(SkipBlanks(tail))
  {
    hide SkipBlanks;
    var text := SkipBlanks(tail);
    forall i | 0 <= i < |text| - 1
      ensures text[i] != '\n'
    {
      assert text[i] == tail[|tail| - |text| + i];
    }
  }

  lemma StillSearchable(params: seq<Param>, k: nat, q: Param, line: string, n: nat)
    requires k < |params| && q.name == params[k].name && n <= |line|
    requires AllSearchable(params, line) && PlainNames(params)
    ensures AllSearchable(params[k := q], line[..n]) && PlainNames(params[k := q])
  {
    hide Searchable, PlainName, Owns;
    var params' := params[k := q];
    forall i | 0 <= i < |params|
      ensures params'[i].name == params[i].name && Searchable(params[i].name, line[..n])
    {
      OwnsCut(params[i].name, line, n);
    }
  }

  /** A line cut off behind `e` characters of its value, with one parameter replaced. */
  lemma CutBehind(params: seq<Param>, k: nat, q: Param, line: string, head: string, tail: string, e: nat)
    requires PlainNames(params) && KeyedLine(line, head, tail) && AllSearchable(params, line)
    requires k < |params| && q.name == params[k].name && e <= |SkipBlanks(tail)|
    ensures |SkipBlanks(tail)| <= |tail| <= |line|
    ensures var n, m := |line| - |SkipBlanks(tail)| + e, |tail| - |SkipBlanks(tail)| + e;
            && PlainNames(params[k := q]) && AllSearchable(params[k := q], line[..n])
            && KeyedLine(line[..n], head, tail[..m]) && SkipBlanks(tail[..m]) == SkipBlanks(tail)[..e]
  {
    hide SkipBlanks, Searchable, PlainName, PlainNames, AllSearchable;
    var n := |line| - |SkipBlanks(tail)| + e;
    CutKeyed(line, head, tail, n);
    SkipBlanksCut(tail, e);
    StillSearchable(params, k, q, line, n);
  }

  lemma AfterFirst(params: seq<Param>, k: nat, line: string, head: string, tail: string)
    requires PlainNames(params) && KeyedLine(line, head, tail) && AllSearchable(params, line) && OneLine(tail)
    requires Claimed(params, k, head)
    requires |SkipBlanks(tail)| <= |line| && TakeValue(params[k], line, SkipBlanks(tail)).Taken?
    requires forall j :: k < j && Claimed(params, j, head) ==> Excludes(params[k].kind, params[j].kind)
    ensures var a := TakeValue(params[k], line, SkipBlanks(tail));
            ParseLine(params[k := a.param], a.line, k + 1, true) == LineDone(params[k := a.param], true)
  {
    hide Claims, TakeValue, SkipBlanks, ParseLine, OneLine, PlainNames, AllSearchable, Excludes, ValueEnd, KeyedLine;
    var p, text := params[k], SkipBlanks(tail);
    var a, e := TakeValue(p, line, text), ValueEnd(p.kind, text);
    TakenAtEnd(p, line, text);
    TakenCuts(p, line, text);
    CutBehind(params, k, a.param, line, head, tail, e);
    SkippedOneLine(tail);
    var params' := params[k := a.param];
    forall j | k + 1 <= j && Claimed(params', j, head)
      ensures TakeValue(params'[j], a.line, text[..e]) == Unterminated
    {
      assert Claimed(params, j, head);
      LeavesUnterminated(p, params[j], line, a.line, text);
    }
    NothingLeft(params', a.line, k + 1, head, tail[..|tail| - |text| + e]);
  }

  /** A line without a claimant passes. */
  lemma UnclaimedPasses(params: seq<Param>, line: string, found: bool, head: string, tail: string)
    requires PlainNames(params) && KeyedLine(line, head, tail) && AllSearchable(params, line)
    requires forall j :: !Claimed(params, j, head)
    ensures ParseLine(params, line, 0, found) == LineDone(params, found)
  {
    hide Claims, KeyedLine, Searchable, PlainName, Try;
    NobodyElse(params, line, 0, |params|, found, head, tail);
  }

  ghost predicate OnlyNamedChange(params: seq<Param>, after: seq<Param>, name: string) {
    |after| == |params| && forall i :: 0 <= i < |params| && after[i] != params[i] ==> params[i].name == name
  }

  /** Taking the value makes a difference to the parameter. */
  predicate Changes(p: Param, line: string, text: string)
    requires |text| <= |line|
  {
    var a := TakeValue(p, line, text);
    a.Taken? && a.param != p
  }

  lemma ClaimantsFirst(params: seq<Param>, i: nat, head: string) returns (k: nat)
    requires Claimed(params, i, head)
    ensures FirstClaimant(params, k, head)
  {
    hide Claims;
    k := 0;
    while !Claimed(params, k, head)
      invariant k <= i
      invariant forall j :: 0 <= j < k ==> !Claimed(params, j, head)
      decreases i - k
    {
      k := k + 1;
    }
  }

  lemma FirstIsOne(params: seq<Param>, k: nat, k': nat, head: string)
    requires FirstClaimant(params, k, head) && FirstClaimant(params, k', head)
    ensures k == k'
  {
    hide Claims;
  }

  lemma KeyedParts(line: string, head: string, tail: string)
    requires KeyedLine(line, head, tail)
    ensures |SkipBlanks(tail)| <= |line|
  {
  }

  lemma DecidedIsolates(params: seq<Param>, k: nat, line: string, text: string, name: string)
    requires k < |params| && |text| <= |line|
    ensures var r := Decided(params, k, TakeValue(params[k], line, text));
            !r.LineUndefined? ==>
              (OnlyNamedChange(params, r.params, name) <==>
               (Changes(params[k], line, text) ==> params[k].name == name))
  {
    hide TakeValue;
    TakenIsMatch(params[k], line, text);
    var a := TakeValue(params[k], line, text);
    assert a.Taken? ==> params[k := a.param][k] == a.param;
  }

  /** The only way a line changes a parameter of another name, when its claimants exclude each other:
      the claimant registered first has another name, and the value is one for it. */
  lemma IsolatedExactly(params: seq<Param>, line: string, found: bool, head: string, tail: string, name: string)
    requires PlainNames(params) && KeyedLine(line, head, tail) && AllSearchable(params, line) && OneLine(tail)
    requires forall i, j :: i != j && Claimed(params, i, head) && Claimed(params, j, head) ==>
               Excludes(params[i].kind, params[j].kind)
    ensures |SkipBlanks(tail)| <= |line|
    ensures var r := ParseLine(params, line, 0, found);
            !r.LineUndefined? ==>
              (OnlyNamedChange(params, r.params, name) <==>
               forall k: nat :: FirstClaimant(params, k, head) && Changes(params[k], line, SkipBlanks(tail)) ==>
                 params[k].name == name)
  {
    hide Claims, KeyedLine, Searchable, PlainName, TakeValue, SkipBlanks, ParseLine, OneLine, Excludes, Changes,
         Decided;
    KeyedParts(line, head, tail);
    if i :| Claimed(params, i, head) {
      var k := ClaimantsFirst(params, i, head);
      FirstClaimantDecides(params, k, line, found, head, tail);
      DecidedIsolates(params, k, line, SkipBlanks(tail), name);
      forall k': nat | FirstClaimant(params, k', head)
        ensures k' == k
      {
        FirstIsOne(params, k, k', head);
      }
    } else {
      UnclaimedPasses(params, line, found, head, tail);
    }
  }

  // ---- Lists ----

  /** The text between the brackets, for claimants that are all lists. */
  function ListTaken(params: seq<Param>, i: nat, text: string, head: string): (r: seq<Param>)
    ensures |r| == |params|
  {
    seq(|params|, j requires 0 <= j < |params| =>
      if i <= j && Claims(params[j].name, head) && params[j].kind.KList?
      then TakeList(params[j], params[j].kind.elem, text) else params[j])
  }

  lemma TakeListKeeps(p: Param, elem: ElemKind, text: string)
    ensures TakeList(p, elem, text).name == p.name && TakeList(p, elem, text).kind == p.kind
  {
    hide ReadItems, Tokens;
  }

  lemma ListTaken1(params: seq<Param>, i: nat, text: string, head: string)
    requires i < |params|
    ensures Claims(params[i].name, head) && params[i].kind.KList? ==>
              ListTaken(params[i := TakeList(params[i], params[i].kind.elem, text)], i + 1, text, head)
              == ListTaken(params, i, text, head)
    ensures !Claims(params[i].name, head) ==>
              ListTaken(params, i + 1, text, head) == ListTaken(params, i, text, head)
  {
    hide TakeList, Claims;
  }

  /** The closing bracket stays in the line, so when all claimants are lists, every one of them takes the
      same text. */
  lemma {:induction false} ListsAllTake(params: seq<Param>, line: string, i: nat, found: bool,
                                        head: string, tail: string, text: string)
    requires PlainNames(params) && KeyedLine(line, head, tail) && AllSearchable(params, line) && i <= |params|
    requires forall j :: Claimed(params, j, head) ==> params[j].kind.KList?
    requires ']' !in text && text + "]" <= SkipBlanks(tail)
    ensures ParseLine(params, line, i, found) ==
            LineDone(ListTaken(params, i, text, head), found || exists j :: i <= j && Claimed(params, j, head))
    decreases |params| - i
  {
    hide Claims, PlainNames, AllSearchable, TakeValue, SkipBlanks, Try, TakeList, ListTaken, KeyedLine;
    if i == |params| {
      ListTakenNone(params, text, head);
    } else {
      ListTaken1(params, i, text, head);
      TryKeyed(params, i, line, head, tail);
      if Claimed(params, i, head) {
        var q := TakeList(params[i], params[i].kind.elem, text);
        TakeListKeeps(params[i], params[i].kind.elem, text);
        CutBehind(params, i, q, line, head, tail, |text| + 1);
        ListTakes(params[i], line, SkipBlanks(tail), text);
        var n, m := |line| - |SkipBlanks(tail)| + |text| + 1, |tail| - |SkipBlanks(tail)| + |text| + 1;
        var params' := params[i := q];
        assert forall j :: Claimed(params', j, head) <==> Claimed(params, j, head);
        ListsAllTake(params', line[..n], i + 1, true, head, tail[..m], text);
      } else {
        ListsAllTake(params, line, i + 1, found, head, tail, text);
        assert forall j :: i <= j && Claimed(params, j, head) ==> i + 1 <= j;
      }
    }
  }

  lemma TryKeyed(params: seq<Param>, i: nat, line: string, head: string, tail: string)
    requires PlainNames(params) && KeyedLine(line, head, tail) && AllSearchable(params, line) && i < |params|
    ensures |SkipBlanks(tail)| <= |line|
    ensures Try(params[i], line) ==
            if Claims(params[i].name, head) then TakeValue(params[i], line, SkipBlanks(tail)) else NoMatch
  {
    hide Try, Claims, TakeValue, SkipBlanks, Searchable, PlainName;
    TakesKeyed(params[i], line, head, tail);
  }

  lemma ListTakenNone(params: seq<Param>, text: string, head: string)
    ensures ListTaken(params, |params|, text, head) == params
  {
  }

  lemma ListTakes(p: Param, line: string, rest: string, text: string)
    requires p.kind.KList? && |rest| <= |line| && ']' !in text && text + "]" <= rest
    ensures TakeValue(p, line, rest) ==
            Taken(TakeList(p, p.kind.elem, text), line[..|line| - |rest| + |text| + 1])
  {
    hide TakeList, IndexOf;
    assert rest[..|text|] == text && rest[|text|] == (text + "]")[|text|];
    IndexOfUnique(rest, ']', |text|);
  }

  // ---- Any kinds ----

  /** The claimants from index `i` on, each finding what the one before has left of the text behind the
      `=`. Nothing is searched for, and nothing else of the line matters. */
  function Chain(params: seq<Param>, i: nat, head: string, text: string, found: bool): LineResult
    requires i <= |params|
    decreases |params| - i
  {
    if i == |params| then LineDone(params, found)
    else if !Claims(params[i].name, head) then Chain(params, i + 1, head, text, found)
    else
      match TakeValue(params[i], text, text)
      case NoMatch => Chain(params, i + 1, head, text, found)
      case Undefined => LineUndefined
      case Unterminated => LineDone(params, true)
      case Refused(e) => LineFailed(params, e)
      case Taken(q, left) => Chain(params[i := q], i + 1, head, left, true)
  }

  /** What is taken depends on the text alone. */
  lemma TakeFromText(p: Param, line: string, text: string)
    requires |text| <= |line|
    ensures var a, b, e := TakeValue(p, line, text), TakeValue(p, text, text), ValueEnd(p.kind, text);
            if b.Taken? then b.line == text[..e] && a == Taken(b.param, line[..|line| - |text| + e]) else a == b
  {
    hide IndexOf, ScalarEnd, TakeList, TakeScalar;
    match p.kind
    case KList(_) =>
    case KStr =>
    case _ =>
      var e := ScalarEnd(text);
      ScalarFromText(p, text[..e], line[..|line| - |text| + e], text[..|text| - |text| + e]);
  }

  lemma ScalarFromText(p: Param, v: string, line: string, line': string)
    ensures var a, b := TakeScalar(p, v, line), TakeScalar(p, v, line');
            if b.Taken? then b.line == line' && a == Taken(b.param, line) else a == b
  {
    hide TruthOf, Strtol, Strtoul, Find, HexBytes;
  }

  lemma NameKept(p: Param, text: string)
    ensures TakeValue(p, text, text).Taken? ==> TakeValue(p, text, text).param.name == p.name
  {
    hide TakeValue;
    TakenCuts(p, text, text);
  }

  /** For claimants of any kinds, a line with one `=` is parsed as its claimants take turns on the text
      behind the `=`, despite the searches and the cuts. */
  lemma {:induction false} ParseLineIsChain(params: seq<Param>, line: string, i: nat, found: bool,
                                            head: string, tail: string)
    requires PlainNames(params) && KeyedLine(line, head, tail) && AllSearchable(params, line) && i <= |params|
    ensures ParseLine(params, line, i, found) == Chain(params, i, head, SkipBlanks(tail), found)
    decreases |params| - i
  {
    hide Claims, PlainNames, AllSearchable, TakeValue, SkipBlanks, Try, KeyedLine, ValueEnd;
    if i < |params| {
      TryKeyed(params, i, line, head, tail);
      var p, text := params[i], SkipBlanks(tail);
      var b, e := TakeValue(p, text, text), ValueEnd(p.kind, text);
      TakeFromText(p, line, text);
      if Claims(p.name, head) && b.Taken? {
        NameKept(p, text);
        CutBehind(params, i, b.param, line, head, tail, e);
        var n, m := |line| - |text| + e, |tail| - |text| + e;
        ParseLineIsChain(params[i := b.param], line[..n], i + 1, true, head, tail[..m]);
      } else {
        ParseLineIsChain(params, line, i + 1, found, head, tail);
      }
    }
  }
}
