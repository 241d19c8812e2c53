/** What a parse of a whole text answers. */
module ParamAnswers {
  import opened Seqs
  import opened ParamLists
  import opened ParamText
  import opened ParamKeys
  import opened ParamLines
  import opened ParamValues
  import opened ParamRoundTrip

  // ---- The lines of a text ----

  /** What one call of `fgets` takes: up to a newline, the end of the text, or 1023 characters. */
  lemma LineShape(text: string)
    requires text != ""
    ensures var l := text[..FirstLine(text)];
            && 0 < |l| <= 1023 && '\n' !in l[..|l| - 1]
            && (l[|l| - 1] == '\n' || |l| == 1023 || l == text)
  {
    var n, e := FirstLine(text), IndexOf(text, '\n');
    assert text[..n][..n - 1] == text[..e][..n - 1];
    assert n == |text| ==> text[..n] == text;
  }

  function Lines(text: string): seq<string>
    decreases |text|
  {
    if text == "" then [] else [text[..FirstLine(text)]] + Lines(text[FirstLine(text)..])
  }

  /** A line that starts with `#`, a blank or a newline is passed over; any other is searched. */
  lemma LineByLine(params: seq<Param>, text: string, found: bool)
    requires text != ""
    ensures var l, rest := text[..FirstLine(text)], text[FirstLine(text)..];
            && l != ""
            && (l[0] == '#' || l[0] == ' ' || l[0] == '\n' ==>
                  ParseText(params, text, found) == ParseText(params, rest, found))
            && (l[0] != '#' && l[0] != ' ' && l[0] != '\n' ==>
                  var r := ParseLine(params, l, 0, found);
                  ParseText(params, text, found) == if r.LineDone? then ParseText(r.params, rest, r.found) else r)
  {
    hide ParseLine, FirstLine;
  }

  /** Some line of the text that is searched belongs to the name. */
  ghost predicate OwnedIn(name: string, text: string) {
    exists l :: l in Lines(text) && l != "" && l[0] != '#' && l[0] != ' ' && l[0] != '\n' && Owns(name, l)
  }

  lemma OwnedRest(name: string, text: string)
    requires text != ""
    ensures var l, rest := text[..FirstLine(text)], text[FirstLine(text)..];
            && l != ""
            && (OwnedIn(name, text) <==>
                (l[0] != '#' && l[0] != ' ' && l[0] != '\n' && Owns(name, l)) || OwnedIn(name, rest))
  {
    hide Owns, FirstLine;
    var l, rest := text[..FirstLine(text)], text[FirstLine(text)..];
    assert forall m :: m in Lines(text) <==> m == l || m in Lines(rest);
  }

  // ---- What stays ----

  /** Values and marks apart, nothing about a parameter changes, and no mark goes away. */
  ghost predicate SameButValues(a: seq<Param>, b: seq<Param>) {
    && |a| == |b|
    && forall i :: 0 <= i < |a| ==>
         b[i] == a[i].(val := b[i].val, changed := b[i].changed) && (a[i].changed ==> b[i].changed)
  }

  lemma TakenMarks(p: Param, line: string, text: string)
    requires |text| <= |line| && TakeValue(p, line, text).Taken?
    ensures p.changed ==> TakeValue(p, line, text).param.changed
  {
    hide ReadItems, Tokens, IndexOf, ScalarEnd, HexBytes, Find;
  }

  lemma {:induction false} LineKeeps(params: seq<Param>, whole: string, n: nat, i: nat, found: bool)
    requires PlainNames(params) && n <= |whole| && i <= |params|
    ensures var r := ParseLine(params, whole[..n], i, found);
            !r.LineUndefined? ==> SameButValues(params, r.params) && PlainNames(r.params)
    decreases |params| - i
  {
    hide Try, Owns, PlainName;
    if i < |params| {
      var a := Try(params[i], whole[..n]);
      if a.NoMatch? {
        LineKeeps(params, whole, n, i + 1, found);
      } else if a.Taken? {
        TryKeeps(params[i], whole, n);
        TryMarks(params[i], whole[..n]);
        LineKeeps(params[i := a.param], whole, |a.line|, i + 1, true);
      }
    }
  }

  lemma TryMarks(p: Param, line: string)
    requires PlainName(p.name) && Try(p, line).Taken?
    ensures p.changed ==> Try(p, line).param.changed
  {
    hide Try, Owns, ValueAt, TakeValue, PlainName;
    TakesExactly(p, line);
    TakenMarks(p, line, ValueAt(p.name, line));
  }

  /** A parameter whose name owns no line of the text keeps its value and its mark. */
  lemma {:induction false} UnownedStays(params: seq<Param>, text: string, found: bool, k: nat)
    requires PlainNames(params) && k < |params| && !OwnedIn(params[k].name, text)
    ensures var r := ParseText(params, text, found);
            !r.LineUndefined? ==> SameButValues(params, r.params) && r.params[k] == params[k]
    decreases |text|
  {
    hide ParseLine, FirstLine, Skipped, Owns, OwnedIn;
    if text != "" {
      var l, rest := text[..FirstLine(text)], text[FirstLine(text)..];
      LineByLine(params, text, found);
      OwnedRest(params[k].name, text);
      var r := ParseLine(params, l, 0, found);
      assert l[..|l|] == l;
      LineKeeps(params, l, |l|, 0, found);
      OnlyOwnersChange(params, l, |l|, 0, found);
      if l[0] == '#' || l[0] == ' ' || l[0] == '\n' {
        UnownedStays(params, rest, found, k);
      } else if r.LineDone? {
        UnownedStays(r.params, rest, r.found, k);
      }
    }
  }

  /** So a text without a line for a mandatory parameter that is not marked yet is never accepted. */
  lemma MissingMandatoryFails(params: seq<Param>, text: string, k: nat)
    requires PlainNames(params) && k < |params| && !OwnedIn(params[k].name, text)
    requires params[k].mandatory && !params[k].changed
    ensures var r := ParseText(params, text, false);
            !(r.LineDone? && r.found && forall p :: p in r.params && p.mandatory ==> p.changed)
  {
    hide ParseText, OwnedIn;
    UnownedStays(params, text, false, k);
    var r := ParseText(params, text, false);
    assert r.LineDone? ==> r.params[k] in r.params;
  }

  // ---- Whether anything was found ----

  lemma {:induction false} FoundStays(params: seq<Param>, line: string, i: nat)
    requires i <= |params|
    ensures var r := ParseLine(params, line, i, true); r.LineDone? ==> r.found
    decreases |params| - i
  {
    hide Try;
    if i < |params| {
      var a := Try(params[i], line);
      if a.NoMatch? {
        FoundStays(params, line, i + 1);
      } else if a.Taken? {
        FoundStays(params[i := a.param], a.line, i + 1);
      }
    }
  }

  lemma {:induction false} LineFound(params: seq<Param>, line: string, i: nat, found: bool)
    requires PlainNames(params) && i <= |params|
    ensures var r := ParseLine(params, line, i, found);
            r.LineDone? ==> (r.found <==> found || exists j :: i <= j < |params| && Owns(params[j].name, line))
    decreases |params| - i
  {
    hide Try, Owns, ValueAt, TakeValue, PlainName;
    if i < |params| {
      var a := Try(params[i], line);
      TakesExactly(params[i], line);
      if Owns(params[i].name, line) && Searchable(params[i].name, line) {
        TakenIsMatch(params[i], line, ValueAt(params[i].name, line));
      }
      if a.NoMatch? {
        LineFound(params, line, i + 1, found);
      } else if a.Taken? {
        FoundStays(params[i := a.param], a.line, i + 1);
      }
    }
  }

  ghost predicate AnyOwned(params: seq<Param>, text: string) {
    exists j :: 0 <= j < |params| && OwnedIn(params[j].name, text)
  }

  /** A parse finds something exactly when some line that is searched belongs to some parameter. */
  lemma {:induction false} FoundExactly(params: seq<Param>, text: string, found: bool)
    requires PlainNames(params)
    ensures var r := ParseText(params, text, found); r.LineDone? ==> (r.found <==> found || AnyOwned(params, text))
    decreases |text|
  {
    hide ParseLine, FirstLine, Skipped, Owns, OwnedIn;
    if text == "" {
      NothingOwned(params);
    } else {
      var l, rest := text[..FirstLine(text)], text[FirstLine(text)..];
      LineByLine(params, text, found);
      forall j | 0 <= j < |params|
        ensures OwnedIn(params[j].name, text) <==>
                (l[0] != '#' && l[0] != ' ' && l[0] != '\n' && Owns(params[j].name, l)) || OwnedIn(params[j].name, rest)
      {
        OwnedRest(params[j].name, text);
      }
      if l[0] == '#' || l[0] == ' ' || l[0] == '\n' {
        FoundExactly(params, rest, found);
      } else if ParseLine(params, l, 0, found).LineDone? {
        var r := ParseLine(params, l, 0, found);
        assert l[..|l|] == l;
        LineKeeps(params, l, |l|, 0, found);
        LineFound(params, l, 0, found);
        FoundExactly(r.params, rest, r.found);
        assert forall j :: 0 <= j < |params| ==> r.params[j].name == params[j].name;
      }
    }
  }

  lemma NothingOwned(params: seq<Param>)
    ensures !AnyOwned(params, "")
  {
  }

  // ---- A bad list ----

  /** A line of its own whose list is not read to its end: a word is no element, or there are too many. */
  ghost predicate BadListLine(params: seq<Param>, k: nat, line: string, head: string, after: string,
                              words: seq<string>, seps: seq<string>, items: seq<Elem>)
  {
    && PlainNames(params) && AllSearchable(params, line)
    && WellSeparated(words, seps) && ']' !in Joined(words, seps)
    && KeyedLine(line, head, ("[" + Joined(words, seps)) + ("]" + after))
    && (forall j :: Claimed(params, j, head) ==> params[j].kind.KList?)
    && Claimed(params, k, head)
    && LongestValid(params[k].kind.elem, words, items) && |items| < |words|
  }

  lemma BadListTaken(params: seq<Param>, k: nat, line: string, head: string, after: string,
                     words: seq<string>, seps: seq<string>, items: seq<Elem>)
    requires BadListLine(params, k, line, head, after, words, seps, items)
    ensures var r := ParseLine(params, line, 0, false);
            && r.LineDone? && PlainNames(r.params) && |r.params| == |params|
            && r.params[k] == params[k].(val := if items == [] then params[k].val else VList(items))
  {
    hide ParseLine, LongestValid, AllSearchable, PlainNames, Claims, Joined, SkipBlanks, TakeList, KeyedLine;
    var text := "[" + Joined(words, seps);
    BracketFirst(Joined(words, seps), after);
    ListsAllTake(params, line, 0, false, head, text + ("]" + after), text);
    ListTakenExactly(params[k], params[k].kind.elem, words, seps, items);
    ListTakenPlain(params, text, head);
  }

  lemma BracketFirst(inner: string, after: string)
    requires ']' !in inner
    ensures var text := "[" + inner; ']' !in text && text + "]" <= SkipBlanks(text + ("]" + after))
  {
    var text := "[" + inner;
    NoBlanksToSkip(text, "]" + after);
    assert text + ("]" + after) == text + "]" + after;
  }

  /** A list that is not read to its end leaves its parameter unmarked, so that a text where no other
      line is for it is not accepted when it is mandatory, as lists always are. */
  lemma BadListFails(params: seq<Param>, k: nat, line: string, rest: string, head: string, after: string,
                     words: seq<string>, seps: seq<string>, items: seq<Elem>)
    requires BadListLine(params, k, line, head, after, words, seps, items)
    requires line != "" && line[|line| - 1] == '\n' && '\n' !in line[..|line| - 1] && |line| < 1024
    requires line[0] != '#' && line[0] != ' ' && line[0] != '\n'
    requires params[k].mandatory && !params[k].changed && !OwnedIn(params[k].name, rest)
    ensures var r := ParseText(params, line + rest, false);
            && !(r.LineDone? && r.found && forall p :: p in r.params && p.mandatory ==> p.changed)
            && (!r.LineUndefined? ==>
                  |r.params| == |params| &&
                  r.params[k] == params[k].(val := if items == [] then params[k].val else VList(items)))
  {
    hide ParseText, ParseLine, OwnedIn, WellSeparated, LongestValid, KeyedLine, AllSearchable, PlainNames, Claims;
    BadListTaken(params, k, line, head, after, words, seps, items);
    EndsAtNewline(line, rest);
    LineByLine(params, line + rest, false);
    var q := ParseLine(params, line, 0, false);
    UnownedStays(q.params, rest, q.found, k);
    var r := ParseText(params, line + rest, false);
    assert !r.LineUndefined? ==> r.params[k] in r.params;
  }

  lemma ListTakenPlain(params: seq<Param>, text: string, head: string)
    requires PlainNames(params)
    ensures PlainNames(ListTaken(params, 0, text, head))
  {
    hide TakeList, Claims, PlainName;
    forall j | 0 <= j < |params|
      ensures ListTaken(params, 0, text, head)[j].name == params[j].name
    {
      if params[j].kind.KList? {
        TakeListKeeps(params[j], params[j].kind.elem, text);
      }
    }
  }
}
