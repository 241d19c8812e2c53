/** How a command line divides into option groups: one or two tokens each, then a rest. */
module FlagGroups {
  import opened Seqs

  /** An option token taken apart: the ignore mark, the name, and the value after the first `=`. */
  datatype Header = Header(ignore: bool, name: string, value: Option<string>)

  /** The tokens that end option parsing. */
  predicate Stops(token: string) {
    token == [] || token[0] != '-' || token == "--"
  }

  /** The names that ask for help: the leading dash of the token is not part of the name, so the
      tokens are `--h` and `--help`. */
  predicate Helps(name: string) {
    name == "-h" || name == "-help"
  }

  /** The text before the first `=`, and the text after it if there is one. */
  function CutAtEquals(body: string): (string, Option<string>) {
    var e := IndexOf(body, '=');
    if e < |body| then (body[..e], Some(body[e + 1..])) else (body, None)
  }

  function ValueText(value: Option<string>): string {
    match value
    case None => ""
    case Some(v) => "=" + v
  }

  lemma CutBack(body: string)
    ensures var c := CutAtEquals(body); '=' !in c.0 && body == c.0 + ValueText(c.1)
  {
    var e := IndexOf(body, '=');
    if e < |body| {
      assert body == body[..e] + ("=" + body[e + 1..]);
    } else {
      assert body[..e] == body;
      assert body + "" == body;
    }
  }

  lemma CutOf(name: string, value: Option<string>)
    requires '=' !in name
    ensures CutAtEquals(name + ValueText(value)) == (name, value)
  {
    var body := name + ValueText(value);
    assert body[..|name|] == name;
    IndexOfUnique(body, '=', |name|);
    if value.Some? {
      assert body[|name| + 1..] == value.value;
    } else {
      assert body == name;
    }
  }

  function Mark(ignore: bool): string {
    if ignore then "/" else ""
  }

  function HeaderOf(token: string): Header
    requires !Stops(token)
  {
    var flag := token[1..];
    var ignore := flag != [] && flag[0] == '/';
    var c := CutAtEquals(if ignore then flag[1..] else flag);
    Header(ignore, c.0, c.1)
  }

  datatype Group = Group(name: string, ignore: bool, arg: string, joined: bool)

  function Prefix(g: Group): string {
    "-" + (Mark(g.ignore) + g.name)
  }

  /** A group as it is written, `-name=value` or `-name value`. */
  function GroupTokens(g: Group): (ts: seq<string>)
    ensures |ts| == if g.joined then 1 else 2
  {
    if g.joined then [Prefix(g) + ValueText(Some(g.arg))] else [Prefix(g), g.arg]
  }

  function Render(groups: seq<Group>): seq<string> {
    if groups == [] then [] else GroupTokens(groups[0]) + Render(groups[1..])
  }

  /** What follows the groups. */
  datatype Ending =
    | Exhausted
    | Stopped(rest: seq<string>)
    | Help(rest: seq<string>)
    | NotAFlag(name: string, rest: seq<string>)
    | Valueless(name: string, rest: seq<string>)

  datatype Parts = Parts(groups: seq<Group>, ending: Ending)

  function Split(names: seq<string>, tokens: seq<string>): Parts
    decreases |tokens|
  {
    if tokens == [] then Parts([], Exhausted)
    else if Stops(tokens[0]) then Parts([], Stopped(tokens))
    else
      var h := HeaderOf(tokens[0]);
      if Helps(h.name) then Parts([], Help(tokens))
      else if h.name !in names then Parts([], NotAFlag(h.name, tokens))
      else if h.value.Some? then
        Cons(Group(h.name, h.ignore, h.value.value, true), Split(names, tokens[1..]))
      else if |tokens| == 1 then Parts([], Valueless(h.name, tokens))
      else Cons(Group(h.name, h.ignore, tokens[1], false), Split(names, tokens[2..]))
  }

  function Cons(g: Group, p: Parts): Parts {
    p.(groups := [g] + p.groups)
  }

  /** A group that reads back as it was written. */
  predicate Legible(g: Group) {
    && '=' !in g.name
    && !Helps(g.name)
    && (!g.ignore ==> g.name == [] || g.name[0] != '/')
    && (!g.ignore && !g.joined ==> g.name != "-")
  }

  function InToken(g: Group): Option<string> {
    if g.joined then Some(g.arg) else None
  }

  lemma FirstToken(g: Group)
    ensures GroupTokens(g)[0] == "-" + (Mark(g.ignore) + (g.name + ValueText(InToken(g))))
  {
    assert !g.joined ==> g.name + "" == g.name;
    assert "-" + (Mark(g.ignore) + g.name) + ValueText(InToken(g)) ==
           "-" + (Mark(g.ignore) + (g.name + ValueText(InToken(g))));
  }

  lemma HeaderOfToken(ignore: bool, body: string)
    requires !ignore && body != [] ==> body[0] != '/'
    requires !Stops("-" + (Mark(ignore) + body))
    ensures HeaderOf("-" + (Mark(ignore) + body)) ==
            Header(ignore, CutAtEquals(body).0, CutAtEquals(body).1)
  {
    hide CutAtEquals;
    var flag := Mark(ignore) + body;
    assert ("-" + flag)[1..] == flag;
    assert ignore ==> flag[0] == '/' && flag[1..] == body;
    assert !ignore ==> flag == body;
  }

  lemma StopsToken(ignore: bool, body: string)
    ensures Stops("-" + (Mark(ignore) + body)) <==> !ignore && body == "-"
  {
    var flag := Mark(ignore) + body;
    assert ("-" + flag)[1..] == flag && "--" == "-" + "-";
    assert ignore ==> flag[0] == '/';
    assert !ignore ==> flag == body;
  }

  lemma BodyIsDash(name: string, value: Option<string>)
    ensures name + ValueText(value) == "-" <==> name == "-" && value.None?
  {
    if value.None? {
      assert name + "" == name;
    } else if name != [] {
      assert |name + ValueText(value)| >= 2;
    } else {
      assert (name + ValueText(value))[0] == '=';
    }
  }

  /** A group reads back exactly when it is legible. */
  lemma LegibleExactly(g: Group)
    ensures var t := GroupTokens(g)[0];
            (!Stops(t) && !Helps(HeaderOf(t).name) &&
             HeaderOf(t) == Header(g.ignore, g.name, InToken(g)))
            <==> Legible(g)
  {
    hide Stops, HeaderOf, GroupTokens, CutAtEquals, ValueText, Mark;
    var t := GroupTokens(g)[0];
    var body := g.name + ValueText(InToken(g));
    FirstToken(g);
    StopsToken(g.ignore, body);
    BodyIsDash(g.name, InToken(g));
    BodyStart(g.name, InToken(g));
    if !Stops(t) {
      if '=' in g.name {
        HeaderNames(t);
      } else if !g.ignore && g.name != [] && g.name[0] == '/' {
        HeaderMark(t, body);
      } else {
        HeaderOfToken(g.ignore, body);
        CutOf(g.name, InToken(g));
      }
    }
  }

  lemma BodyStart(name: string, value: Option<string>)
    ensures var body := name + ValueText(value);
            body != [] ==> body[0] == if name == [] then '=' else name[0]
  {
  }

  lemma HeaderMark(token: string, body: string)
    requires !Stops(token) && body != [] && body[0] == '/' && token == "-" + (Mark(false) + body)
    ensures HeaderOf(token).ignore
  {
    assert token[1] == '/';
  }

  lemma HeaderNames(token: string)
    requires !Stops(token)
    ensures '=' !in HeaderOf(token).name
  {
    HeaderBack(token);
  }

  /** A command line of these groups: all registered, all legible. */
  predicate WellFormed(names: seq<string>, groups: seq<Group>) {
    forall g :: g in groups ==> g.name in names && Legible(g)
  }

  lemma SplitCons(names: seq<string>, g: Group, rest: seq<string>)
    requires g.name in names && Legible(g)
    ensures Split(names, GroupTokens(g) + rest) == Cons(g, Split(names, rest))
  {
    hide HeaderOf, Stops, Prefix, Legible;
    LegibleExactly(g);
    var tokens := GroupTokens(g) + rest;
    assert tokens[0] == GroupTokens(g)[0];
    if g.joined {
      assert tokens[1..] == rest;
    } else {
      assert tokens[1] == g.arg;
      assert tokens[2..] == rest;
    }
  }

  /** Splitting undoes rendering: the groups come back whatever their style, and whatever follows them
      is split as if it stood alone. */
  lemma {:induction false} SplitRender(names: seq<string>, groups: seq<Group>, rest: seq<string>)
    requires WellFormed(names, groups)
    ensures Split(names, Render(groups) + rest) ==
            Parts(groups + Split(names, rest).groups, Split(names, rest).ending)
  {
    hide Split, GroupTokens;
    if groups == [] {
      assert [] + rest == rest;
      assert groups + Split(names, rest).groups == Split(names, rest).groups;
    } else {
      var g, gs := groups[0], groups[1..];
      SplitRender(names, gs, rest);
      assert groups[0] in groups;
      SplitCons(names, g, Render(gs) + rest);
      assert GroupTokens(g) + Render(gs) + rest == GroupTokens(g) + (Render(gs) + rest);
      assert [g] + (gs + Split(names, rest).groups) == groups + Split(names, rest).groups;
    }
  }

  function Remaining(e: Ending): seq<string> {
    match e
    case Exhausted => []
    case Stopped(rest) => rest
    case Help(rest) => rest
    case NotAFlag(_, rest) => rest
    case Valueless(_, rest) => rest
  }

  /** The token is what its parts render to. */
  lemma HeaderBack(token: string)
    requires !Stops(token)
    ensures var h := HeaderOf(token);
            && token == "-" + (Mark(h.ignore) + (h.name + ValueText(h.value)))
            && '=' !in h.name
            && (!h.ignore && h.name != [] ==> h.name[0] != '/')
  {
    hide CutAtEquals, ValueText;
    var flag := token[1..];
    var ignore := flag != [] && flag[0] == '/';
    var body := if ignore then flag[1..] else flag;
    assert token == "-" + flag && flag == Mark(ignore) + body;
    CutBack(body);
    var h := HeaderOf(token);
    assert h.name != [] ==> body[0] == h.name[0];
  }

  function HelpName(long: bool): string {
    if long then "-help" else "-h"
  }

  /** A token that asks for help: the name with its own dash, marked or not, with a value or without. */
  function HelpToken(ignore: bool, long: bool, value: Option<string>): string {
    "-" + (Mark(ignore) + (HelpName(long) + ValueText(value)))
  }

  lemma HelpTokenHelps(ignore: bool, long: bool, value: Option<string>)
    ensures var t := HelpToken(ignore, long, value);
            !Stops(t) && HeaderOf(t) == Header(ignore, HelpName(long), value)
  {
    hide Stops, HeaderOf, ValueText, Mark;
    var n := HelpName(long);
    BodyStart(n, value);
    BodyIsDash(n, value);
    StopsToken(ignore, n + ValueText(value));
    HeaderOfToken(ignore, n + ValueText(value));
    CutOf(n, value);
  }

  /** The tokens that ask for help are exactly these. */
  lemma HelpsExactly(token: string)
    requires !Stops(token)
    ensures Helps(HeaderOf(token).name) <==>
            exists ignore: bool, long: bool, value: Option<string> :: token == HelpToken(ignore, long, value)
  {
    hide Stops, HeaderOf, ValueText;
    var h := HeaderOf(token);
    if Helps(h.name) {
      HeaderBack(token);
      assert token == HelpToken(h.ignore, h.name == "-help", h.value);
    }
    if ignore: bool, long: bool, value: Option<string> :| token == HelpToken(ignore, long, value) {
      HelpTokenHelps(ignore, long, value);
    }
  }

  /** A dash and a plain name are the name, without a value. */
  lemma PlainHeader(name: string)
    requires name != [] && '=' !in name && name[0] != '/' && name != "-"
    ensures !Stops("-" + name) && HeaderOf("-" + name) == Header(false, name, None)
  {
    hide Stops, HeaderOf;
    assert name + "" == name && Mark(false) + name == name;
    StopsToken(false, name);
    HeaderOfToken(false, name);
    CutOf(name, None);
  }

  lemma ReadsLegible(token: string, g: Group)
    requires !Stops(token) && !Helps(HeaderOf(token).name)
    requires HeaderOf(token) == Header(g.ignore, g.name, InToken(g))
    ensures Legible(g) && GroupTokens(g)[0] == token
  {
    hide Stops, HeaderOf, GroupTokens, Mark, ValueText;
    HeaderBack(token);
    FirstToken(g);
    StopsToken(g.ignore, g.name + ValueText(InToken(g)));
    BodyIsDash(g.name, InToken(g));
  }

  lemma RenderCons(g: Group, groups: seq<Group>, tokens: seq<string>, rest: seq<string>, tail: seq<string>)
    requires Render(groups) + tail == rest && tokens == GroupTokens(g) + rest
    ensures Render([g] + groups) + tail == tokens
  {
    assert ([g] + groups)[1..] == groups;
    assert GroupTokens(g) + Render(groups) + tail == GroupTokens(g) + (Render(groups) + tail);
  }

  lemma WellFormedCons(names: seq<string>, g: Group, groups: seq<Group>)
    requires WellFormed(names, groups) && g.name in names && Legible(g)
    ensures WellFormed(names, [g] + groups)
  {
  }

  /** The split accounts for every token: rendering the groups and appending what remains gives the
      command line back. */
  lemma {:induction false} SplitSound(names: seq<string>, tokens: seq<string>)
    ensures var p := Split(names, tokens);
            && WellFormed(names, p.groups)
            && Render(p.groups) + Remaining(p.ending) == tokens
    decreases |tokens|
  {
    hide HeaderOf, Stops, Helps, Legible, WellFormed, Render;
    var p := Split(names, tokens);
    if p.groups == [] {
      assert WellFormed(names, []) && Render([]) == [] by { NoGroups(names); }
      assert [] + tokens == tokens;
    } else {
      var h := HeaderOf(tokens[0]);
      var g := Group(h.name, h.ignore, if h.value.Some? then h.value.value else tokens[1], h.value.Some?);
      var rest := if h.value.Some? then tokens[1..] else tokens[2..];
      var q := Split(names, rest);
      assert p == Cons(g, q);
      SplitSound(names, rest);
      ReadsLegible(tokens[0], g);
      assert tokens == GroupTokens(g) + rest;
      RenderCons(g, q.groups, tokens, rest, Remaining(q.ending));
      WellFormedCons(names, g, q.groups);
    }
  }

  lemma NoGroups(names: seq<string>)
    ensures WellFormed(names, []) && Render([]) == []
  {
  }

  /** There is no other way to cut a command line into legible groups and a rest that is empty or
      starts with a stop token. */
  lemma SplitUnique(names: seq<string>, groups: seq<Group>, rest: seq<string>)
    requires WellFormed(names, groups)
    requires rest == [] || Stops(rest[0])
    ensures Split(names, Render(groups) + rest) ==
            Parts(groups, if rest == [] then Exhausted else Stopped(rest))
  {
    hide Stops, Render;
    SplitRender(names, groups, rest);
    assert groups + [] == groups;
  }

  /** What stands behind the groups and is no further group: a call for help, an unknown name, or a
      registered name with no value left for it. */
  lemma EndingExactly(names: seq<string>, groups: seq<Group>, token: string, more: seq<string>)
    requires WellFormed(names, groups) && !Stops(token)
    ensures var h, rest := HeaderOf(token), [token] + more;
            var ending := Split(names, Render(groups) + rest).ending;
            && (h.name == "-h" || h.name == "-help" ==> ending == Help(rest))
            && (h.name != "-h" && h.name != "-help" && h.name !in names ==> ending == NotAFlag(h.name, rest))
            && (h.name != "-h" && h.name != "-help" && h.name in names && h.value.None? && more == [] ==>
                  ending == Valueless(h.name, rest))
            && (h.name == "-h" || h.name == "-help" || h.name !in names || (h.value.None? && more == []) ==>
                  Split(names, Render(groups) + rest).groups == groups)
  {
    hide HeaderOf, Stops, Render, WellFormed;
    SplitRender(names, groups, [token] + more);
    assert groups + [] == groups;
  }
}
