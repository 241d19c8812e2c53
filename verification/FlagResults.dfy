/** What a parse leaves in the flags, stated for whole command lines. */
module FlagResults {
  import opened Machine
  import opened Seqs
  import opened CText
  import opened FlagValues
  import opened FlagGroups
  import opened FlagFold

  // ---- The final value of every flag ----

  /** The groups that name a flag and are not ignored, in order. */
  function Own(groups: seq<Group>, name: string): seq<Group> {
    if groups == [] then []
    else if groups[0].name == name && !groups[0].ignore then [groups[0]] + Own(groups[1..], name)
    else Own(groups[1..], name)
  }

  function Args(groups: seq<Group>): (args: seq<string>)
    ensures |args| == |groups|
  {
    seq(|groups|, i requires 0 <= i < |groups| => groups[i].arg)
  }

  predicate Mentioned(groups: seq<Group>, name: string) {
    exists g :: g in groups && g.name == name
  }

  /** What the groups make of one flag: a list gains all its arguments, any other flag takes the value
      of its last argument, and a mention of any kind is remembered. */
  ghost predicate Updated(f: Flag, f': Flag, groups: seq<Group>) {
    var own := Own(groups, f.name);
    && f' == f.(val := f'.val, changed := f.changed || Mentioned(groups, f.name))
    && (f.kind == KList ==> if own == [] then f'.val == f.val
                            else f'.val == ListValue(Items(f.val) + Args(own)))
    && (f.kind != KList ==> if own == [] then f'.val == f.val
                            else Read(f.kind, own[|own| - 1].arg) == Good(f'.val))
  }

  lemma OwnCons(g: Group, groups: seq<Group>, name: string)
    ensures Own([g] + groups, name) ==
            (if g.name == name && !g.ignore then [g] else []) + Own(groups, name)
    ensures Mentioned([g] + groups, name) <==> g.name == name || Mentioned(groups, name)
  {
    assert ([g] + groups)[1..] == groups;
    if Mentioned(groups, name) {
      var h :| h in groups && h.name == name;
      assert h in [g] + groups;
    }
    assert g in [g] + groups;
  }

  lemma StoreUpdates(f: Flag, g: Group)
    requires g.name == f.name && Store(f, g.ignore, g.arg).Kept?
    ensures Updated(f, Store(f, g.ignore, g.arg).flag, [g])
  {
    hide Read, Own;
    OwnCons(g, [], f.name);
    assert [g] + [] == [g] && Own([], f.name) == [] by { OwnNothing(f.name); }
    assert [g] + Own([], f.name) == [g];
    assert Args([g]) == [g.arg];
    assert Mentioned([], f.name) == false;
  }

  lemma OwnNothing(name: string)
    ensures Own([], name) == []
  {
  }

  lemma UpdatedOther(f: Flag, g: Group)
    requires g.name != f.name
    ensures Updated(f, f, [g])
  {
    hide Own;
    OwnCons(g, [], f.name);
    OwnNothing(f.name);
    assert [g] + [] == [g];
    assert Mentioned([], f.name) == false;
  }

  lemma UpdatedThen(f: Flag, f1: Flag, f2: Flag, g: Group, groups: seq<Group>)
    requires Updated(f, f1, [g]) && Updated(f1, f2, groups)
    ensures Updated(f, f2, [g] + groups)
  {
    hide Read, Own, Mentioned;
    OwnCons(g, groups, f.name);
    OwnCons(g, [], f.name);
    OwnNothing(f.name);
    assert [g] + [] == [g];
    ArgsAppend(Own([g], f.name), Own(groups, f.name), f.name);
    NotMentioned(f.name);
  }

  lemma NotMentioned(name: string)
    ensures !Mentioned([], name)
  {
  }

  lemma ArgsAppend(a: seq<Group>, b: seq<Group>, name: string)
    ensures Args(a + b) == Args(a) + Args(b)
    ensures b != [] ==> (a + b)[|a + b| - 1] == b[|b| - 1]
    ensures b == [] ==> a + b == a
    ensures a == [] ==> a + b == b
  {
  }

  /** When no group is refused, every flag ends as its own groups say and no other flag matters. */
  lemma {:induction false} FinalValues(flags: seq<Flag>, groups: seq<Group>, k: nat)
    requires Distinct(flags) && k < |flags| && Apply(flags, groups).failure.None?
    ensures |Apply(flags, groups).flags| == |flags|
    ensures Updated(flags[k], Apply(flags, groups).flags[k], groups)
    decreases |groups|
  {
    hide Updated, Store, IndexOf, Distinct;
    if groups == [] {
      UpdatedByNone(flags[k]);
    } else {
      var g := groups[0];
      var j := IndexOf(Names(flags), g.name);
      FirstNamed(flags, g.name);
      var f := Store(flags[j], g.ignore, g.arg).flag;
      StoreKeepsIdentity(flags[j], g.ignore, g.arg);
      NamesUpdate(flags, j, f);
      FinalValues(flags[j := f], groups[1..], k);
      if k == j {
        StoreUpdates(flags[k], g);
      } else {
        DistinctNames(flags, j, k);
        UpdatedOther(flags[k], g);
      }
      UpdatedThen(flags[k], flags[j := f][k], Apply(flags, groups).flags[k], g, groups[1..]);
      assert [g] + groups[1..] == groups;
    }
  }

  lemma DistinctNames(flags: seq<Flag>, j: nat, k: nat)
    requires Distinct(flags) && j < |flags| && k < |flags| && j != k
    ensures flags[j].name != flags[k].name
  {
  }

  lemma UpdatedByNone(f: Flag)
    ensures Updated(f, f, [])
  {
  }

  // ---- Which command lines are accepted ----

  /** A registered name and a value its kind accepts. */
  predicate Acceptable(flags: seq<Flag>, g: Group) {
    var k := IndexOf(Names(flags), g.name);
    k < |flags| && Store(flags[k], g.ignore, g.arg).Kept?
  }

  /** Whether a group is refused depends on the flag's kind alone, not on its value. */
  lemma RefusalByKind(f: Flag, f': Flag, ignore: bool, arg: string)
    requires f.kind == f'.kind
    ensures Store(f, ignore, arg).Kept? <==> Store(f', ignore, arg).Kept?
  {
    hide Read;
  }

  lemma AcceptableKept(flags: seq<Flag>, j: nat, f: Flag, g: Group)
    requires j < |flags| && f.name == flags[j].name && f.kind == flags[j].kind
    ensures Acceptable(flags[j := f], g) <==> Acceptable(flags, g)
  {
    hide IndexOf, Store;
    var k := IndexOf(Names(flags), g.name);
    NamesUpdate(flags, j, f);
    if k < |flags| {
      RefusalByKind(flags[k], flags[j := f][k], g.ignore, g.arg);
    }
  }

  /** The groups go through exactly when each of them is acceptable on its own. */
  lemma {:induction false} AppliedExactly(flags: seq<Flag>, groups: seq<Group>)
    ensures Apply(flags, groups).failure.None? <==> forall g :: g in groups ==> Acceptable(flags, g)
    decreases |groups|
  {
    hide IndexOf, Store;
    if groups != [] {
      var g := groups[0];
      var k := IndexOf(Names(flags), g.name);
      assert g in groups;
      if Acceptable(flags, g) {
        var f := Store(flags[k], g.ignore, g.arg).flag;
        FirstNamed(flags, g.name);
        StoreKeepsIdentity(flags[k], g.ignore, g.arg);
        AppliedExactly(flags[k := f], groups[1..]);
        forall h: Group
          ensures Acceptable(flags[k := f], h) <==> Acceptable(flags, h)
        {
          AcceptableKept(flags, k, f, h);
        }
        assert forall h :: h in groups <==> h == g || h in groups[1..];
      }
    }
  }

  // ---- The answer ----

  /** The answer of a parse: with options and a rest, or help, it is yes at once; only a command line
      consumed to the end is checked for mandatory flags. */
  predicate Succeeds(p: Parsed) {
    match p.outcome
    case Failed(_, _) => false
    case Ended(Stopped(_)) => true
    case Ended(Help(_)) => true
    case Ended(NotAFlag(_, _)) => false
    case Ended(Valueless(_, _)) => false
    case Ended(Exhausted) => forall f :: f in p.flags && f.mandatory ==> f.changed
  }

  lemma {:induction false} ApplyKeepsCount(flags: seq<Flag>, groups: seq<Group>)
    ensures |Apply(flags, groups).flags| == |flags|
    decreases |groups|
  {
    if groups != [] {
      var k := IndexOf(Names(flags), groups[0].name);
      if k < |flags| && Store(flags[k], groups[0].ignore, groups[0].arg).Kept? {
        ApplyKeepsCount(flags[k := Store(flags[k], groups[0].ignore, groups[0].arg).flag], groups[1..]);
      }
    }
  }

  /** Every mandatory flag has been mentioned, by these groups or before. */
  ghost predicate Complete(flags: seq<Flag>, groups: seq<Group>) {
    forall f :: f in flags && f.mandatory ==> f.changed || Mentioned(groups, f.name)
  }

  lemma UpdatedChanged(f: Flag, f': Flag, groups: seq<Group>)
    requires Updated(f, f', groups)
    ensures f'.changed == (f.changed || Mentioned(groups, f.name)) && f'.mandatory == f.mandatory
  {
  }

  /** The check for mandatory flags at the end, in terms of the flags at the start. */
  lemma MandatoryMet(flags: seq<Flag>, groups: seq<Group>)
    requires Distinct(flags) && Apply(flags, groups).failure.None?
    ensures (forall f :: f in Apply(flags, groups).flags && f.mandatory ==> f.changed) <==> Complete(flags, groups)
  {
    hide Apply, Distinct, Mentioned, Updated;
    ApplyKeepsCount(flags, groups);
    var fs := Apply(flags, groups).flags;
    forall k | 0 <= k < |flags|
      ensures fs[k].changed == (flags[k].changed || Mentioned(groups, flags[k].name))
      ensures fs[k].mandatory == flags[k].mandatory
    {
      FinalValues(flags, groups, k);
      UpdatedChanged(flags[k], fs[k], groups);
    }
    assert forall k :: 0 <= k < |flags| ==> flags[k] in flags && fs[k] in fs;
  }

  // ---- The first refusal ----

  lemma {:induction false} ApplyAppend(flags: seq<Flag>, a: seq<Group>, b: seq<Group>)
    requires Apply(flags, a).failure.None?
    ensures Apply(flags, a + b) == Apply(Apply(flags, a).flags, b)
    decreases |a|
  {
    hide IndexOf, Store;
    if a == [] {
      assert a + b == b;
    } else {
      assert (a + b)[0] == a[0] && (a + b)[1..] == a[1..] + b;
      var k := IndexOf(Names(flags), a[0].name);
      ApplyAppend(flags[k := Store(flags[k], a[0].ignore, a[0].arg).flag], a[1..], b);
    }
  }

  lemma {:induction false} ApplyKeepsKinds(flags: seq<Flag>, groups: seq<Group>)
    ensures var fs := Apply(flags, groups).flags;
            && |fs| == |flags|
            && forall k :: 0 <= k < |flags| ==> fs[k].name == flags[k].name && fs[k].kind == flags[k].kind
    decreases |groups|
  {
    hide IndexOf, Store;
    if groups != [] {
      var k := IndexOf(Names(flags), groups[0].name);
      if k < |flags| && Store(flags[k], groups[0].ignore, groups[0].arg).Kept? {
        StoreKeepsIdentity(flags[k], groups[0].ignore, groups[0].arg);
        ApplyKeepsKinds(flags[k := Store(flags[k], groups[0].ignore, groups[0].arg).flag], groups[1..]);
      }
    }
  }

  /** The parse stops at the first group whose value is refused, with the error of that value and the
      name of that flag, and keeps what the groups before it have done. */
  lemma FirstRefusal(flags: seq<Flag>, good: seq<Group>, bad: Group, more: seq<Group>, k: nat)
    requires Distinct(flags) && k < |flags| && bad.name == flags[k].name
    requires forall g :: g in good ==> Acceptable(flags, g)
    requires flags[k].kind != KList && !(flags[k].kind == KBool && bad.ignore) && Read(flags[k].kind, bad.arg).Bad?
    ensures Apply(flags, good + [bad] + more) ==
            Applied(Apply(flags, good).flags, Some((Read(flags[k].kind, bad.arg).error, bad.name)))
  {
    hide IndexOf, Store, Read, Distinct, Acceptable;
    AppliedExactly(flags, good);
    ApplyKeepsKinds(flags, good);
    var fs := Apply(flags, good).flags;
    assert good + [bad] + more == good + ([bad] + more);
    ApplyAppend(flags, good, [bad] + more);
    assert ([bad] + more)[0] == bad;
    assert Names(fs) == Names(flags);
    NameIndex(flags, k);
    StoreExactly(fs[k], bad.ignore, bad.arg);
  }

  lemma NameIndex(flags: seq<Flag>, k: nat)
    requires Distinct(flags) && k < |flags|
    ensures IndexOf(Names(flags), flags[k].name) == k
  {
    hide IndexOf;
    var ns := Names(flags);
    assert forall j :: 0 <= j < k ==> ns[..k][j] == flags[j].name;
    IndexOfUnique(ns, flags[k].name, k);
  }

  /** Help ends the parse with a yes, whatever else follows and whatever is mandatory. */
  lemma HelpSucceeds(flags: seq<Flag>, groups: seq<Group>, token: string, more: seq<string>)
    requires Distinct(flags) && WellFormed(Names(flags), groups) && !Stops(token)
    requires HeaderOf(token).name == "-h" || HeaderOf(token).name == "-help"
    requires forall g :: g in groups ==> Acceptable(flags, g)
    ensures var p := Parse(flags, Render(groups) + ([token] + more));
            Succeeds(p) && p.outcome == Ended(Help([token] + more)) && p.flags == Apply(flags, groups).flags
  {
    hide HeaderOf, Stops, Parse, Apply, Split, Distinct, WellFormed, Acceptable, Render;
    ParseIsFold(flags, Render(groups) + ([token] + more));
    EndingExactly(Names(flags), groups, token, more);
    AppliedExactly(flags, groups);
  }

  // ---- The arguments afterwards ----

  /** The tokens of a group as the parser leaves them: a joined value is cut off. */
  function CutTokens(g: Group): seq<string> {
    if g.joined then [Prefix(g)] else [Prefix(g), g.arg]
  }

  function CutRender(groups: seq<Group>): seq<string> {
    if groups == [] then [] else CutTokens(groups[0]) + CutRender(groups[1..])
  }

  lemma CutFirst(g: Group)
    requires '=' !in g.name
    ensures CutToken(GroupTokens(g)[0]) == Prefix(g)
  {
    var t, n := GroupTokens(g)[0], |Prefix(g)|;
    assert '=' !in Prefix(g);
    assert t[..n] == Prefix(g);
    IndexOfUnique(t, '=', n);
  }

  lemma GroupHead(g: Group, rest: seq<string>)
    ensures var tokens := GroupTokens(g) + rest;
            && tokens != [] && tokens[0] == GroupTokens(g)[0]
            && (g.joined ==> tokens[1..] == rest)
            && (!g.joined ==> tokens[1..] != [] && tokens[1..][0] == g.arg && tokens[1..][1..] == rest)
    ensures var cut := [Prefix(g)] + (GroupTokens(g) + rest)[1..];
            cut[..|cut| - |rest|] == CutTokens(g)
  {
    hide Prefix;
  }

  /** One group taken off the front. */
  lemma GroupParsed(flags: seq<Flag>, g: Group, rest: seq<string>)
    requires Distinct(flags) && g.name in Names(flags) && Legible(g)
    ensures var k := IndexOf(Names(flags), g.name);
            && k < |flags|
            && var s := Store(flags[k], g.ignore, g.arg);
               s.Kept? ==>
                 Parse(flags, GroupTokens(g) + rest).argv == CutTokens(g) + Parse(flags[k := s.flag], rest).argv
  {
    hide HeaderOf, Stops, Helps, Dispatch, Store, CutToken, IndexOf, Distinct, GroupTokens, Parse, Prefix, CutTokens;
    var tokens, k := GroupTokens(g) + rest, IndexOf(Names(flags), g.name);
    FirstNamed(flags, g.name);
    LegibleExactly(g);
    GroupHead(g, rest);
    DispatchDistinct(flags, HeaderOf(tokens[0]), tokens[1..]);
    if Store(flags[k], g.ignore, g.arg).Kept? {
      ParsePasses(flags, tokens);
      assert '=' !in g.name && !Helps(g.name) by { LegibleNames(g); }
      CutFirst(g);
    }
  }

  lemma LegibleNames(g: Group)
    requires Legible(g)
    ensures '=' !in g.name && !Helps(g.name)
  {
  }

  /** An accepted command line keeps its tokens, except that each joined value has been cut off. */
  lemma {:induction false} ArgumentsCut(flags: seq<Flag>, groups: seq<Group>, rest: seq<string>)
    requires Distinct(flags) && WellFormed(Names(flags), groups) && Terminal(rest)
    requires Apply(flags, groups).failure.None?
    ensures Parse(flags, Render(groups) + rest).argv == CutRender(groups) + rest
    decreases |groups|
  {
    hide Store, IndexOf, Distinct, Legible, GroupTokens, CutTokens, Parse;
    if groups == [] {
      assert [] + rest == rest;
      ParseOfRest(flags, rest);
    } else {
      var g, gs := groups[0], groups[1..];
      var k := IndexOf(Names(flags), g.name);
      assert g in groups;
      FirstNamed(flags, g.name);
      GroupParsed(flags, g, Render(gs) + rest);
      var f := Store(flags[k], g.ignore, g.arg).flag;
      StoreKeepsIdentity(flags[k], g.ignore, g.arg);
      NamesUpdate(flags, k, f);
      ArgumentsCut(flags[k := f], gs, rest);
      assert GroupTokens(g) + Render(gs) + rest == GroupTokens(g) + (Render(gs) + rest);
      assert CutTokens(g) + CutRender(gs) + rest == CutTokens(g) + (CutRender(gs) + rest);
    }
  }

  lemma ParseOfRest(flags: seq<Flag>, rest: seq<string>)
    requires Terminal(rest)
    ensures Parse(flags, rest).argv == rest
  {
  }

  // ---- Ignored groups ----

  function Unignored(groups: seq<Group>): seq<Group> {
    if groups == [] then []
    else if groups[0].ignore then Unignored(groups[1..])
    else [groups[0]] + Unignored(groups[1..])
  }

  lemma {:induction false} OwnUnignored(groups: seq<Group>, name: string)
    ensures Own(Unignored(groups), name) == Own(groups, name)
    ensures forall g :: g in Unignored(groups) ==> g in groups
  {
    if groups != [] {
      OwnUnignored(groups[1..], name);
      if !groups[0].ignore {
        OwnCons(groups[0], Unignored(groups[1..]), name);
        OwnCons(groups[0], groups[1..], name);
        assert [groups[0]] + groups[1..] == groups;
      }
    }
  }

  ghost predicate SameValues(a: seq<Flag>, b: seq<Flag>) {
    |a| == |b| && forall k :: 0 <= k < |a| ==> a[k].val == b[k].val
  }

  lemma SameUpdate(f: Flag, a: Flag, b: Flag, groups: seq<Group>, groups': seq<Group>)
    requires Updated(f, a, groups) && Updated(f, b, groups')
    requires Own(groups, f.name) == Own(groups', f.name)
    ensures a.val == b.val
  {
    hide Read, Own, Mentioned;
  }

  lemma DeleteIgnored(flags: seq<Flag>, groups: seq<Group>)
    requires Distinct(flags) && Apply(flags, groups).failure.None?
    ensures var a, b := Apply(flags, groups), Apply(flags, Unignored(groups));
            b.failure.None? && SameValues(a.flags, b.flags)
  {
    hide Acceptable, Updated, Apply;
    OwnUnignored(groups, "");
    AppliedExactly(flags, groups);
    AppliedExactly(flags, Unignored(groups));
    ApplyKeepsCount(flags, groups);
    ApplyKeepsCount(flags, Unignored(groups));
    var a, b := Apply(flags, groups).flags, Apply(flags, Unignored(groups)).flags;
    forall k | 0 <= k < |flags|
      ensures a[k].val == b[k].val
    {
      FinalValues(flags, groups, k);
      FinalValues(flags, Unignored(groups), k);
      OwnUnignored(groups, flags[k].name);
      SameUpdate(flags[k], a[k], b[k], groups, Unignored(groups));
    }
  }

  /** A rest that option parsing leaves alone. */
  predicate Terminal(rest: seq<string>) {
    rest == [] || Stops(rest[0])
  }

  /** Parsing rendered groups. */
  lemma ParseRendered(flags: seq<Flag>, groups: seq<Group>, rest: seq<string>)
    requires Distinct(flags) && WellFormed(Names(flags), groups) && Terminal(rest)
    ensures var p, a := Parse(flags, Render(groups) + rest), Apply(flags, groups);
            && p.flags == a.flags
            && (a.failure.None? ==> p.outcome == Ended(if rest == [] then Exhausted else Stopped(rest)))
            && (a.failure.Some? ==> p.outcome.Failed?)
  {
    hide Parse, Split, Apply, Render, Distinct, WellFormed;
    ParseIsFold(flags, Render(groups) + rest);
    SplitUnique(Names(flags), groups, rest);
  }

  /** Deleting the ignored groups from an accepted command line changes no value and not the rest. */
  lemma IgnoredGroupsChangeNothing(flags: seq<Flag>, groups: seq<Group>, rest: seq<string>)
    requires Distinct(flags) && WellFormed(Names(flags), groups) && Terminal(rest)
    requires Parse(flags, Render(groups) + rest).outcome.Ended?
    ensures var p, q := Parse(flags, Render(groups) + rest), Parse(flags, Render(Unignored(groups)) + rest);
            p.outcome == q.outcome && SameValues(p.flags, q.flags)
  {
    hide Parse, Apply, Distinct, Render, Legible;
    ParseRendered(flags, groups, rest);
    OwnUnignored(groups, "");
    ParseRendered(flags, Unignored(groups), rest);
    DeleteIgnored(flags, groups);
  }

  lemma AnswerRendered(flags: seq<Flag>, groups: seq<Group>, rest: seq<string>)
    requires Distinct(flags) && WellFormed(Names(flags), groups) && Terminal(rest)
    ensures Succeeds(Parse(flags, Render(groups) + rest)) <==>
            Apply(flags, groups).failure.None? && (rest == [] ==> Complete(flags, groups))
  {
    hide Parse, Apply, Distinct, Render, WellFormed, Complete;
    ParseRendered(flags, groups, rest);
    if Apply(flags, groups).failure.None? {
      MandatoryMet(flags, groups);
    }
  }

  /** The answer can change with it: it stays exactly when there is a rest, when it was no already, or
      when every mandatory flag is mentioned by a group that is not ignored or was before. */
  lemma IgnoredGroupsAnswer(flags: seq<Flag>, groups: seq<Group>, rest: seq<string>)
    requires Distinct(flags) && WellFormed(Names(flags), groups) && Terminal(rest)
    requires Parse(flags, Render(groups) + rest).outcome.Ended?
    ensures var p, q := Parse(flags, Render(groups) + rest), Parse(flags, Render(Unignored(groups)) + rest);
            Succeeds(p) == Succeeds(q) <==> rest != [] || !Succeeds(p) || Complete(flags, Unignored(groups))
  {
    hide Parse, Apply, Distinct, Render, Legible, Succeeds;
    ParseRendered(flags, groups, rest);
    OwnUnignored(groups, "");
    DeleteIgnored(flags, groups);
    AnswerRendered(flags, groups, rest);
    AnswerRendered(flags, Unignored(groups), rest);
    assert Complete(flags, Unignored(groups)) ==> Complete(flags, groups);
  }

  // ---- Two styles ----

  /** The same groups, whatever their style. */
  predicate SameButStyle(a: seq<Group>, b: seq<Group>) {
    |a| == |b| && forall i :: 0 <= i < |a| ==> a[i].(joined := true) == b[i].(joined := true)
  }

  lemma {:induction false} StyleIrrelevant(flags: seq<Flag>, a: seq<Group>, b: seq<Group>)
    requires SameButStyle(a, b)
    ensures Apply(flags, a) == Apply(flags, b)
    decreases |a|
  {
    if a != [] {
      hide Store, IndexOf;
      assert a[0].(joined := true) == b[0].(joined := true);
      var k := IndexOf(Names(flags), a[0].name);
      if k < |flags| && Store(flags[k], a[0].ignore, a[0].arg).Kept? {
        StyleIrrelevant(flags[k := Store(flags[k], a[0].ignore, a[0].arg).flag], a[1..], b[1..]);
      }
    }
  }

  // ---- Rendering an assignment and parsing it ----

  /** The values a flag of a kind can be given on the command line. */
  predicate Fits(kind: Kind, v: Value) {
    match kind
    case KBool => v.BoolValue?
    case KInt => v.NumValue? && INT_MIN <= v.n <= INT_MAX
    case KStr => v.StrValue? && v.s.Some?
    case KList => v.ListValue?
    case _ => v.NumValue? && 0 <= v.n <= UintMax(kind)
  }

  function Show(v: Value): string {
    match v
    case BoolValue(b) => ShowBool(b)
    case NumValue(n) => DecInt(n)
    case StrValue(Some(s)) => s
    case _ => ""
  }

  lemma ReadsUint(max: nat, n: nat)
    requires n <= max < TWO_64
    ensures ReadUint(DecInt(n), max) == Good(NumValue(n))
  {
    hide Strtoul, DecInt;
    StrtoulOfDecInt(n);
    WrapSize(n);
  }

  lemma ReadsInt(n: int)
    requires INT_MIN <= n <= INT_MAX
    ensures ReadInt(DecInt(n)) == Good(NumValue(n))
  {
    hide Strtol, DecInt;
    StrtolOfDecInt(n);
  }

  lemma ReadsSize(n: nat)
    requires n < TWO_64
    ensures ReadSize(DecInt(n)) == Good(NumValue(n))
  {
    hide Strtoul, DecInt, ReadSize;
    StrtoulOfDecInt(n);
    WrapSize(n);
    PowZero();
    UnsignedExactly(DecInt(n), n);
    assert DenotesSize(DecInt(n), n, 1);
    SizeAcceptedExactly(DecInt(n), n);
  }

  /** What is shown is read back. */
  lemma ShownIsRead(kind: Kind, v: Value)
    requires Fits(kind, v) && kind != KList
    ensures Read(kind, Show(v)) == Good(v)
  {
    hide DecInt, ReadUint, ReadInt, ReadSize;
    match kind
    case KBool => BoolIsRead(v.b);
    case KInt => ReadsInt(v.n);
    case KSize => ReadsSize(v.n);
    case KStr =>
    case KList =>
    case _ => ReadsUint(UintMax(kind), v.n);
  }

  /** The groups that give a flag a value: one per list item, one for anything else. */
  function GroupsFor(f: Flag, v: Value): seq<Group> {
    if f.kind == KList then ItemGroups(f.name, Items(v)) else [Group(f.name, false, Show(v), true)]
  }

  function ItemGroups(name: string, items: seq<string>): (gs: seq<Group>)
    ensures |gs| == |items|
  {
    seq(|items|, i requires 0 <= i < |items| => Group(name, false, items[i], true))
  }

  /** The groups that give the flags from index `k` on their values. */
  function Assignment(flags: seq<Flag>, values: seq<Value>, k: nat): seq<Group>
    requires |values| == |flags| && k <= |flags|
    decreases |flags| - k
  {
    if k == |flags| then [] else GroupsFor(flags[k], values[k]) + Assignment(flags, values, k + 1)
  }

  lemma {:induction false} OwnAppend(a: seq<Group>, b: seq<Group>, name: string)
    ensures Own(a + b, name) == Own(a, name) + Own(b, name)
  {
    if a == [] {
      assert a + b == b;
      assert [] + Own(b, name) == Own(b, name);
    } else {
      assert (a + b)[1..] == a[1..] + b;
      OwnAppend(a[1..], b, name);
    }
  }

  /** Groups that all name one flag. */
  lemma {:induction false} OwnAll(a: seq<Group>, name: string)
    requires forall g :: g in a ==> !g.ignore
    ensures (forall g :: g in a ==> g.name == name) ==> Own(a, name) == a
    ensures (forall g :: g in a ==> g.name != name) ==> Own(a, name) == []
  {
    if a != [] {
      OwnAll(a[1..], name);
      assert a[0] in a;
      assert a == [a[0]] + a[1..];
    }
  }

  lemma GroupsForNamed(f: Flag, v: Value)
    ensures forall g :: g in GroupsFor(f, v) ==> g.name == f.name && !g.ignore
  {
  }

  /** In an assignment each flag owns exactly its own groups. */
  lemma {:induction false} OwnAssignment(flags: seq<Flag>, values: seq<Value>, k: nat, j: nat)
    requires |values| == |flags| && k <= |flags| && j < |flags| && Distinct(flags)
    ensures Own(Assignment(flags, values, k), flags[j].name) == if j < k then [] else GroupsFor(flags[j], values[j])
    decreases |flags| - k
  {
    hide GroupsFor, Distinct, Own;
    var name := flags[j].name;
    if k < |flags| {
      var head, tail := GroupsFor(flags[k], values[k]), Assignment(flags, values, k + 1);
      OwnAssignment(flags, values, k + 1, j);
      OwnAppend(head, tail, name);
      GroupsForNamed(flags[k], values[k]);
      OwnAll(head, name);
      if j != k {
        DistinctNames(flags, j, k);
      }
      assert head + [] == head && [] + Own(tail, name) == Own(tail, name);
    } else {
      OwnNothing(name);
    }
  }

  /** Every value has a kind it fits, and no list holds anything yet. */
  predicate Assignable(flags: seq<Flag>, values: seq<Value>) {
    && |values| == |flags|
    && forall k :: 0 <= k < |flags| ==>
         Fits(flags[k].kind, values[k]) && (flags[k].kind == KList ==> flags[k].val == ListValue([]))
  }

  lemma GroupsForAcceptable(flags: seq<Flag>, values: seq<Value>, k: nat)
    requires Distinct(flags) && Assignable(flags, values) && k < |flags|
    ensures forall g :: g in GroupsFor(flags[k], values[k]) ==> Acceptable(flags, g)
  {
    hide Show, Read, IndexOf, Distinct;
    var f := flags[k];
    forall g | g in GroupsFor(f, values[k])
      ensures Acceptable(flags, g)
    {
      GroupsForNamed(f, values[k]);
      var j := IndexOf(Names(flags), g.name);
      assert Names(flags)[k] == g.name;
      FirstNamed(flags, g.name);
      if j != k {
        DistinctNames(flags, j, k);
        assert false;
      }
      if f.kind != KList {
        ShownIsRead(f.kind, values[k]);
      }
    }
  }

  lemma SameArgs(a: seq<Group>, b: seq<Group>)
    requires SameButStyle(a, b)
    ensures Args(a) == Args(b)
  {
    forall i | 0 <= i < |a|
      ensures a[i].arg == b[i].arg
    {
      assert a[i].(joined := true) == b[i].(joined := true);
    }
  }

  lemma OwnGives(f: Flag, f': Flag, v: Value, groups: seq<Group>)
    requires Updated(f, f', groups) && SameButStyle(Own(groups, f.name), GroupsFor(f, v)) && Fits(f.kind, v)
    requires f.kind == KList ==> f.val == ListValue([])
    ensures f'.val == v
  {
    hide Own, Read, Show, Mentioned;
    var own := Own(groups, f.name);
    SameArgs(own, GroupsFor(f, v));
    if f.kind == KList {
      assert Args(GroupsFor(f, v)) == v.items;
      assert [] + v.items == v.items;
    } else {
      assert Args(own)[0] == Args(GroupsFor(f, v))[0];
      ShownIsRead(f.kind, v);
    }
  }

  /** The groups give each flag its value, whatever the order of flags and the style, and whatever
      ignored groups stand between them. */
  ghost predicate Assigns(flags: seq<Flag>, values: seq<Value>, groups: seq<Group>)
    requires |values| == |flags|
  {
    && (forall k :: 0 <= k < |flags| ==> SameButStyle(Own(groups, flags[k].name), GroupsFor(flags[k], values[k])))
    && (forall g :: g in groups && g.ignore ==> Acceptable(flags, g))
  }

  lemma {:induction false} OwnHolds(groups: seq<Group>, g: Group)
    requires g in groups && !g.ignore
    ensures g in Own(groups, g.name)
  {
    if g in groups[1..] {
      OwnHolds(groups[1..], g);
    } else {
      assert groups == [groups[0]] + groups[1..];
    }
  }

  lemma AcceptableStyle(flags: seq<Flag>, g: Group, h: Group)
    requires g.(joined := true) == h.(joined := true)
    ensures Acceptable(flags, g) <==> Acceptable(flags, h)
  {
    hide Store, IndexOf;
  }

  lemma AssignsAcceptable(flags: seq<Flag>, values: seq<Value>, groups: seq<Group>)
    requires Distinct(flags) && Assignable(flags, values) && Assigns(flags, values, groups)
    requires WellFormed(Names(flags), groups)
    ensures forall g :: g in groups ==> Acceptable(flags, g)
  {
    hide Distinct, Acceptable, Own, GroupsFor, Legible, Assignable;
    forall g | g in groups && !g.ignore
      ensures Acceptable(flags, g)
    {
      var k :| 0 <= k < |flags| && Names(flags)[k] == g.name;
      OwnHolds(groups, g);
      AssignableCount(flags, values);
      var own, gs := Own(groups, g.name), GroupsFor(flags[k], values[k]);
      var i :| 0 <= i < |own| && own[i] == g;
      assert gs[i] in gs;
      GroupsForAcceptable(flags, values, k);
      AcceptableStyle(flags, g, gs[i]);
    }
  }

  lemma AssignableCount(flags: seq<Flag>, values: seq<Value>)
    requires Assignable(flags, values)
    ensures |values| == |flags|
  {
  }

  /** Groups that give each flag its value, rendered and parsed, give the values back, whatever follows
      them. */
  lemma AssignmentIsParsed(flags: seq<Flag>, values: seq<Value>, groups: seq<Group>, rest: seq<string>)
    requires Distinct(flags) && Assignable(flags, values) && Assigns(flags, values, groups)
    requires WellFormed(Names(flags), groups) && Terminal(rest)
    ensures var p := Parse(flags, Render(groups) + rest);
            && p.outcome == Ended(if rest == [] then Exhausted else Stopped(rest))
            && |p.flags| == |flags|
            && forall k :: 0 <= k < |flags| ==> p.flags[k].val == values[k]
  {
    hide Parse, Apply, Distinct, Render, WellFormed, Acceptable, Terminal, Updated, GroupsFor, Own, SameButStyle, Fits;
    ParseRendered(flags, groups, rest);
    AssignsAcceptable(flags, values, groups);
    AppliedExactly(flags, groups);
    ApplyKeepsCount(flags, groups);
    var fs := Apply(flags, groups).flags;
    forall k | 0 <= k < |flags|
      ensures fs[k].val == values[k]
    {
      FinalValues(flags, groups, k);
      OwnGives(flags[k], fs[k], values[k], groups);
    }
  }

  lemma {:induction false} OwnStyle(a: seq<Group>, b: seq<Group>, name: string)
    requires SameButStyle(a, b)
    ensures SameButStyle(Own(a, name), Own(b, name))
    decreases |a|
  {
    if a != [] {
      assert a[0].(joined := true) == b[0].(joined := true);
      OwnStyle(a[1..], b[1..], name);
    }
  }

  /** In particular any assignment of values, flag by flag, in any mixture of the two styles. */
  lemma RenderedAssignmentIsParsed(flags: seq<Flag>, values: seq<Value>, groups: seq<Group>, rest: seq<string>)
    requires Distinct(flags) && Assignable(flags, values) && Terminal(rest)
    requires SameButStyle(groups, Assignment(flags, values, 0)) && WellFormed(Names(flags), groups)
    ensures var p := Parse(flags, Render(groups) + rest);
            && p.outcome == Ended(if rest == [] then Exhausted else Stopped(rest))
            && |p.flags| == |flags|
            && forall k :: 0 <= k < |flags| ==> p.flags[k].val == values[k]
  {
    hide Parse, Distinct, Render, WellFormed, Acceptable, Terminal, Assignment, GroupsFor, Own, Fits;
    var canonical := Assignment(flags, values, 0);
    AssignmentPlain(flags, values, 0);
    forall k | 0 <= k < |flags|
      ensures SameButStyle(Own(groups, flags[k].name), GroupsFor(flags[k], values[k]))
    {
      OwnAssignment(flags, values, 0, k);
      OwnStyle(groups, canonical, flags[k].name);
    }
    forall g | g in groups
      ensures !g.ignore
    {
      var i :| 0 <= i < |groups| && groups[i] == g;
      assert groups[i].(joined := true) == canonical[i].(joined := true) && canonical[i] in canonical;
    }
    AssignmentIsParsed(flags, values, groups, rest);
  }

  lemma {:induction false} AssignmentPlain(flags: seq<Flag>, values: seq<Value>, k: nat)
    requires |values| == |flags| && k <= |flags|
    ensures forall g :: g in Assignment(flags, values, k) ==> !g.ignore
    decreases |flags| - k
  {
    hide GroupsFor;
    if k < |flags| {
      AssignmentPlain(flags, values, k + 1);
      GroupsForNamed(flags[k], values[k]);
    }
  }

  // ---- Success ----

  /** A command line of legible, accepted groups and a rest that is empty or starts with a stop token,
      where, when nothing is left over, every mandatory flag has been mentioned, by this command line (an
      ignored group will do) or by an earlier one. */
  ghost predicate GoodLine(flags: seq<Flag>, tokens: seq<string>, groups: seq<Group>, rest: seq<string>) {
    && tokens == Render(groups) + rest
    && WellFormed(Names(flags), groups)
    && (forall g :: g in groups ==> Acceptable(flags, g))
    && Terminal(rest)
    && (rest == [] ==> Complete(flags, groups))
  }

  predicate GivesHelp(p: Parsed) {
    p.outcome.Ended? && p.outcome.ending.Help?
  }

  /** Success without help: the groups and the rest that were found make a good line. */
  lemma SuccessMeans(flags: seq<Flag>, tokens: seq<string>)
    requires Distinct(flags) && Succeeds(Parse(flags, tokens)) && !GivesHelp(Parse(flags, tokens))
    ensures GoodLine(flags, tokens, Split(Names(flags), tokens).groups, Remaining(Parse(flags, tokens).outcome.ending))
  {
    hide Parse, Apply, Distinct, Render, WellFormed, Acceptable, HeaderOf, Complete, Split;
    var parts := Split(Names(flags), tokens);
    ParseIsFold(flags, tokens);
    SplitSound(Names(flags), tokens);
    AppliedExactly(flags, parts.groups);
    EndingTerminal(Names(flags), tokens);
    MandatoryMet(flags, parts.groups);
  }

  /** A parse succeeds without help exactly on the good lines. */
  lemma SuccessExactly(flags: seq<Flag>, tokens: seq<string>)
    requires Distinct(flags)
    ensures Succeeds(Parse(flags, tokens)) && !GivesHelp(Parse(flags, tokens)) <==>
            exists groups: seq<Group>, rest: seq<string> :: GoodLine(flags, tokens, groups, rest)
  {
    hide Parse, Apply, Distinct, Render, WellFormed, Acceptable, Complete, Succeeds, GoodLine;
    if Succeeds(Parse(flags, tokens)) && !GivesHelp(Parse(flags, tokens)) {
      SuccessMeans(flags, tokens);
    }
    if groups: seq<Group>, rest: seq<string> :| GoodLine(flags, tokens, groups, rest) {
      GoodLineSucceeds(flags, tokens, groups, rest);
    }
  }

  lemma GoodLineSucceeds(flags: seq<Flag>, tokens: seq<string>, groups: seq<Group>, rest: seq<string>)
    requires Distinct(flags) && GoodLine(flags, tokens, groups, rest)
    ensures Succeeds(Parse(flags, tokens)) && !GivesHelp(Parse(flags, tokens))
  {
    hide Parse, Apply, Distinct, Render, WellFormed, Acceptable, Complete, Succeeds;
    AppliedExactly(flags, groups);
    ParseRendered(flags, groups, rest);
    AnswerRendered(flags, groups, rest);
  }

  lemma {:induction false} EndingTerminal(names: seq<string>, tokens: seq<string>)
    ensures var e := Split(names, tokens).ending;
            (e.Exhausted? || e.Stopped? ==> Terminal(Remaining(e))) && (e.Stopped? ==> e.rest != [])
    decreases |tokens|
  {
    hide HeaderOf, Helps, Stops;
    if tokens != [] && !Stops(tokens[0]) {
      EndingTerminal(names, tokens[1..]);
      if |tokens| > 1 {
        EndingTerminal(names, tokens[2..]);
      }
    }
  }
}
