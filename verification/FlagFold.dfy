/** The parse of a command line, as the loop performs it and as a fold over option groups. */
module FlagFold {
  import opened Seqs
  import opened FlagValues
  import opened FlagGroups

  // ---- The loop ----

  /** Where parsing ends: after the groups, or at a group whose value is refused. */
  datatype Outcome = Ended(ending: Ending) | Failed(error: Error, name: string)

  /** The flags, the outcome, and the tokens as the parser leaves them. */
  datatype Parsed = Parsed(flags: seq<Flag>, outcome: Outcome, argv: seq<string>)

  datatype Dispatched =
    | Through(flags: seq<Flag>, rest: seq<string>, found: bool)
    | NoArg(flags: seq<Flag>)
    | Rejected(flags: seq<Flag>, error: Error)

  /** The search for the named flag from index `i` on. It does not stop at a match, so that flags
      sharing a name would each take an argument of their own. */
  function Dispatch(flags: seq<Flag>, i: nat, h: Header, rest: seq<string>, found: bool): (d: Dispatched)
    requires i <= |flags|
    ensures |d.flags| == |flags|
    ensures d.Through? ==> |d.rest| <= |rest| && d.rest == rest[|rest| - |d.rest|..]
    decreases |flags| - i
  {
    hide Store;
    if i == |flags| then Through(flags, rest, found)
    else if flags[i].name != h.name then Dispatch(flags, i + 1, h, rest, found)
    else if h.value.None? && rest == [] then NoArg(flags)
    else
      var arg := if h.value.Some? then h.value.value else rest[0];
      var rest' := if h.value.Some? then rest else rest[1..];
      var s := Store(flags[i], h.ignore, arg);
      if s.Refused? then Rejected(flags, s.error)
      else Dispatch(flags[i := s.flag], i + 1, h, rest', true)
  }

  /** One turn of the search. */
  lemma DispatchTurn(flags: seq<Flag>, i: nat, h: Header, rest: seq<string>, found: bool)
    requires i < |flags|
    ensures var d := Dispatch(flags, i, h, rest, found);
            if flags[i].name != h.name then d == Dispatch(flags, i + 1, h, rest, found)
            else if h.value.None? && rest == [] then d == NoArg(flags)
            else
              var s := Store(flags[i], h.ignore, if h.value.Some? then h.value.value else rest[0]);
              var rest' := if h.value.Some? then rest else rest[1..];
              d == if s.Refused? then Rejected(flags, s.error)
                   else Dispatch(flags[i := s.flag], i + 1, h, rest', true)
  {
    hide Store;
  }

  lemma DispatchOver(flags: seq<Flag>, h: Header, rest: seq<string>, found: bool)
    ensures Dispatch(flags, |flags|, h, rest, found) == Through(flags, rest, found)
  {
  }

  /** An option token after its value has been cut off in place. */
  function CutToken(token: string): string {
    token[..IndexOf(token, '=')]
  }

  function Parse(flags: seq<Flag>, tokens: seq<string>): (p: Parsed)
    ensures |p.argv| == |tokens|
    decreases |tokens|
  {
    if tokens == [] then Parsed(flags, Ended(Exhausted), [])
    else if Stops(tokens[0]) then Parsed(flags, Ended(Stopped(tokens)), tokens)
    else
      var h, rest := HeaderOf(tokens[0]), tokens[1..];
      var cut := [CutToken(tokens[0])] + rest;
      if Helps(h.name) then Parsed(flags, Ended(Help(tokens)), cut)
      else
        match Dispatch(flags, 0, h, rest, false)
        case NoArg(fs) => Parsed(fs, Ended(Valueless(h.name, tokens)), cut)
        case Rejected(fs, e) => Parsed(fs, Failed(e, h.name), cut)
        case Through(fs, rest', found) =>
          if !found then Parsed(fs, Ended(NotAFlag(h.name, tokens)), cut)
          else
            var p := Parse(fs, rest');
            p.(argv := cut[..|tokens| - |rest'|] + p.argv)
  }

  /** An option that lets the parse go on. */
  lemma ParsePasses(flags: seq<Flag>, tokens: seq<string>)
    requires tokens != [] && !Stops(tokens[0]) && !Helps(HeaderOf(tokens[0]).name)
    requires var d := Dispatch(flags, 0, HeaderOf(tokens[0]), tokens[1..], false); d.Through? && d.found
    ensures var d := Dispatch(flags, 0, HeaderOf(tokens[0]), tokens[1..], false);
            var p, q := Parse(flags, tokens), Parse(d.flags, d.rest);
            && p.flags == q.flags && p.outcome == q.outcome
            && p.argv == ([CutToken(tokens[0])] + tokens[1..])[..|tokens| - |d.rest|] + q.argv
  {
    hide Dispatch, HeaderOf, Stops, Helps, CutToken;
  }

  // ---- The fold ----

  ghost predicate Distinct(flags: seq<Flag>) {
    forall i, j :: 0 <= i < j < |flags| ==> flags[i].name != flags[j].name
  }

  function Names(flags: seq<Flag>): (ns: seq<string>)
    ensures |ns| == |flags| && forall i :: 0 <= i < |flags| ==> ns[i] == flags[i].name
  {
    seq(|flags|, i requires 0 <= i < |flags| => flags[i].name)
  }

  datatype Applied = Applied(flags: seq<Flag>, failure: Option<(Error, string)>)

  /** The groups applied to their flags one after the other, up to the first refusal. */
  function Apply(flags: seq<Flag>, groups: seq<Group>): Applied
    decreases |groups|
  {
    if groups == [] then Applied(flags, None)
    else
      var g, k := groups[0], IndexOf(Names(flags), groups[0].name);
      if k == |flags| then Applied(flags, Some((UnknownFlag, g.name)))
      else
        match Store(flags[k], g.ignore, g.arg)
        case Refused(e) => Applied(flags, Some((e, g.name)))
        case Kept(f) => Apply(flags[k := f], groups[1..])
  }

  function Fold(flags: seq<Flag>, parts: Parts): (seq<Flag>, Outcome) {
    var a := Apply(flags, parts.groups);
    match a.failure
    case None => (a.flags, Ended(parts.ending))
    case Some(f) => (a.flags, Failed(f.0, f.1))
  }

  lemma StoreKeepsIdentity(f: Flag, ignore: bool, arg: string)
    ensures var s := Store(f, ignore, arg);
            s.Kept? ==>
              && s.flag.name == f.name && s.flag.kind == f.kind && s.flag.def == f.def
              && s.flag.mandatory == f.mandatory && s.flag.changed
              && (ignore ==> s.flag.val == f.val)
  {
    hide Read;
  }

  lemma {:induction false} DispatchPast(flags: seq<Flag>, i: nat, h: Header, rest: seq<string>, found: bool)
    requires i <= |flags| && forall j :: i <= j < |flags| ==> flags[j].name != h.name
    ensures Dispatch(flags, i, h, rest, found) == Through(flags, rest, found)
    decreases |flags| - i
  {
    hide Store;
    if i < |flags| {
      DispatchPast(flags, i + 1, h, rest, found);
    }
  }

  lemma {:induction false} DispatchTo(flags: seq<Flag>, i: nat, k: nat, h: Header, rest: seq<string>, found: bool)
    requires i <= k <= |flags| && forall j :: i <= j < k ==> flags[j].name != h.name
    ensures Dispatch(flags, i, h, rest, found) == Dispatch(flags, k, h, rest, found)
    decreases k - i
  {
    hide Store;
    if i < k {
      DispatchTo(flags, i + 1, k, h, rest, found);
    }
  }

  /** The flags with a joined value stored in each of the name, from index `i` on. */
  function AllStored(flags: seq<Flag>, i: nat, h: Header): (r: seq<Flag>)
    requires h.value.Some?
    ensures |r| == |flags|
  {
    seq(|flags|, j requires 0 <= j < |flags| =>
      var s := Store(flags[j], h.ignore, h.value.value);
      if i <= j && flags[j].name == h.name && s.Kept? then s.flag else flags[j])
  }

  lemma AllStoredNext(flags: seq<Flag>, i: nat, h: Header)
    requires i < |flags| && h.value.Some?
    ensures var s := Store(flags[i], h.ignore, h.value.value);
            if flags[i].name == h.name && s.Kept? then AllStored(flags, i, h) == AllStored(flags[i := s.flag], i + 1, h)
            else AllStored(flags, i, h) == AllStored(flags, i + 1, h)
  {
    hide Store;
  }

  lemma AllStoredOver(flags: seq<Flag>, h: Header)
    requires h.value.Some?
    ensures AllStored(flags, |flags|, h) == flags
  {
    hide Store;
  }

  /** A joined value goes to every flag of the name, however many there are. */
  lemma {:induction false} DispatchAll(flags: seq<Flag>, i: nat, h: Header, rest: seq<string>, found: bool)
    requires i <= |flags| && h.value.Some?
    requires forall j :: i <= j < |flags| && flags[j].name == h.name ==> Store(flags[j], h.ignore, h.value.value).Kept?
    ensures Dispatch(flags, i, h, rest, found) ==
            Through(AllStored(flags, i, h), rest, found || exists j :: i <= j < |flags| && flags[j].name == h.name)
    decreases |flags| - i
  {
    hide Store, AllStored, Dispatch;
    if i == |flags| {
      AllStoredOver(flags, h);
      DispatchOver(flags, h, rest, found);
    } else {
      DispatchTurn(flags, i, h, rest, found);
      AllStoredNext(flags, i, h);
      if flags[i].name == h.name {
        DispatchAll(flags[i := Store(flags[i], h.ignore, h.value.value).flag], i + 1, h, rest, true);
      } else {
        DispatchAll(flags, i + 1, h, rest, found);
        assert forall j :: i <= j && j < |flags| && flags[j].name == h.name ==> i + 1 <= j;
      }
    }
  }

  lemma DispatchLast(f: Flag, g: Flag, h: Header, rest: seq<string>)
    requires g.name == h.name && h.value.None?
    ensures rest == [] ==> Dispatch([f, g], 1, h, rest, true) == NoArg([f, g])
    ensures rest != [] && Store(g, h.ignore, rest[0]).Kept? ==>
              Dispatch([f, g], 1, h, rest, true) == Through([f, Store(g, h.ignore, rest[0]).flag], rest[1..], true)
  {
    hide Store, Dispatch;
    DispatchTurn([f, g], 1, h, rest, true);
    if rest != [] && Store(g, h.ignore, rest[0]).Kept? {
      var g' := Store(g, h.ignore, rest[0]).flag;
      assert [f, g][1 := g'] == [f, g'];
      DispatchOver([f, g'], h, rest[1..], true);
    }
  }

  /** Without a joined value two flags of one name take an argument each, in order. */
  lemma DispatchTwo(f: Flag, g: Flag, h: Header, rest: seq<string>)
    requires f.name == g.name == h.name && h.value.None? && rest != [] && Store(f, h.ignore, rest[0]).Kept?
    ensures var f' := Store(f, h.ignore, rest[0]).flag;
            && (|rest| == 1 ==> Dispatch([f, g], 0, h, rest, false) == NoArg([f', g]))
            && (|rest| > 1 && Store(g, h.ignore, rest[1]).Kept? ==>
                  Dispatch([f, g], 0, h, rest, false) ==
                    Through([f', Store(g, h.ignore, rest[1]).flag], rest[2..], true))
  {
    hide Store, Dispatch;
    var f' := Store(f, h.ignore, rest[0]).flag;
    DispatchTurn([f, g], 0, h, rest, false);
    assert [f, g][0 := f'] == [f', g];
    DispatchLast(f', g, h, rest[1..]);
    assert |rest| > 1 ==> rest[1..][0] == rest[1] && rest[1..][1..] == rest[2..];
  }

  /** An option token is left cut at its `=`, whatever becomes of it. */
  lemma OptionCut(flags: seq<Flag>, tokens: seq<string>)
    requires tokens != [] && !Stops(tokens[0])
    ensures var p, e := Parse(flags, tokens), IndexOf(tokens[0], '=');
            |p.argv| == |tokens| && p.argv[0] == tokens[0][..e]
  {
    hide Stops, Helps, HeaderOf, Dispatch, IndexOf;
  }

  lemma NamesUpdate(flags: seq<Flag>, k: nat, f: Flag)
    requires k < |flags| && f.name == flags[k].name
    ensures Names(flags[k := f]) == Names(flags)
    ensures Distinct(flags) ==> Distinct(flags[k := f])
  {
  }

  lemma FirstNamed(flags: seq<Flag>, name: string)
    ensures var k := IndexOf(Names(flags), name);
            && (k < |flags| <==> name in Names(flags))
            && (k < |flags| ==> flags[k].name == name)
            && forall j :: 0 <= j < k ==> flags[j].name != name
  {
    hide IndexOf;
    var k, ns := IndexOf(Names(flags), name), Names(flags);
    forall j | 0 <= j < k
      ensures flags[j].name != name
    {
      assert ns[..k][j] == ns[j];
    }
    assert ns[..|ns|] == ns;
  }

  /** With distinct names the search applies the one group to the one flag. */
  lemma DispatchDistinct(flags: seq<Flag>, h: Header, rest: seq<string>)
    requires Distinct(flags) && h.name in Names(flags) && (h.value.Some? || rest != [])
    ensures var k := IndexOf(Names(flags), h.name);
            var arg := if h.value.Some? then h.value.value else rest[0];
            var rest' := if h.value.Some? then rest else rest[1..];
            k < |flags| &&
            var s := Store(flags[k], h.ignore, arg);
            Dispatch(flags, 0, h, rest, false) ==
              if s.Refused? then Rejected(flags, s.error) else Through(flags[k := s.flag], rest', true)
  {
    hide Store, IndexOf;
    var k := IndexOf(Names(flags), h.name);
    var arg := if h.value.Some? then h.value.value else rest[0];
    var rest' := if h.value.Some? then rest else rest[1..];
    FirstNamed(flags, h.name);
    DispatchTo(flags, 0, k, h, rest, false);
    if Store(flags[k], h.ignore, arg).Kept? {
      DispatchPast(flags[k := Store(flags[k], h.ignore, arg).flag], k + 1, h, rest', true);
    }
  }

  lemma DispatchValueless(flags: seq<Flag>, h: Header)
    requires h.name in Names(flags) && h.value.None?
    ensures Dispatch(flags, 0, h, [], false) == NoArg(flags)
  {
    hide Store, IndexOf;
    FirstNamed(flags, h.name);
    DispatchTo(flags, 0, IndexOf(Names(flags), h.name), h, [], false);
  }

  lemma DispatchUnknown(flags: seq<Flag>, h: Header, rest: seq<string>)
    requires h.name !in Names(flags)
    ensures Dispatch(flags, 0, h, rest, false) == Through(flags, rest, false)
  {
    forall j | 0 <= j < |flags|
      ensures flags[j].name != h.name
    {
      assert Names(flags)[j] in Names(flags);
    }
    DispatchPast(flags, 0, h, rest, false);
  }

  /** The help options of the printed usage do not give help: `-h` and `-help` are the flags of those
      names, unknown unless registered, and in need of a value when they are. */
  lemma UsageHelpIsNoHelp(flags: seq<Flag>, name: string, rest: seq<string>)
    requires name == "h" || name == "help"
    ensures var tokens := ["-" + name] + rest;
            && (name !in Names(flags) ==> Parse(flags, tokens).outcome == Ended(NotAFlag(name, tokens)))
            && (name in Names(flags) && rest == [] ==>
                  Parse(flags, tokens).outcome == Ended(Valueless(name, tokens)))
  {
    hide Stops, HeaderOf, Dispatch, CutToken;
    var tokens := ["-" + name] + rest;
    assert tokens[0] == "-" + name && tokens[1..] == rest;
    PlainHeader(name);
    if name !in Names(flags) {
      DispatchUnknown(flags, HeaderOf(tokens[0]), rest);
    } else if rest == [] {
      DispatchValueless(flags, HeaderOf(tokens[0]));
    }
  }

  /** The loop is the fold: split into groups, then apply the groups in order. */
  lemma {:induction false} ParseIsFold(flags: seq<Flag>, tokens: seq<string>)
    requires Distinct(flags)
    ensures (Parse(flags, tokens).flags, Parse(flags, tokens).outcome) ==
            Fold(flags, Split(Names(flags), tokens))
    decreases |tokens|
  {
    hide Stops, Helps, HeaderOf, Store, Dispatch, Distinct, IndexOf, CutToken;
    if tokens != [] && !Stops(tokens[0]) && !Helps(HeaderOf(tokens[0]).name) {
      var h, rest := HeaderOf(tokens[0]), tokens[1..];
      if h.name !in Names(flags) {
        DispatchUnknown(flags, h, rest);
      } else if h.value.None? && rest == [] {
        DispatchValueless(flags, h);
      } else {
        ParseGroupIsFold(flags, tokens);
      }
    }
  }

  lemma {:induction false} ParseGroupIsFold(flags: seq<Flag>, tokens: seq<string>)
    requires Distinct(flags) && tokens != [] && !Stops(tokens[0]) && !Helps(HeaderOf(tokens[0]).name)
    requires HeaderOf(tokens[0]).name in Names(flags)
    requires HeaderOf(tokens[0]).value.None? ==> |tokens| > 1
    ensures (Parse(flags, tokens).flags, Parse(flags, tokens).outcome) ==
            Fold(flags, Split(Names(flags), tokens))
    decreases |tokens|, 0
  {
    hide Stops, Helps, HeaderOf, Store, Dispatch, Distinct, IndexOf, CutToken;
    var h, rest := HeaderOf(tokens[0]), tokens[1..];
    var k := IndexOf(Names(flags), h.name);
    DispatchDistinct(flags, h, rest);
    var arg := if h.value.Some? then h.value.value else rest[0];
    var rest' := if h.value.Some? then rest else rest[1..];
    var g, q := Group(h.name, h.ignore, arg, h.value.Some?), Split(Names(flags), rest');
    assert rest' == if h.value.Some? then tokens[1..] else tokens[2..];
    assert Split(Names(flags), tokens) == Cons(g, q);
    assert Cons(g, q).groups[0] == g && Cons(g, q).groups[1..] == q.groups;
    match Store(flags[k], h.ignore, arg)
    case Refused(e) =>
    case Kept(f) =>
      StoreKeepsIdentity(flags[k], h.ignore, arg);
      FirstNamed(flags, h.name);
      NamesUpdate(flags, k, f);
      ParseIsFold(flags[k := f], rest');
  }
}
