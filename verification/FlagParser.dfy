/** The parser itself: a context of registered flags, and the loop that consumes the arguments. */
module FlagParser {
  import opened Seqs
  import opened FlagValues
  import opened FlagGroups
  import opened FlagFold
  import opened FlagResults

  const FLAGS_CAP: nat := 256

  class FlagContext {
    var flags: seq<Flag>
    var error: Error
    var errorName: string
    var errorValue: string
    var programName: Option<string>
    var rest: seq<string>

    constructor ()
      ensures flags == [] && error == NoError && programName == None && rest == []
    {
      flags, error, errorName, errorValue, programName, rest := [], NoError, "", "", None, [];
    }

    /** Forgets the flags, the program name and the rest; an error stays. */
    method Reset()
      modifies this`flags, this`programName, this`rest
      ensures flags == [] && programName == None && rest == []
    {
      flags, rest, programName := [], [], None;
    }

    /** Registers a flag with its default as its value. */
    method NewFlag(name: string, kind: Kind, mandatory: bool, def: Value)
      requires |flags| < FLAGS_CAP
      modifies this`flags
      ensures flags == old(flags) + [Flag(name, kind, mandatory, def, def, false)]
      ensures old(Distinct(flags)) && name !in Names(old(flags)) ==> Distinct(flags)
    {
      flags := flags + [Flag(name, kind, mandatory, def, def, false)];
      forall i | 0 <= i < |flags| - 1
        ensures name !in Names(old(flags)) ==> flags[i].name != name
      {
        assert Names(old(flags))[i] == flags[i].name;
      }
    }

    /** The search loop over the registered flags for one option. */
    method Match(h: Header, argv: array<string>, at0: nat) returns (at: nat, found: bool, ok: bool)
      requires at0 <= argv.Length
      modifies this`flags, this`error, this`errorName
      ensures var d := Dispatch(old(flags), 0, h, argv[at0..], false);
              && flags == d.flags
              && (ok <==> d.Through?)
              && (ok ==> at0 <= at <= argv.Length && argv[at..] == d.rest && found == d.found)
              && (ok ==> error == old(error) && errorName == old(errorName))
              && (d.NoArg? ==> error == NoValue && errorName == h.name)
              && (d.Rejected? ==> error == d.error && errorName == h.name)
    {
      hide Store, Dispatch;
      at, found, ok := at0, false, true;
      ghost var args := argv[..];
      ghost var d := Dispatch(flags, 0, h, args[at0..], false);
      var i := 0;
      while i < |flags|
        invariant i <= |flags| && at0 <= at <= |args|
        invariant Dispatch(flags, i, h, args[at..], found) == d
        invariant error == old(error) && errorName == old(errorName)
        decreases |flags| - i
      {
        DispatchTurn(flags, i, h, args[at..], found);
        if flags[i].name == h.name {
          var arg;
          if h.value.None? {
            if at == argv.Length {
              error, errorName := NoValue, h.name;
              ok := false;
              return;
            }
            arg := argv[at];
            DropDrop(args, at, 1);
            at := at + 1;
          } else {
            arg := h.value.value;
          }
          var s := Store(flags[i], h.ignore, arg);
          if s.Refused? {
            error, errorName := s.error, h.name;
            ok := false;
            return;
          }
          flags := flags[i := s.flag];
          found := true;
        }
        i := i + 1;
      }
      DispatchOver(flags, h, args[at..], found);
    }

    /** What a parse reports besides the flags. */
    twostate predicate Reported(p: Parsed)
      reads this
    {
      match p.outcome
      case Failed(e, name) =>
        error == e && errorName == name && errorValue == old(errorValue) && rest == old(rest)
      case Ended(NotAFlag(name, _)) =>
        error == UnknownFlag && errorName == name && errorValue == name && rest == old(rest)
      case Ended(Valueless(name, _)) =>
        error == NoValue && errorName == name && errorValue == old(errorValue) && rest == old(rest)
      case Ended(Help(_)) => NoErrorReported() && rest == old(rest)
      case Ended(Stopped(remaining)) => NoErrorReported() && rest == remaining
      case Ended(Exhausted) =>
        if Succeeds(p) then NoErrorReported() && rest == []
        else
          && error == NoValue && errorValue == old(errorValue) && rest == old(rest)
          && exists f :: f in p.flags && f.mandatory && !f.changed && errorName == f.name
    }

    twostate predicate NoErrorReported()
      reads this
    {
      error == old(error) && errorName == old(errorName) && errorValue == old(errorValue)
    }

    /** Checks the mandatory flags once all arguments are consumed. */
    method CheckMandatory() returns (ok: bool)
      modifies this`error, this`errorName
      ensures ok <==> forall f :: f in flags && f.mandatory ==> f.changed
      ensures ok ==> error == old(error) && errorName == old(errorName)
      ensures !ok ==> error == NoValue && exists f :: f in flags && f.mandatory && !f.changed && errorName == f.name
    {
      ok := true;
      for i := 0 to |flags|
        invariant ok <==> forall f :: f in flags[..i] && f.mandatory ==> f.changed
        invariant ok ==> error == old(error) && errorName == old(errorName)
        invariant !ok ==> error == NoValue && exists f :: f in flags && f.mandatory && !f.changed && errorName == f.name
      {
        assert flags[..i + 1] == flags[..i] + [flags[i]];
        if flags[i].mandatory && !flags[i].changed {
          error, errorName := NoValue, flags[i].name;
          ok := false;
        }
      }
      assert flags[..|flags|] == flags;
    }

    /** The parse ends here with what `p` says. */
    twostate predicate EndsWith(p: Parsed, ok: bool)
      reads this
    {
      flags == p.flags && ok == Succeeds(p) && p.outcome != Ended(Exhausted) && Reported(p)
    }

    /** The parse goes on with the remaining arguments, and nothing has been reported. */
    twostate predicate GoesOn(p: Parsed, q: Parsed)
      reads this
    {
      p.flags == q.flags && p.outcome == q.outcome && NoErrorReported() && rest == old(rest)
    }

    /** One turn of the loop: an option with its argument, or the end of the options. */
    method ParseOption(argv: array<string>, at0: nat) returns (at: nat, more: bool, ok: bool)
      requires at0 < argv.Length
      modifies this`flags, this`error, this`errorName, this`errorValue, this`rest, argv
      ensures var p := Parse(old(flags), old(argv[..])[at0..]);
              if more then
                && at0 < at <= argv.Length
                && argv[at..] == old(argv[..])[at..]
                && GoesOn(p, Parse(flags, argv[at..]))
                && argv[..at] + Parse(flags, argv[at..]).argv == old(argv[..])[..at0] + p.argv
              else
                EndsWith(p, ok) && argv[..] == old(argv[..])[..at0] + p.argv
    {
      hide Dispatch, HeaderOf, Stops, Helps, CutToken, Parse, CutAt;
      if Stops(argv[at0]) {
        StopParsed(flags, argv[..], at0);
        rest := argv[at0..];
        at, more, ok := at0 + 1, false, true;
      } else {
        at, more, ok := TakeOption(argv, at0);
        if more {
          OptionPasses(old(flags), old(argv[..]), at0);
          assert argv[at..] == CutAt(old(argv[..]), at0)[at..];
        } else {
          OptionEnds(old(flags), old(argv[..]), at0);
        }
      }
    }

    /** Takes an option token apart in place and dispatches it. */
    method TakeOption(argv: array<string>, at0: nat) returns (at: nat, more: bool, ok: bool)
      requires at0 < argv.Length && !Stops(argv[at0])
      modifies this`flags, this`error, this`errorName, this`errorValue, argv
      ensures argv[..] == CutAt(old(argv[..]), at0)
      ensures var args := old(argv[..]);
              var name, d := HeaderOf(args[at0]).name, At(old(flags), args, at0);
              && (more <==> !Helps(name) && d.Through? && d.found)
              && (more ==> flags == d.flags && at == |args| - |d.rest| && NoErrorReported())
              && (!more ==> flags == (if Helps(name) then old(flags) else d.flags) && ok == Helps(name))
              && (!more ==>
                    if Helps(name) then NoErrorReported()
                    else if d.NoArg? then error == NoValue && errorName == name && errorValue == old(errorValue)
                    else if d.Rejected? then error == d.error && errorName == name && errorValue == old(errorValue)
                    else error == UnknownFlag && errorName == errorValue == name)
    {
      hide Dispatch, HeaderOf, Stops, Helps, CutToken;
      ghost var args := argv[..];
      var h := HeaderOf(argv[at0]);
      argv[at0] := CutToken(argv[at0]);
      at, more, ok := at0 + 1, false, true;
      assert argv[at..] == args[at..];
      if Helps(h.name) {
        return;
      }
      var found;
      at, found, ok := Match(h, argv, at);
      if ok {
        if found {
          more := true;
        } else {
          error, errorName, errorValue := UnknownFlag, h.name, h.name;
          ok := false;
        }
      }
    }

    /** Parses the arguments. The first one is the program's name unless that is known already. */
    method FlagParse(argv: array<string>) returns (ok: bool)
      requires programName.None? ==> argv.Length > 0
      modifies this`flags, this`error, this`errorName, this`errorValue, this`programName, this`rest, argv
      ensures var first := if old(programName).None? then 1 else 0;
              var p := Parse(old(flags), old(argv[..])[first..]);
              && flags == p.flags
              && ok == Succeeds(p)
              && Reported(p)
              && argv[..] == old(argv[..])[..first] + p.argv
      ensures programName == if old(programName).None? then Some(old(argv[..])[0]) else old(programName)
    {
      hide Dispatch, HeaderOf, Parse;
      var at := 0;
      if programName.None? {
        programName := Some(argv[0]);
        at := 1;
      }
      ghost var first, args := at, argv[..];
      ghost var whole := Parse(flags, args[first..]);
      assert argv[..at] + Parse(flags, args[at..]).argv == args[..first] + whole.argv;
      while at < argv.Length
        invariant first <= at <= argv.Length
        invariant argv[at..] == args[at..]
        invariant (Parse(flags, args[at..]).flags, Parse(flags, args[at..]).outcome) == (whole.flags, whole.outcome)
        invariant argv[..at] + Parse(flags, args[at..]).argv == args[..first] + whole.argv
        invariant NoErrorReported() && rest == old(rest)
        invariant programName == if old(programName).None? then Some(args[0]) else old(programName)
      {
        var more;
        at, more, ok := ParseOption(argv, at);
        if !more {
          return;
        }
      }
      assert args[at..] == [];
      ParseNothing(flags);
      ok := CheckMandatory();
      if ok {
        rest := [];
      }
    }
  }

  lemma StopParsed(flags: seq<Flag>, args: seq<string>, at0: nat)
    requires at0 < |args| && Stops(args[at0])
    ensures Parse(flags, args[at0..]) == Parsed(flags, Ended(Stopped(args[at0..])), args[at0..])
    ensures Succeeds(Parse(flags, args[at0..]))
    ensures args == args[..at0] + args[at0..]
  {
  }

  /** The option at `at0` dispatched, and the arguments with its value cut off. */
  function At(flags: seq<Flag>, args: seq<string>, at0: nat): Dispatched
    requires at0 < |args| && !Stops(args[at0])
  {
    Dispatch(flags, 0, HeaderOf(args[at0]), args[at0 + 1..], false)
  }

  function CutAt(args: seq<string>, at0: nat): seq<string>
    requires at0 < |args|
  {
    args[at0 := CutToken(args[at0])]
  }

  lemma CutParts(args: seq<string>, at0: nat)
    requires at0 < |args|
    ensures CutAt(args, at0) == args[..at0] + ([CutToken(args[at0..][0])] + args[at0..][1..])
    ensures args[at0..][0] == args[at0] && args[at0..][1..] == args[at0 + 1..]
  {
    hide CutToken;
  }

  /** An option that ends the parse. */
  lemma OptionEnds(flags: seq<Flag>, args: seq<string>, at0: nat)
    requires at0 < |args| && !Stops(args[at0])
    ensures var p, name, d := Parse(flags, args[at0..]), HeaderOf(args[at0]).name, At(flags, args, at0);
            Helps(name) || !d.Through? || !d.found ==>
              && args[..at0] + p.argv == CutAt(args, at0)
              && p.flags == (if Helps(name) then flags else d.flags)
              && p.outcome == if Helps(name) then Ended(Help(args[at0..]))
                              else if d.NoArg? then Ended(Valueless(name, args[at0..]))
                              else if d.Rejected? then Failed(d.error, name)
                              else Ended(NotAFlag(name, args[at0..]))
  {
    hide Dispatch, HeaderOf, Stops, Helps, CutToken, CutAt;
    CutParts(args, at0);
  }

  /** An option that lets the parse go on. */
  lemma OptionPasses(flags: seq<Flag>, args: seq<string>, at0: nat)
    requires at0 < |args| && !Stops(args[at0]) && !Helps(HeaderOf(args[at0]).name)
    requires At(flags, args, at0).Through? && At(flags, args, at0).found
    ensures var p, d := Parse(flags, args[at0..]), At(flags, args, at0);
            var at, q := |args| - |d.rest|, Parse(d.flags, d.rest);
            && at0 < at && CutAt(args, at0)[at..] == args[at..] == d.rest
            && p.flags == q.flags && p.outcome == q.outcome
            && args[..at0] + p.argv == CutAt(args, at0)[..at] + q.argv
  {
    hide Dispatch, HeaderOf, Stops, Helps, CutToken, CutAt, Parse;
    var d := At(flags, args, at0);
    var at := |args| - |d.rest|;
    CutParts(args, at0);
    DropDrop(args, at0 + 1, at - (at0 + 1));
    ParsePasses(flags, args[at0..]);
    CutPasses(args, at0, at, Parse(d.flags, d.rest).argv);
  }

  lemma CutPasses(args: seq<string>, at0: nat, at: nat, more: seq<string>)
    requires at0 < at <= |args|
    ensures var cut := [CutToken(args[at0..][0])] + args[at0..][1..];
            && args[..at0] + (cut[..at - at0] + more) == CutAt(args, at0)[..at] + more
            && CutAt(args, at0)[at..] == args[at..]
  {
    hide CutToken;
  }

  lemma ParseNothing(flags: seq<Flag>)
    ensures Parse(flags, []) == Parsed(flags, Ended(Exhausted), [])
    ensures Succeeds(Parse(flags, [])) <==> forall f :: f in flags && f.mandatory ==> f.changed
  {
  }
}
