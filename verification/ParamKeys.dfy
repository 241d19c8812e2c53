/** Which parameters a line belongs to. Names are searched for anywhere in the line, so a line can be
    taken by a parameter whose name merely ends the key. */
module ParamKeys {
  import opened Seqs
  import opened CText
  import opened ParamLists
  import opened ParamText

  /** A name the parser can find at all: not empty, without a blank or `=`. */
  predicate PlainName(name: string) {
    name != [] && ' ' !in name && '=' !in name
  }

  /** A name at the front of `rest` is followed by `=`, or by a blank and later a `=`. */
  predicate Heads(name: string, rest: string) {
    |name| < |rest| && (rest[|name|] == '=' || (rest[|name|] == ' ' && '=' in rest))
  }

  /** The first occurrence of the name in the line heads what follows. */
  predicate Owns(name: string, line: string) {
    var pos := Find(line, name);
    pos.Some? && Heads(name, line[pos.value..])
  }

  /** The text behind the first `=`, without leading blanks. */
  function ValueIn(rest: string): (text: string)
    requires '=' in rest
    ensures |text| <= |rest|
  {
    hide IndexOf, SkipBlanks;
    HasEquals(rest);
    SkipBlanks(rest[IndexOf(rest, '=') + 1..])
  }

  function ValueAt(name: string, line: string): (text: string)
    requires Owns(name, line)
    ensures |text| <= |line|
  {
    hide Find, ValueIn, Heads;
    var rest := line[Find(line, name).value..];
    HeadsHasEquals(name, rest);
    ValueIn(rest)
  }

  lemma HeadsHasEquals(name: string, rest: string)
    requires Heads(name, rest)
    ensures '=' in rest
  {
    assert rest[|name|] in rest;
  }

  lemma HasEquals(rest: string)
    ensures '=' in rest <==> IndexOf(rest, '=') < |rest|
  {
    assert rest[..|rest|] == rest;
  }

  /** What lies from the first occurrence of the name on fits the name buffer. */
  predicate Searchable(name: string, line: string) {
    var pos := Find(line, name);
    pos.Some? ==> |line| - pos.value < NAME_CAP
  }

  /** A line with one `=`: what stands before it, and what follows. */
  ghost predicate KeyedLine(line: string, head: string, tail: string) {
    line == head + ("=" + tail) && '=' !in head && '=' !in tail
  }

  /** The first occurrence of the name before the `=` ends there, or a blank follows it. */
  predicate Claims(name: string, head: string) {
    var pos := Find(head, name);
    && pos.Some?
    && (pos.value + |name| == |head| || (pos.value + |name| < |head| && head[pos.value + |name|] == ' '))
  }

  predicate IsSuffix(name: string, key: string) {
    |name| <= |key| && key[|key| - |name|..] == name
  }

  lemma FindUnique(s: string, pat: string, i: nat)
    requires i <= |s| && pat <= s[i..] && forall j :: 0 <= j < i ==> !(pat <= s[j..])
    ensures Find(s, pat) == Some(i)
  {
  }

  /** A whole key claims itself. */
  lemma ClaimsItself(key: string)
    ensures Claims(key, key)
  {
    assert key <= key[0..];
    FindUnique(key, key, 0);
  }

  lemma PrefixOfAppend(pat: string, a: string, b: string)
    ensures pat <= a ==> pat <= a + b
    ensures |pat| <= |a| && pat <= a + b ==> pat <= a
  {
    assert |pat| <= |a| ==> (a + b)[..|pat|] == a[..|pat|];
  }

  /** An occurrence that starts before the `=` lies before it: a plain name holds none. */
  lemma OccurrenceInHead(name: string, head: string, tail: string, j: nat)
    requires PlainName(name) && j <= |head|
    ensures name <= (head + ("=" + tail))[j..] <==> name <= head[j..]
  {
    var k := head[j..];
    assert (head + ("=" + tail))[j..] == k + ("=" + tail);
    PrefixOfAppend(name, k, "=" + tail);
    assert (k + ("=" + tail))[|k|] == '=';
    assert |name| > |k| ==> name[|k|] in name;
  }

  /** Searching the line finds the first occurrence before the `=`, or none up to it. */
  lemma FindInLine(name: string, head: string, tail: string)
    requires PlainName(name)
    ensures var line := head + ("=" + tail);
            && (Find(head, name).Some? ==> Find(line, name) == Find(head, name))
            && (Find(head, name).None? && Find(line, name).Some? ==> Find(line, name).value > |head|)
  {
    hide Find, PlainName;
    var line := head + ("=" + tail);
    forall j | 0 <= j <= |head|
      ensures name <= line[j..] <==> name <= head[j..]
    {
      OccurrenceInHead(name, head, tail, j);
    }
    if Find(head, name).Some? {
      FindUnique(line, name, Find(head, name).value);
    }
  }

  /** The text is cut to the name exactly when nothing or a blank follows the name in it. */
  lemma CutToName(name: string, t: string)
    requires name != [] && ' ' !in name && name <= t
    ensures t[..1 + IndexOf(t[1..], ' ')] == name <==> |t| == |name| || t[|name|] == ' '
  {
    var n := |name| - 1;
    assert t[1..][..n] == name[1..];
    NotBefore(t[1..], ' ', n);
    if |t| == |name| || t[|name|] == ' ' {
      IndexOfUnique(t[1..], ' ', n);
    }
  }

  lemma RestParts(t: string, tail: string)
    requires '=' !in t
    ensures var rest := t + ("=" + tail);
            IndexOf(rest, '=') == |t| < |rest| && rest[..|t|] == t && rest[|t| + 1..] == tail
  {
    hide IndexOf;
    var rest := t + ("=" + tail);
    assert rest[..|t|] == t && rest[|t|] == '=';
    IndexOfUnique(rest, '=', |t|);
  }

  lemma NoEquals(s: string)
    requires '=' !in s
    ensures IndexOf(s, '=') == |s|
  {
    assert s[..|s|] == s;
    IndexOfUnique(s, '=', |s|);
  }

  lemma HeadsNothing(name: string, rest: string)
    requires '=' !in rest
    ensures !Heads(name, rest)
  {
    assert |name| < |rest| ==> rest[|name|] in rest;
  }

  /** Whether the key seen from an occurrence of the name is the name. */
  lemma KeySeen(name: string, rest: string)
    requires PlainName(name) && name <= rest
    ensures var e := IndexOf(rest, '=');
            if e == |rest| then !Heads(name, rest)
            else '=' in rest && (KeyOf(rest) == name <==> Heads(name, rest))
  {
    HasEquals(rest);
    if '=' !in rest {
      HeadsNothing(name, rest);
    } else {
      var e := IndexOf(rest, '=');
      assert rest[..|name|] == name;
      NotBefore(rest, '=', |name|);
      var t := rest[..e];
      assert |name| < e ==> rest[|name|] in t;
      CutToName(name, t);
    }
  }

  /** What looking for a parameter leads to, for every line: it is taken exactly when its name owns the
      line. */
  lemma TakesExactly(p: Param, line: string)
    requires PlainName(p.name)
    ensures Try(p, line) ==
            if Find(line, p.name).Some? && |line| - Find(line, p.name).value >= 256 then Undefined
            else if Owns(p.name, line) then TakeValue(p, line, ValueAt(p.name, line))
            else NoMatch
  {
    hide Find, KeyOf, IndexOf, TakeValue, SkipBlanks, PlainName, Heads;
    var pos := Find(line, p.name);
    if pos.Some? {
      KeySeen(p.name, line[pos.value..]);
    }
  }

  lemma ValueBehind(t: string, tail: string)
    requires '=' !in t
    ensures var rest := t + ("=" + tail); '=' in rest && ValueIn(rest) == SkipBlanks(tail)
  {
    hide IndexOf, SkipBlanks;
    RestParts(t, tail);
    HasEquals(t + ("=" + tail));
  }

  lemma HeadsBefore(name: string, t: string, tail: string)
    requires name <= t && '=' !in t
    ensures Heads(name, t + ("=" + tail)) <==> |t| == |name| || t[|name|] == ' '
  {
    var rest := t + ("=" + tail);
    assert rest[|t|] == '=' && rest[|t|] in rest;
    if |name| < |t| {
      assert rest[|name|] == t[|name|] && t[|name|] in t;
    }
  }

  /** In a line with one `=` the owners are the names that claim what stands before it, and the value
      is what follows. */
  lemma OwnsIsClaims(name: string, line: string, head: string, tail: string)
    requires PlainName(name) && KeyedLine(line, head, tail)
    ensures Owns(name, line) <==> Claims(name, head)
    ensures Owns(name, line) ==> ValueAt(name, line) == SkipBlanks(tail)
  {
    hide Find, SkipBlanks, PlainName, ValueIn, Heads;
    FindInLine(name, head, tail);
    if Find(head, name).Some? {
      var pos := Find(head, name).value;
      assert line[pos..] == head[pos..] + ("=" + tail);
      assert forall c :: c in head[pos..] ==> c in head;
      HeadsBefore(name, head[pos..], tail);
      ValueBehind(head[pos..], tail);
    } else if Find(line, name).Some? {
      var pos := Find(line, name).value;
      assert line[pos..] == tail[pos - |head| - 1..];
      assert forall c :: c in tail[pos - |head| - 1..] ==> c in tail;
      HeadsNothing(name, line[pos..]);
    }
  }

  /** So a parameter takes such a line exactly when its name claims what stands before the `=`; what
      follows the `=`, and where it has been cut off there, makes no difference. */
  lemma TakesKeyed(p: Param, line: string, head: string, tail: string)
    requires PlainName(p.name) && KeyedLine(line, head, tail) && Searchable(p.name, line)
    ensures Try(p, line) == if Claims(p.name, head) then TakeValue(p, line, SkipBlanks(tail)) else NoMatch
  {
    hide Owns, ValueAt, Claims, TakeValue, SkipBlanks, Try, PlainName;
    TakesExactly(p, line);
    OwnsIsClaims(p.name, line, head, tail);
  }

  /** With a second `=` in the line, say in a comment, the search can land there: wherever the first
      occurrence of the name is directly followed by `=`, the parameter takes what comes next. */
  lemma TakesFromComment(p: Param, line: string, front: string, tail: string)
    requires PlainName(p.name) && |line| - |front| < NAME_CAP
    requires line == front + (p.name + ("=" + tail)) && Find(line, p.name) == Some(|front|)
    ensures Try(p, line) == TakeValue(p, line, SkipBlanks(tail))
  {
    hide Find, TakeValue, SkipBlanks, IndexOf, Try;
    assert line[|front|..] == p.name + ("=" + tail);
    RestParts(p.name, tail);
    TakesExactly(p, line);
  }

  /** A name that owns the beginning of a line owns the line. */
  lemma OwnsCut(name: string, line: string, n: nat)
    requires n <= |line|
    ensures Owns(name, line[..n]) ==> Owns(name, line)
    ensures Searchable(name, line) ==> Searchable(name, line[..n])
  {
    hide Find;
    var cut := line[..n];
    if Find(cut, name).Some? {
      var pos := Find(cut, name).value;
      FindInPrefix(name, line, n);
      assert cut[pos..] == line[pos..][..n - pos];
    }
  }

  lemma FindInPrefix(name: string, line: string, n: nat)
    requires n <= |line| && Find(line[..n], name).Some?
    ensures Find(line, name) == Find(line[..n], name)
  {
    hide Find;
    var cut, pos := line[..n], Find(line[..n], name).value;
    assert cut[pos..] == line[pos..][..n - pos];
    forall j | 0 <= j < pos
      ensures !(name <= line[j..])
    {
      assert cut[j..] == line[j..][..n - j];
      PrefixOfTake(name, line[j..], n - j);
    }
    FindUnique(line, name, pos);
  }

  lemma PrefixOfTake(pat: string, s: string, n: nat)
    requires |pat| <= n <= |s|
    ensures pat <= s ==> pat <= s[..n]
  {
  }

  // ---- A whole line ----

  /** Cutting a keyed line off behind the `=` leaves it keyed. */
  lemma CutKeyed(line: string, head: string, tail: string, n: nat)
    requires KeyedLine(line, head, tail) && |line| - |tail| <= n <= |line|
    ensures KeyedLine(line[..n], head, tail[..n - (|line| - |tail|)])
  {
    var m := n - (|line| - |tail|);
    assert line[..n] == head + ("=" + tail[..m]);
    assert forall c :: c in tail[..m] ==> c in tail;
  }

  /** What a taken value leaves: name and kind stay, and the line is cut somewhere in `text`. */
  ghost predicate CutsOnly(p: Param, line: string, text: string, a: Attempt)
    requires |text| <= |line|
  {
    a.Taken? ==>
      && a.param == p.(val := a.param.val, changed := a.param.changed)
      && |line| - |text| <= |a.line| <= |line| && a.line == line[..|a.line|]
  }

  lemma ScalarCuts(p: Param, v: string, line: string)
    ensures var a := TakeScalar(p, v, line);
            a.Taken? ==> a.line == line && a.param == p.(val := a.param.val, changed := a.param.changed)
  {
    hide TruthOf, Strtol, Strtoul, Find, HexBytes;
  }

  /** A value is taken from the end of the line. */
  lemma TakenCuts(p: Param, line: string, text: string)
    requires |text| <= |line|
    ensures CutsOnly(p, line, text, TakeValue(p, line, text))
  {
    hide ReadItems, Tokens, IndexOf, TakeScalar;
    match p.kind
    case KList(_) =>
    case KStr =>
    case _ => ScalarCuts(p, text[..ScalarEnd(text)], line[..|line| - |text| + ScalarEnd(text)]);
  }

  lemma TakenIsMatch(p: Param, line: string, text: string)
    requires |text| <= |line|
    ensures TakeValue(p, line, text) != NoMatch
  {
    hide ReadItems, Tokens, TruthOf, Strtol, Strtoul, Find, IndexOf, HexBytes;
  }

  ghost predicate PlainNames(params: seq<Param>) {
    forall i :: 0 <= i < |params| ==> PlainName(params[i].name)
  }

  ghost predicate OnlyOwnersDiffer(a: seq<Param>, b: seq<Param>, line: string) {
    |a| == |b| && forall i :: 0 <= i < |a| ==> a[i] == b[i] || Owns(a[i].name, line)
  }

  /** One more parameter tried: the line is a beginning of what it was, and only an owner has changed. */
  lemma TryKeeps(p: Param, whole: string, n: nat)
    requires PlainName(p.name) && n <= |whole| && Try(p, whole[..n]).Taken?
    ensures var a := Try(p, whole[..n]);
            && Owns(p.name, whole)
            && a.param == p.(val := a.param.val, changed := a.param.changed)
            && |a.line| <= n && a.line == whole[..|a.line|]
  {
    hide Try, Owns, ValueAt, TakeValue, PlainName;
    TakesExactly(p, whole[..n]);
    OwnsCut(p.name, whole, n);
    TakenCuts(p, whole[..n], ValueAt(p.name, whole[..n]));
  }

  /** Parsing a line, any line, changes only parameters whose names own it, despite the cuts made in it
      between searches. */
  lemma {:induction false} OnlyOwnersChange(params: seq<Param>, whole: string, n: nat, i: nat, found: bool)
    requires PlainNames(params) && n <= |whole| && i <= |params|
    ensures var r := ParseLine(params, whole[..n], i, found);
            !r.LineUndefined? ==> OnlyOwnersDiffer(params, r.params, whole)
    decreases |params| - i
  {
    hide Try, Owns;
    if i < |params| {
      var a := Try(params[i], whole[..n]);
      if a.NoMatch? {
        OnlyOwnersChange(params, whole, n, i + 1, found);
      } else if a.Taken? {
        TryKeeps(params[i], whole, n);
        OnlyOwnersChange(params[i := a.param], whole, |a.line|, i + 1, true);
      }
    }
  }

  /** With one `=`, only parameters whose names claim what stands before it. */
  lemma OnlyClaimantsChange(params: seq<Param>, line: string, found: bool, head: string, tail: string)
    requires PlainNames(params) && KeyedLine(line, head, tail)
    ensures var r := ParseLine(params, line, 0, found);
            !r.LineUndefined? ==>
              |r.params| == |params| &&
              forall i :: 0 <= i < |params| && !Claims(params[i].name, head) ==> r.params[i] == params[i]
  {
    hide ParseLine, Owns, Claims, KeyedLine, PlainName;
    assert line[..|line|] == line;
    OnlyOwnersChange(params, line, |line|, 0, found);
    forall i | 0 <= i < |params|
      ensures Owns(params[i].name, line) <==> Claims(params[i].name, head)
    {
      OwnsIsClaims(params[i].name, line, head, tail);
    }
  }

  // ---- Words ----

  /** A stretch between blanks. */
  ghost predicate IsWordOf(w: string, head: string) {
    w != [] && ' ' !in w && exists i, j :: IsStretch(w, head, i, j)
  }

  ghost predicate IsStretch(w: string, head: string, i: int, j: int) {
    && 0 <= i <= j <= |head| && w == head[i..j]
    && (i == 0 || head[i - 1] == ' ') && (j == |head| || head[j] == ' ')
  }

  function WordStart(head: string, pos: nat): (i: nat)
    requires pos <= |head|
    ensures i <= pos && ' ' !in head[i..pos] && (i == 0 || head[i - 1] == ' ')
  {
    if pos == 0 || head[pos - 1] == ' ' then pos else WordStart(head, pos - 1)
  }

  /** A name that claims the text before the `=` ends a word of it. */
  lemma ClaimantEndsWord(name: string, head: string) returns (w: string)
    requires name != [] && ' ' !in name && Claims(name, head)
    ensures IsWordOf(w, head) && IsSuffix(name, w)
  {
    hide Find;
    var pos := Find(head, name).value;
    var i, j := WordStart(head, pos), pos + |name|;
    w := head[i..j];
    assert head[pos..j] == name;
    assert w == head[i..pos] + name;
    assert IsStretch(w, head, i, j);
  }

  /** No name is a proper suffix of another. */
  ghost predicate SuffixFree(params: seq<Param>) {
    forall i, j :: 0 <= i < |params| && 0 <= j < |params| && IsSuffix(params[i].name, params[j].name)
      ==> params[i].name == params[j].name
  }

  ghost predicate Registered(params: seq<Param>, w: string) {
    exists k :: 0 <= k < |params| && params[k].name == w
  }

  /** Isolation by words: when every word before the `=` is a registered name and no name is a proper
      suffix of another, a line changes only parameters that one of these words names. */
  lemma RegisteredWordsAreIsolated(params: seq<Param>, line: string, head: string, tail: string, found: bool)
    requires PlainNames(params) && SuffixFree(params) && KeyedLine(line, head, tail)
    requires forall w :: IsWordOf(w, head) ==> Registered(params, w)
    ensures var r := ParseLine(params, line, 0, found);
            !r.LineUndefined? ==>
              |r.params| == |params| &&
              forall i :: 0 <= i < |params| && !IsWordOf(params[i].name, head) ==> r.params[i] == params[i]
  {
    hide ParseLine, KeyedLine, Claims, IsSuffix, IsWordOf;
    OnlyClaimantsChange(params, line, found, head, tail);
    forall i | 0 <= i < |params| && Claims(params[i].name, head)
      ensures IsWordOf(params[i].name, head)
    {
      var w := ClaimantEndsWord(params[i].name, head);
      assert Registered(params, w);
    }
  }

  predicate AllBlanks(s: string) {
    forall c :: c in s ==> c == ' '
  }

  lemma BlankFrom(key: string, blanks: string)
    requires ' ' !in key && AllBlanks(blanks)
    ensures forall m :: 0 <= m < |key + blanks| ==> ((key + blanks)[m] == ' ' <==> m >= |key|)
  {
    forall m | 0 <= m < |key + blanks|
      ensures (key + blanks)[m] == ' ' <==> m >= |key|
    {
      assert m < |key| ==> key[m] in key;
      assert m >= |key| ==> blanks[m - |key|] in blanks;
    }
  }

  lemma StretchChars(w: string, head: string, i: int, j: int)
    requires IsStretch(w, head, i, j) && ' ' !in w
    ensures forall m :: i <= m < j ==> head[m] != ' '
  {
    forall m | i <= m < j
      ensures head[m] != ' '
    {
      assert head[m] == w[m - i] && w[m - i] in w;
    }
  }

  /** A key without a blank is the only word before its `=`. */
  lemma OneWord(w: string, key: string, blanks: string)
    requires ' ' !in key && AllBlanks(blanks) && IsWordOf(w, key + blanks)
    ensures w == key
  {
    hide AllBlanks;
    var head := key + blanks;
    var i, j :| IsStretch(w, head, i, j);
    BlankFrom(key, blanks);
    assert blanks != [] ==> head[|key|] == ' ';
    StretchChars(w, head, i, j);
    assert i < j && head[i] != ' ';
    assert i == 0 && j == |key|;
    assert head[..|key|] == key;
  }

  /** Key isolation: when the key is a registered name and no name is a proper suffix of another, a
      line changes nothing but the parameter of that name. */
  lemma RegisteredKeyIsIsolated(params: seq<Param>, k: nat, line: string, blanks: string, tail: string, found: bool)
    requires PlainNames(params) && SuffixFree(params) && k < |params|
    requires AllBlanks(blanks) && KeyedLine(line, params[k].name + blanks, tail)
    ensures var r := ParseLine(params, line, 0, found);
            !r.LineUndefined? ==>
              |r.params| == |params| &&
              forall i :: 0 <= i < |params| && params[i].name != params[k].name ==> r.params[i] == params[i]
  {
    hide ParseLine, KeyedLine, IsSuffix, IsWordOf, SuffixFree, AllBlanks;
    forall w | IsWordOf(w, params[k].name + blanks)
      ensures w == params[k].name && Registered(params, w)
    {
      OneWord(w, params[k].name, blanks);
    }
    RegisteredWordsAreIsolated(params, line, params[k].name + blanks, tail, found);
  }
}
