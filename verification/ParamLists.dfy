/** The bracketed lists of a parameter file: tokenising, reading and printing. */
module ParamLists {
  import opened Machine
  import opened Seqs
  import opened CText

  const UINT_MAX: int := 0xFFFF_FFFF
  const LIST_MAX: nat := 32

  // ---- Tokens: maximal runs of characters that are not separators ----

  predicate IsSep(c: char) {
    c == ',' || c == ' '
  }

  predicate AllSeps(s: string) {
    forall c :: c in s ==> c == ',' || c == ' '
  }

  predicate IsWord(s: string) {
    s != [] && forall c :: c in s ==> c != ',' && c != ' '
  }

  function SepRun(s: string): (n: nat)
    ensures n <= |s| && (n < |s| ==> !IsSep(s[n]))
  {
    if s == [] || !IsSep(s[0]) then 0 else 1 + SepRun(s[1..])
  }

  function WordRun(s: string): (n: nat)
    ensures n <= |s| && (s != [] && !IsSep(s[0]) ==> n > 0)
  {
    if s == [] || IsSep(s[0]) then 0 else 1 + WordRun(s[1..])
  }

  function Tokens(s: string): seq<string>
    decreases |s|
  {
    var t := s[SepRun(s)..];
    if t == [] then [] else [t[..WordRun(t)]] + Tokens(t[WordRun(t)..])
  }

  lemma {:induction false} SepRunOver(seps: string, s: string)
    requires AllSeps(seps)
    ensures SepRun(seps + s) == |seps| + SepRun(s)
  {
    if seps == [] {
      assert seps + s == s;
    } else {
      assert (seps + s)[1..] == seps[1..] + s;
      assert seps[0] in seps && forall c :: c in seps[1..] ==> c in seps;
      SepRunOver(seps[1..], s);
    }
  }

  lemma {:induction false} WordRunOver(w: string, s: string)
    requires IsWord(w) && (s == [] || IsSep(s[0]))
    ensures WordRun(w + s) == |w|
    decreases |w|
  {
    assert (w + s)[1..] == w[1..] + s;
    assert w[0] in w && forall c :: c in w[1..] ==> c in w;
    if |w| == 1 {
      assert w[1..] + s == s;
    } else {
      WordRunOver(w[1..], s);
    }
  }

  lemma TokensOverSeps(seps: string, s: string)
    requires AllSeps(seps)
    ensures Tokens(seps + s) == Tokens(s)
  {
    SepRunOver(seps, s);
    assert (seps + s)[SepRun(seps + s)..] == s[SepRun(s)..];
  }

  lemma TokensOverWord(w: string, s: string)
    requires IsWord(w) && (s == [] || IsSep(s[0]))
    ensures Tokens(w + s) == [w] + Tokens(s)
  {
    WordRunOver(w, s);
    assert (w + s)[0] == w[0];
    assert (w + s)[0..] == w + s;
    assert (w + s)[..|w|] == w && (w + s)[|w|..] == s;
  }

  /** Words with separators before, between and after them. */
  function Joined(words: seq<string>, seps: seq<string>): string
    requires |seps| == |words| + 1
  {
    if words == [] then seps[0] else seps[0] + (words[0] + Joined(words[1..], seps[1..]))
  }

  ghost predicate WellSeparated(words: seq<string>, seps: seq<string>) {
    && |seps| == |words| + 1
    && (forall w :: w in words ==> IsWord(w))
    && (forall p :: p in seps ==> AllSeps(p))
    && forall i :: 1 <= i < |words| ==> seps[i] != []
  }

  /** Tokenising finds exactly the words, whatever the separators are. */
  lemma {:induction false} TokensOfJoined(words: seq<string>, seps: seq<string>)
    requires WellSeparated(words, seps)
    ensures Tokens(Joined(words, seps)) == words
    decreases |words|
  {
    hide Tokens;
    assert seps[0] in seps;
    if words == [] {
      assert seps[0] + "" == seps[0];
      TokensOverSeps(seps[0], "");
      NoTokens();
    } else {
      var tail := Joined(words[1..], seps[1..]);
      assert words[0] in words;
      assert WellSeparated(words[1..], seps[1..]) by {
        assert forall i :: 1 <= i < |words| - 1 ==> seps[1..][i] == seps[i + 1];
      }
      TokensOfJoined(words[1..], seps[1..]);
      TokensOverSeps(seps[0], words[0] + tail);
      TailStartsWithSep(words, seps);
      TokensOverWord(words[0], tail);
    }
  }

  lemma NoTokens()
    ensures Tokens("") == []
  {
  }

  lemma TailStartsWithSep(words: seq<string>, seps: seq<string>)
    requires WellSeparated(words, seps) && words != []
    ensures var tail := Joined(words[1..], seps[1..]); tail == [] || IsSep(tail[0])
  {
    assert seps[1] in seps;
    assert seps[1] != [] ==> seps[1][0] in seps[1];
  }

  // ---- Elements ----

  datatype ElemKind = BoolElem | UintElem | IntElem

  datatype Elem = B(b: bool) | U(u: nat) | I(i: int)

  predicate ElemFits(kind: ElemKind, e: Elem) {
    match kind
    case BoolElem => e.B?
    case UintElem => e.U? && e.u <= UINT_MAX
    case IntElem => e.I? && INT_MIN <= e.i <= INT_MAX
  }

  function ReadElem(kind: ElemKind, token: string): Option<Elem> {
    match kind
    case BoolElem =>
      var b := TruthOf(token);
      if b.Some? then Some(B(b.value)) else None
    case UintElem =>
      var c := Strtoul(token, 10);
      if c.end != |token| || c.value > UINT_MAX then None else Some(U(c.value))
    case IntElem =>
      var c := Strtol(token);
      if c.end != |token| || c.value > INT_MAX || c.value < INT_MIN then None else Some(I(c.value))
  }

  /** Which tokens are elements of each kind, and which elements they are. */
  ghost predicate ElemWord(kind: ElemKind, token: string, e: Elem) {
    match kind
    case BoolElem =>
      || (e == B(true) && (token == "1" || token == "true" || token == "yes" || token == "si"))
      || (e == B(false) && (token == "0" || token == "false" || token == "no"))
    case UintElem => e.U? && DenotesUnsigned(token, e.u) && e.u <= 4_294_967_295
    case IntElem => e.I? && DenotesSigned(token, e.i) && -2_147_483_648 <= e.i <= 2_147_483_647
  }

  lemma ElemExactly(kind: ElemKind, token: string, e: Elem)
    ensures ReadElem(kind, token) == Some(e) <==> ElemWord(kind, token, e)
  {
    hide Strtoul, Strtol, DenotesUnsigned, DenotesSigned, TruthOf;
    TruthCases(token);
    if e.U? {
      UnsignedExactly(token, e.u);
    } else if e.I? {
      SignedExactly(token, e.i);
    }
  }

  lemma NoElem(kind: ElemKind, token: string)
    ensures ReadElem(kind, token).None? <==> forall e :: !ElemWord(kind, token, e)
  {
    hide ReadElem, ElemWord;
    forall e
      ensures ReadElem(kind, token) == Some(e) <==> ElemWord(kind, token, e)
    {
      ElemExactly(kind, token, e);
    }
  }

  /** The elements stored before the list ends or is given up, and which of the two it was. */
  datatype ListReading = ListReading(items: seq<Elem>, ok: bool)

  function ReadItems(kind: ElemKind, tokens: seq<string>, idx: nat): ListReading {
    if tokens == [] then ListReading([], true)
    else if idx >= LIST_MAX then ListReading([], false)
    else
      var e := ReadElem(kind, tokens[0]);
      if e.None? then ListReading([], false)
      else
        var r := ReadItems(kind, tokens[1..], idx + 1);
        r.(items := [e.value] + r.items)
  }

  /** Valid tokens are stored in order, and the first thirty-two of them only. */
  lemma {:induction false} ReadsValid(kind: ElemKind, tokens: seq<string>, items: seq<Elem>, idx: nat)
    requires |items| == |tokens| && idx <= LIST_MAX
    requires forall i :: 0 <= i < |tokens| ==> ReadElem(kind, tokens[i]) == Some(items[i])
    ensures ReadItems(kind, tokens, idx) ==
            ListReading(items[..Min(|items|, LIST_MAX - idx)], |items| <= LIST_MAX - idx)
    decreases |tokens|
  {
    hide ReadElem;
    if tokens != [] && idx < LIST_MAX {
      ReadsValid(kind, tokens[1..], items[1..], idx + 1);
      var n := Min(|items|, LIST_MAX - idx);
      assert [items[0]] + items[1..][..n - 1] == items[..n];
    }
  }

  /** A list that is read to its end has had only valid tokens, and no more than fit. */
  lemma {:induction false} ReadMeansValid(kind: ElemKind, tokens: seq<string>, idx: nat)
    requires ReadItems(kind, tokens, idx).ok
    ensures var items := ReadItems(kind, tokens, idx).items;
            && |items| == |tokens| && (tokens != [] ==> idx + |tokens| <= LIST_MAX)
            && forall i :: 0 <= i < |tokens| ==> ReadElem(kind, tokens[i]) == Some(items[i])
    decreases |tokens|
  {
    hide ReadElem;
    if tokens != [] {
      ReadMeansValid(kind, tokens[1..], idx + 1);
    }
  }

  /** A list of valid tokens yields its values in order for every choice of separators; with more than
      thirty-two it is given up with the first thirty-two stored. */
  lemma ListIsRead(kind: ElemKind, words: seq<string>, items: seq<Elem>, seps: seq<string>)
    requires WellSeparated(words, seps) && |items| == |words|
    requires forall i :: 0 <= i < |words| ==> ReadElem(kind, words[i]) == Some(items[i])
    ensures ReadItems(kind, Tokens(Joined(words, seps)), 0) ==
            if |items| <= LIST_MAX then ListReading(items, true) else ListReading(items[..LIST_MAX], false)
  {
    hide ReadElem, Tokens, ReadItems;
    TokensOfJoined(words, seps);
    ReadsValid(kind, words, items, 0);
    assert items[..|items|] == items;
  }

  /** The longest run of valid tokens at the front, cut off at thirty-two. */
  ghost predicate LongestValid(kind: ElemKind, tokens: seq<string>, items: seq<Elem>) {
    var n := |items|;
    && n <= |tokens| && n <= 32
    && (forall i :: 0 <= i < n ==> ElemWord(kind, tokens[i], items[i]))
    && (n == |tokens| || n == 32 || forall e :: !ElemWord(kind, tokens[n], e))
  }

  /** What is read of any list: its longest valid front, to the end or not. */
  lemma {:induction false} ReadsLongest(kind: ElemKind, tokens: seq<string>, items: seq<Elem>, idx: nat)
    requires idx <= |items| && LongestValid(kind, tokens, items)
    ensures ReadItems(kind, tokens[idx..], idx) == ListReading(items[idx..], |items| == |tokens|)
    decreases |items| - idx
  {
    hide ReadElem, ElemWord;
    var rest := tokens[idx..];
    if idx < |items| {
      ElemExactly(kind, tokens[idx], items[idx]);
      ReadsLongest(kind, tokens, items, idx + 1);
      assert rest[0] == tokens[idx] && rest[1..] == tokens[idx + 1..];
      assert items[idx..] == [items[idx]] + items[idx + 1..];
    } else if idx < |tokens| {
      assert rest[0] == tokens[idx];
      NoElem(kind, tokens[idx]);
    }
  }

  // ---- Printing ----

  /** `%d` of an unsigned 32-bit value shows it as a signed one. */
  function AsInt32(n: int): (r: int)
    ensures INT_MIN <= r <= INT_MAX
  {
    (n + 0x8000_0000) % 0x1_0000_0000 - 0x8000_0000
  }

  function ShowElem(e: Elem): string {
    match e
    case B(b) => ShowBool(b)
    case U(u) => DecInt(AsInt32(u))
    case I(i) => DecInt(i)
  }

  /** An unsigned element comes back exactly when it is not above INT_MAX: beyond that it is printed
      negative, and read as a 64-bit number out of range. */
  lemma UintElemIsRead(u: nat)
    requires u <= UINT_MAX
    ensures ReadElem(UintElem, ShowElem(U(u))) == Some(U(u)) <==> u <= INT_MAX
  {
    hide DecInt, Strtoul;
    StrtoulOfDecInt(AsInt32(u));
  }

  lemma ElemIsRead(kind: ElemKind, e: Elem)
    requires ElemFits(kind, e) && (e.U? ==> e.u <= INT_MAX)
    ensures ReadElem(kind, ShowElem(e)) == Some(e)
  {
    hide DecInt, Strtoul, Strtol;
    match e
    case B(b) => BoolIsRead(b);
    case U(u) => UintElemIsRead(u);
    case I(i) => StrtolOfDecInt(i);
  }

  predicate NumberChar(c: char) {
    c == '-' || DigitOf(c) < 10
  }

  lemma DecIntChars(n: int)
    ensures DecInt(n) != [] && forall c :: c in DecInt(n) ==> NumberChar(c)
  {
    hide Dec;
  }

  lemma ElemIsWord(e: Elem)
    ensures IsWord(ShowElem(e)) && ']' !in ShowElem(e) && '=' !in ShowElem(e) && '\n' !in ShowElem(e)
  {
    hide DecInt;
    match e
    case B(b) =>
    case U(u) => DecIntChars(AsInt32(u));
    case I(i) => DecIntChars(i);
  }
}
