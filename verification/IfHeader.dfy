/** The If header of a request: its tokens, its grammar, and the parser, which is proved to
    accept exactly that grammar and to give each list the nearest tag before it. */
module IfHeader {
  import opened Options
  import opened LockTable

  datatype IfList = IfList(resourceTag: string, conditions: seq<Condition>)

  // ---------------------------------------------------------------- tokens

  datatype Token = ErrToken | EofToken | Word(text: string) | NotToken | Angle(text: string) | Square(text: string)
                 | Mark(c: char)

  predicate IsBlank(c: char) {
    c == '\t' || c == ' '
  }

  predicate IsDelimiter(c: char) {
    c in "\t ()<>[]"
  }

  function SkipBlanks(s: string): (r: string)
    ensures |r| <= |s| && (r != "" ==> !IsBlank(r[0]))
  {
    if s != "" && IsBlank(s[0]) then SkipBlanks(s[1..]) else s
  }

  /** The length of the longest prefix without a delimiter. */
  function WordLength(s: string): (n: nat)
    ensures n <= |s| && (forall i :: 0 <= i < n ==> !IsDelimiter(s[i]))
    ensures n < |s| ==> IsDelimiter(s[n])
  {
    if s == "" || IsDelimiter(s[0]) then 0 else 1 + WordLength(s[1..])
  }

  /** strings.IndexByte. */
  function IndexOf(s: string, c: char): (j: int)
    ensures -1 <= j < |s|
    ensures j >= 0 ==> s[j] == c && c !in s[..j]
    ensures j < 0 ==> c !in s
  {
    if s == "" then -1
    else if s[0] == c then 0
    else
      var j := IndexOf(s[1..], c);
      if j < 0 then -1 else j + 1
  }

  function TokenAt(s: string): (Token, string)
    requires s != "" && !IsBlank(s[0])
  {
    var n := WordLength(s);
    if n != 0 then (if s[..n] == "Not" then NotToken else Word(s[..n]), s[n..])
    else if s[0] == '<' || s[0] == '[' then
      var j := IndexOf(s, if s[0] == '<' then '>' else ']');
      if j < 0 then (ErrToken, "")
      else (if s[0] == '<' then Angle(s[1..j]) else Square(s[1..j]), s[j + 1..])
    else (Mark(s[0]), s[1..])
  }

  /** The next token and what remains; it is what the lexer below computes. */
  function LexSpec(s: string): (r: (Token, string))
    ensures !r.0.EofToken? ==> |r.1| < |s|
  {
    var t := SkipBlanks(s);
    if t == "" then (EofToken, "") else TokenAt(t)
  }

  method Lex(s0: string) returns (t: Token, remaining: string)
    ensures (t, remaining) == LexSpec(s0)
  {
    var s := s0;
    while |s| > 0 && IsBlank(s[0])
      invariant SkipBlanks(s) == SkipBlanks(s0)
    {
      s := s[1..];
    }
    if |s| == 0 {
      return EofToken, "";
    }
    var i := 0;
    while i < |s|
      invariant 0 <= i <= |s| && i + WordLength(s[i..]) == WordLength(s)
    {
      if IsDelimiter(s[i]) {
        break;
      }
      assert s[i..][1..] == s[i + 1..];
      i := i + 1;
    }
    if i != 0 {
      if s[..i] == "Not" {
        return NotToken, s[i..];
      }
      return Word(s[..i]), s[i..];
    }
    if s[0] != '<' && s[0] != '[' {
      return Mark(s[0]), s[1..];
    }
    var j := IndexOf(s, if s[0] == '<' then '>' else ']');
    if j < 0 {
      return ErrToken, "";
    }
    return if s[0] == '<' then Angle(s[1..j]) else Square(s[1..j]), s[j + 1..];
  }

  /** All the tokens of a text. Nothing follows an error. */
  function Tokens(s: string): seq<Token>
    decreases |s|
  {
    var (t, rest) := LexSpec(s);
    if t.EofToken? then [] else [t] + if t.ErrToken? then [] else Tokens(rest)
  }

  // ---------------------------------------------------------------- the grammar

  /** One condition as written: a word, a token in angle brackets or an entity tag in square ones. */
  datatype CondForm = CondForm(negated: bool, state: Token)

  datatype Item = Tag(text: string) | List(conds: seq<CondForm>)

  datatype HeaderForm = Untagged(lists: seq<seq<CondForm>>) | Tagged(items: seq<Item>)

  predicate IsState(t: Token) {
    t.Word? || t.Angle? || t.Square?
  }

  predicate ListOk(conds: seq<CondForm>) {
    conds != [] && forall c <- conds :: IsState(c.state)
  }

  /** Lists with tags between them, but no two tags together and none at the end. */
  predicate ItemsOk(items: seq<Item>, afterTag: bool) {
    items != [] &&
    match items[0]
    case Tag(_) => !afterTag && ItemsOk(items[1..], true)
    case List(conds) => ListOk(conds) && (|items| == 1 || ItemsOk(items[1..], false))
  }

  predicate FormOk(f: HeaderForm) {
    match f
    case Untagged(lists) => lists != [] && forall l <- lists :: ListOk(l)
    case Tagged(items) => items != [] && items[0].Tag? && ItemsOk(items, false)
  }

  function CondTokens(c: CondForm): seq<Token> {
    if c.negated then [NotToken, c.state] else [c.state]
  }

  function CondsTokens(conds: seq<CondForm>): seq<Token> {
    if conds == [] then [] else CondTokens(conds[0]) + CondsTokens(conds[1..])
  }

  function ListTokens(conds: seq<CondForm>): seq<Token> {
    [Mark('(')] + CondsTokens(conds) + [Mark(')')]
  }

  function ItemsTokens(items: seq<Item>): seq<Token> {
    if items == [] then []
    else (match items[0] case Tag(t) => [Angle(t)] case List(conds) => ListTokens(conds)) + ItemsTokens(items[1..])
  }

  function AsItems(lists: seq<seq<CondForm>>): (items: seq<Item>)
    ensures |items| == |lists|
  {
    if lists == [] then [] else [List(lists[0])] + AsItems(lists[1..])
  }

  function FormTokens(f: HeaderForm): seq<Token> {
    match f
    case Untagged(lists) => ItemsTokens(AsItems(lists))
    case Tagged(items) => ItemsTokens(items)
  }

  function CondMeaning(c: CondForm): Condition {
    match c.state
    case Word(t) => Condition(c.negated, t, "")
    case Angle(t) => Condition(c.negated, t, "")
    case Square(t) => Condition(c.negated, "", t)
    case _ => Condition(c.negated, "", "")
  }

  function CondsMeaning(conds: seq<CondForm>): (r: seq<Condition>)
    ensures |r| == |conds|
  {
    if conds == [] then [] else [CondMeaning(conds[0])] + CondsMeaning(conds[1..])
  }

  /** Each list gets the nearest tag before it. */
  function ItemsMeaning(items: seq<Item>, tag: string): seq<IfList> {
    if items == [] then []
    else
      match items[0]
      case Tag(t) => ItemsMeaning(items[1..], t)
      case List(conds) => [IfList(tag, CondsMeaning(conds))] + ItemsMeaning(items[1..], tag)
  }

  function FormMeaning(f: HeaderForm): seq<IfList> {
    match f
    case Untagged(lists) => ItemsMeaning(AsItems(lists), "")
    case Tagged(items) => ItemsMeaning(items, "")
  }

  // ---------------------------------------------------------------- reading tokens

  function ReadCond(ts: seq<Token>): (r: Option<(CondForm, seq<Token>)>)
    ensures r.Some? ==> |r.value.1| < |ts|
  {
    var negated := ts != [] && ts[0].NotToken?;
    var us := if negated then ts[1..] else ts;
    if us != [] && IsState(us[0]) then Some((CondForm(negated, us[0]), us[1..])) else None
  }

  /** Conditions up to the closing parenthesis. */
  function ReadConds(ts: seq<Token>): (r: Option<(seq<CondForm>, seq<Token>)>)
    ensures r.Some? ==> |r.value.1| < |ts|
    decreases |ts|
  {
    if ts != [] && ts[0] == Mark(')') then Some(([], ts[1..]))
    else
      match ReadCond(ts)
      case None => None
      case Some((c, us)) =>
        match ReadConds(us)
        case None => None
        case Some((cs, vs)) => Some(([c] + cs, vs))
  }

  function ReadList(ts: seq<Token>): (r: Option<(seq<CondForm>, seq<Token>)>)
    ensures r.Some? ==> |r.value.1| < |ts|
  {
    if ts == [] || ts[0] != Mark('(') then None
    else
      match ReadConds(ts[1..])
      case None => None
      case Some((cs, us)) => if cs == [] then None else Some((cs, us))
  }

  function ReadLists(ts: seq<Token>): Option<seq<seq<CondForm>>>
    decreases |ts|
  {
    match ReadList(ts)
    case None => None
    case Some((cs, us)) =>
      if us == [] then Some([cs])
      else
        match ReadLists(us)
        case None => None
        case Some(ls) => Some([cs] + ls)
  }

  function ReadItems(ts: seq<Token>, afterTag: bool): Option<seq<Item>>
    decreases |ts|
  {
    if ts == [] then None
    else if ts[0].Angle? then
      if afterTag then None
      else
        match ReadItems(ts[1..], true)
        case None => None
        case Some(items) => Some([Tag(ts[0].text)] + items)
    else
      match ReadList(ts)
      case None => None
      case Some((cs, us)) =>
        if us == [] then Some([List(cs)])
        else
          match ReadItems(us, false)
          case None => None
          case Some(items) => Some([List(cs)] + items)
  }

  function ReadHeader(ts: seq<Token>): Option<HeaderForm> {
    if ts == [] then None
    else if ts[0] == Mark('(') then
      match ReadLists(ts) case None => None case Some(ls) => Some(Untagged(ls))
    else if ts[0].Angle? then
      match ReadItems(ts, false) case None => None case Some(items) => Some(Tagged(items))
    else None
  }

  // ---------------------------------------------------------------- the reader accepts the grammar

  lemma {:induction false} ReadCondsSound(ts: seq<Token>)
    ensures var r := ReadConds(ts);
      r.Some? ==> ts == CondsTokens(r.value.0) + [Mark(')')] + r.value.1 && forall c <- r.value.0 :: IsState(c.state)
    decreases |ts|
  {
    var r := ReadConds(ts);
    if r.Some? && r.value.0 != [] {
      var (c, us) := ReadCond(ts).value;
      ReadCondsSound(us);
      assert ts == CondTokens(c) + us;
      assert r.value.0[1..] == ReadConds(us).value.0;
    }
  }

  lemma {:induction false} ReadCondsComplete(conds: seq<CondForm>, rest: seq<Token>)
    requires forall c <- conds :: IsState(c.state)
    ensures ReadConds(CondsTokens(conds) + [Mark(')')] + rest) == Some((conds, rest))
  {
    var ts := CondsTokens(conds) + [Mark(')')] + rest;
    if conds != [] {
      var us := CondsTokens(conds[1..]) + [Mark(')')] + rest;
      assert ts == CondTokens(conds[0]) + us;
      assert IsState(conds[0].state);
      ReadCondsComplete(conds[1..], rest);
      assert ReadCond(ts).value.1 == us;
      assert [conds[0]] + conds[1..] == conds;
    } else {
      assert ts[1..] == rest;
    }
  }

  lemma ReadListSound(ts: seq<Token>)
    ensures var r := ReadList(ts); r.Some? ==> ts == ListTokens(r.value.0) + r.value.1 && ListOk(r.value.0)
  {
    if ReadList(ts).Some? {
      ReadCondsSound(ts[1..]);
    }
  }

  lemma ReadListComplete(conds: seq<CondForm>, rest: seq<Token>)
    requires ListOk(conds)
    ensures ReadList(ListTokens(conds) + rest) == Some((conds, rest))
  {
    ReadCondsComplete(conds, rest);
    assert (ListTokens(conds) + rest)[1..] == CondsTokens(conds) + [Mark(')')] + rest;
  }

  lemma {:induction false} ReadItemsSound(ts: seq<Token>, afterTag: bool)
    ensures var r := ReadItems(ts, afterTag); r.Some? ==> ts == ItemsTokens(r.value) && ItemsOk(r.value, afterTag)
    decreases |ts|
  {
    var r := ReadItems(ts, afterTag);
    if r.Some? {
      if ts[0].Angle? {
        ReadItemsSound(ts[1..], true);
        assert r.value[1..] == ReadItems(ts[1..], true).value;
      } else {
        ReadListSound(ts);
        var (cs, us) := ReadList(ts).value;
        if us != [] {
          ReadItemsSound(us, false);
          assert r.value[1..] == ReadItems(us, false).value;
        } else {
          assert ItemsTokens(r.value[1..]) == [];
        }
      }
    }
  }

  lemma {:induction false} ReadItemsComplete(items: seq<Item>, afterTag: bool)
    requires ItemsOk(items, afterTag)
    ensures ReadItems(ItemsTokens(items), afterTag) == Some(items) && ItemsTokens(items) != []
    decreases |items|
  {
    var rest := items[1..];
    assert items == [items[0]] + rest;
    match items[0]
    case Tag(t) =>
      ReadItemsComplete(rest, true);
      assert ItemsTokens(items)[1..] == ItemsTokens(rest);
    case List(conds) =>
      ReadListComplete(conds, ItemsTokens(rest));
      if rest != [] {
        ReadItemsComplete(rest, false);
      } else {
        assert items == [List(conds)];
      }
  }

  /** Without a tag, items are lists, and reading lists is reading items. */
  lemma {:induction false} ReadListsAsItems(ts: seq<Token>)
    ensures var r := ReadLists(ts);
      r.Some? ==> r.value != [] && (forall l <- r.value :: ListOk(l)) && ts == ItemsTokens(AsItems(r.value))
    decreases |ts|
  {
    var r := ReadLists(ts);
    if r.Some? {
      ReadListSound(ts);
      var (cs, us) := ReadList(ts).value;
      if us != [] {
        ReadListsAsItems(us);
        assert r.value[1..] == ReadLists(us).value;
      }
      assert AsItems(r.value)[1..] == AsItems(r.value[1..]);
    }
  }

  lemma {:induction false} ReadListsComplete(lists: seq<seq<CondForm>>)
    requires lists != [] && forall l <- lists :: ListOk(l)
    ensures ReadLists(ItemsTokens(AsItems(lists))) == Some(lists) && ItemsTokens(AsItems(lists)) != []
  {
    var rest := lists[1..];
    assert lists == [lists[0]] + rest && ListOk(lists[0]);
    assert AsItems(lists)[1..] == AsItems(rest);
    ReadListComplete(lists[0], ItemsTokens(AsItems(rest)));
    if rest != [] {
      ReadListsComplete(rest);
    } else {
      assert lists == [lists[0]];
    }
  }

  /** The reader finds a form exactly when the tokens spell one, and it finds that one. */
  lemma ReadHeaderIff(ts: seq<Token>, f: HeaderForm)
    ensures ReadHeader(ts) == Some(f) <==> FormOk(f) && FormTokens(f) == ts
  {
    if ReadHeader(ts) == Some(f) {
      if ts[0].Angle? {
        ReadItemsSound(ts, false);
      } else {
        ReadListsAsItems(ts);
      }
    }
    if FormOk(f) && FormTokens(f) == ts {
      match f
      case Untagged(lists) => ReadListsComplete(lists);
      case Tagged(items) => ReadItemsComplete(items, false);
    }
  }

  // ---------------------------------------------------------------- the parser

  /** Nothing blank at the end: what trimming the header makes sure of. */
  predicate EndsWell(s: string) {
    s == "" || !IsBlank(s[|s| - 1])
  }

  lemma {:induction false} SkipBlanksEnds(s: string)
    requires EndsWell(s)
    ensures EndsWell(SkipBlanks(s)) && (s != "" ==> SkipBlanks(s) != "")
  {
    if s != "" && IsBlank(s[0]) {
      SkipBlanksEnds(s[1..]);
    }
  }

  /** Reading on from a text that ends well leaves one that does, and finds a token if there is
      any text. */
  lemma LexEnds(s: string)
    requires EndsWell(s)
    ensures EndsWell(LexSpec(s).1) && (LexSpec(s).0.EofToken? <==> s == "")
    ensures (Tokens(s) == []) <==> s == ""
  {
    SkipBlanksEnds(s);
  }

  lemma TokensStep(s: string)
    requires EndsWell(s)
    ensures s == "" <==> Tokens(s) == []
    ensures s != "" ==> Tokens(s)[0] == LexSpec(s).0
    ensures s != "" && !LexSpec(s).0.ErrToken? ==> Tokens(s)[1..] == Tokens(LexSpec(s).1) && EndsWell(LexSpec(s).1)
    ensures LexSpec(s).0.EofToken? <==> s == ""
  {
    LexEnds(s);
  }

  method ParseCondition(s0: string) returns (ok: bool, c: Condition, remaining: string)
    requires EndsWell(s0)
    ensures ok == ReadCond(Tokens(s0)).Some?
    ensures ok ==> c == CondMeaning(ReadCond(Tokens(s0)).value.0) && Tokens(remaining) == ReadCond(Tokens(s0)).value.1
    ensures ok ==> EndsWell(remaining) && |remaining| < |s0|
  {
    hide LexSpec, Tokens;
    TokensStep(s0);
    var t, s := Lex(s0);
    var negated := false;
    if t.NotToken? {
      negated := true;
      TokensStep(s);
      t, s := Lex(s);
    }
    match t
    case Word(text) => return true, Condition(negated, text, ""), s;
    case Angle(text) => return true, Condition(negated, text, ""), s;
    case Square(text) => return true, Condition(negated, "", text), s;
    case _ => return false, Condition(false, "", ""), "";
  }

  /** What is left to read, with what has been read put in front. */
  function Prepend(cs: seq<CondForm>, r: Option<(seq<CondForm>, seq<Token>)>): Option<(seq<CondForm>, seq<Token>)> {
    match r
    case None => None
    case Some((ds, rest)) => Some((cs + ds, rest))
  }

  /** One condition more is read: what is read in all stays the same. */
  lemma ReadCondsStep(forms: seq<CondForm>, ts: seq<Token>)
    requires ts == [] || ts[0] != Mark(')')
    ensures var r := ReadCond(ts);
      && (r.None? ==> ReadConds(ts).None?)
      && (r.Some? ==> Prepend(forms, ReadConds(ts)) == Prepend(forms + [r.value.0], ReadConds(r.value.1))
                      && CondsMeaning(forms + [r.value.0]) == CondsMeaning(forms) + [CondMeaning(r.value.0)])
  {
    var r := ReadCond(ts);
    if r.Some? {
      CondsMeaningAppend(forms, r.value.0);
      var rest := ReadConds(r.value.1);
      if rest.Some? {
        assert forms + [r.value.0] + rest.value.0 == forms + ([r.value.0] + rest.value.0);
      }
    }
  }

  lemma {:induction false} CondsMeaningAppend(forms: seq<CondForm>, form: CondForm)
    ensures CondsMeaning(forms + [form]) == CondsMeaning(forms) + [CondMeaning(form)]
  {
    if forms == [] {
    } else {
      CondsMeaningAppend(forms[1..], form);
      assert (forms + [form])[1..] == forms[1..] + [form];
    }
  }

  method ParseList(s0: string) returns (ok: bool, conditions: seq<Condition>, remaining: string)
    requires EndsWell(s0)
    ensures ok == ReadList(Tokens(s0)).Some?
    ensures ok ==> conditions == CondsMeaning(ReadList(Tokens(s0)).value.0)
    ensures ok ==> Tokens(remaining) == ReadList(Tokens(s0)).value.1
    ensures ok ==> EndsWell(remaining) && |remaining| < |s0|
  {
    hide LexSpec, Tokens, ReadCond, CondsMeaning, EndsWell;
    TokensStep(s0);
    var t, s := Lex(s0);
    if t != Mark('(') {
      return false, [], "";
    }
    conditions := [];
    ghost var forms: seq<CondForm> := [];
    ghost var whole := ReadConds(Tokens(s));
    NothingRead(whole);
    while true
      invariant EndsWell(s) && |s| < |s0|
      invariant conditions == CondsMeaning(forms)
      invariant Prepend(forms, ReadConds(Tokens(s))) == whole
      decreases |s|
    {
      TokensStep(s);
      t, remaining := Lex(s);
      if t == Mark(')') {
        assert forms + [] == forms;
        return |conditions| != 0, conditions, remaining;
      }
      ReadCondsStep(forms, Tokens(s));
      var found, c, after := ParseCondition(s);
      if !found {
        return false, [], "";
      }
      forms := forms + [ReadCond(Tokens(s)).value.0];
      conditions, s := conditions + [c], after;
    }
  }

  lemma NothingRead(r: Option<(seq<CondForm>, seq<Token>)>)
    ensures Prepend([], r) == r && CondsMeaning([]) == []
  {
    if r.Some? {
      assert [] + r.value.0 == r.value.0;
    }
  }

  /** The lists that items mean, after those already read. */
  function After(lists: seq<IfList>, items: Option<seq<Item>>, tag: string): Option<seq<IfList>> {
    match items
    case None => None
    case Some(more) => Some(lists + ItemsMeaning(more, tag))
  }

  function ListsAsItems(ls: Option<seq<seq<CondForm>>>): Option<seq<Item>> {
    match ls
    case None => None
    case Some(lists) => Some(AsItems(lists))
  }

  lemma AfterList(lists: seq<IfList>, conds: seq<CondForm>, items: seq<Item>, tag: string)
    ensures lists + ItemsMeaning([List(conds)] + items, tag)
         == lists + [IfList(tag, CondsMeaning(conds))] + ItemsMeaning(items, tag)
    ensures ItemsMeaning([List(conds)], tag) == [IfList(tag, CondsMeaning(conds))]
  {
    assert ([List(conds)] + items)[1..] == items;
    assert ItemsMeaning([List(conds)], tag) == [IfList(tag, CondsMeaning(conds))] + ItemsMeaning([], tag);
  }

  lemma ReadListsStep(lists: seq<IfList>, ts: seq<Token>)
    ensures var r := ReadList(ts);
      var whole := After(lists, ListsAsItems(ReadLists(ts)), "");
      && (r.None? ==> whole.None?)
      && (r.Some? ==>
            var more := lists + [IfList("", CondsMeaning(r.value.0))];
            whole == if r.value.1 == [] then Some(more) else After(more, ListsAsItems(ReadLists(r.value.1)), ""))
  {
    var r := ReadList(ts);
    if r.Some? {
      var (conds, us) := r.value;
      AfterList(lists, conds, [], "");
      assert AsItems([conds]) == [List(conds)];
      if us != [] && ReadLists(us).Some? {
        var ls := ReadLists(us).value;
        assert ([conds] + ls)[1..] == ls;
        AfterList(lists, conds, AsItems(ls), "");
      }
    }
  }

  method ParseNoTagLists(s0: string) returns (h: Option<seq<IfList>>)
    requires EndsWell(s0)
    ensures h == After([], ListsAsItems(ReadLists(Tokens(s0))), "")
  {
    hide Tokens, ReadList, ReadLists, EndsWell, After, CondsMeaning;
    var lists: seq<IfList> := [];
    var s := s0;
    while true
      invariant EndsWell(s)
      invariant After(lists, ListsAsItems(ReadLists(Tokens(s))), "")
             == After([], ListsAsItems(ReadLists(Tokens(s0))), "")
      decreases |s|
    {
      ReadListsStep(lists, Tokens(s));
      var ok, conditions, remaining := ParseList(s);
      if !ok {
        return None;
      }
      TokensStep(remaining);
      lists := lists + [IfList("", conditions)];
      if remaining == "" {
        return Some(lists);
      }
      s := remaining;
    }
  }

  lemma ReadItemsStep(lists: seq<IfList>, ts: seq<Token>, afterTag: bool, tag: string)
    ensures var whole := After(lists, ReadItems(ts, afterTag), tag);
      && (ts == [] ==> whole.None?)
      && (ts != [] && ts[0].Angle? ==>
            whole == if afterTag then None else After(lists, ReadItems(ts[1..], true), ts[0].text))
      && (ts != [] && !ts[0].Angle? ==>
            match ReadList(ts)
            case None => whole.None?
            case Some((conds, us)) =>
              var more := lists + [IfList(tag, CondsMeaning(conds))];
              whole == if us == [] then Some(more) else After(more, ReadItems(us, false), tag))
  {
    if ts != [] && ts[0].Angle? && !afterTag && ReadItems(ts[1..], true).Some? {
      var items := ReadItems(ts[1..], true).value;
      assert ([Tag(ts[0].text)] + items)[1..] == items;
    }
    if ts != [] && !ts[0].Angle? && ReadList(ts).Some? {
      var (conds, us) := ReadList(ts).value;
      AfterList(lists, conds, [], tag);
      if us != [] && ReadItems(us, false).Some? {
        AfterList(lists, conds, ReadItems(us, false).value, tag);
      }
    }
  }

  method ParseTaggedLists(s0: string) returns (h: Option<seq<IfList>>)
    requires EndsWell(s0)
    ensures h == After([], ReadItems(Tokens(s0), false), "")
  {
    hide LexSpec, Tokens, ReadItems, EndsWell, After, CondsMeaning;
    var lists: seq<IfList> := [];
    var resourceTag, n, first, s := "", 0, true, s0;
    while true
      invariant EndsWell(s) && n >= 0
      invariant After(lists, ReadItems(Tokens(s), !first && n == 0), resourceTag)
             == After([], ReadItems(Tokens(s0), false), "")
      decreases |s|
    {
      TokensStep(s);
      ReadItemsStep(lists, Tokens(s), !first && n == 0, resourceTag);
      var t, after := Lex(s);
      if t.Angle? {
        if !first && n == 0 {
          return None;
        }
        resourceTag, n, s := t.text, 0, after;
      } else if t == Mark('(') {
        n := n + 1;
        var ok, conditions, remaining := ParseList(s);
        if !ok {
          return None;
        }
        TokensStep(remaining);
        lists := lists + [IfList(resourceTag, conditions)];
        if remaining == "" {
          return Some(lists);
        }
        s := remaining;
      } else {
        return None;
      }
      first := false;
    }
  }

  /** The white space strings.TrimSpace removes. */
  predicate IsSpace(c: char) {
    var i := c as int;
    0x09 <= i <= 0x0D || i == 0x20 || i == 0x85 || i == 0xA0 || i == 0x1680 || 0x2000 <= i <= 0x200A
    || i == 0x2028 || i == 0x2029 || i == 0x202F || i == 0x205F || i == 0x3000
  }

  function TrimLeft(s: string): string {
    if s != "" && IsSpace(s[0]) then TrimLeft(s[1..]) else s
  }

  function TrimRight(s: string): (r: string)
    ensures r == "" || !IsSpace(r[|r| - 1])
  {
    if s != "" && IsSpace(s[|s| - 1]) then TrimRight(s[..|s| - 1]) else s
  }

  function TrimSpace(s: string): (r: string)
    ensures EndsWell(r)
  {
    TrimRight(TrimLeft(s))
  }

  /** The header is accepted exactly when its tokens spell a form of the grammar, and then gives
      what that form means. */
  method ParseIfHeader(httpHeader: string) returns (h: Option<seq<IfList>>)
    ensures h.Some? <==> exists f :: FormOk(f) && FormTokens(f) == Tokens(TrimSpace(httpHeader))
    ensures forall f :: FormOk(f) && FormTokens(f) == Tokens(TrimSpace(httpHeader)) ==> h == Some(FormMeaning(f))
  {
    hide LexSpec, Tokens, ReadItems, ReadLists, FormOk, FormTokens, ItemsMeaning, TrimSpace, EndsWell;
    var s := TrimSpace(httpHeader);
    TokensStep(s);
    var t, _ := Lex(s);
    ghost var ts := Tokens(s);
    forall f
      ensures ReadHeader(ts) == Some(f) <==> FormOk(f) && FormTokens(f) == ts
    {
      ReadHeaderIff(ts, f);
    }
    if t == Mark('(') {
      h := ParseNoTagLists(s);
    } else if t.Angle? {
      h := ParseTaggedLists(s);
    } else {
      h := None;
    }
    if ReadHeader(ts).Some? {
      var f := ReadHeader(ts).value;
      assert FormOk(f) && FormTokens(f) == ts;
      assert [] + FormMeaning(f) == FormMeaning(f);
    }
  }

  // ---------------------------------------------------------------- printing

  /** What a parsed header can be: lists of conditions, each with a token or an entity tag, in
      which the closing bracket of their spelling does not occur. */
  predicate ConditionOk(c: Condition) {
    (c.token == "" || c.etag == "") && '>' !in c.token && ']' !in c.etag
  }

  predicate HeaderOk(h: seq<IfList>) {
    h != [] && forall l <- h ::
      '>' !in l.resourceTag && l.conditions != [] && forall c <- l.conditions :: ConditionOk(c)
  }

  function CondOf(c: Condition): CondForm {
    CondForm(c.negated, if c.etag != "" then Square(c.etag) else Angle(c.token))
  }

  function CondsOf(cs: seq<Condition>): (r: seq<CondForm>)
    ensures |r| == |cs|
  {
    if cs == [] then [] else [CondOf(cs[0])] + CondsOf(cs[1..])
  }

  function ItemsOf(h: seq<IfList>): seq<Item> {
    if h == [] then [] else [Tag(h[0].resourceTag), List(CondsOf(h[0].conditions))] + ItemsOf(h[1..])
  }

  function TokenText(t: Token): string {
    match t
    case Angle(text) => "<" + text + ">"
    case Square(text) => "[" + text + "]"
    case Word(text) => text
    case NotToken => "Not "
    case Mark(c) => [c]
    case _ => ""
  }

  function TokensText(ts: seq<Token>): string {
    if ts == [] then "" else TokenText(ts[0]) + TokensText(ts[1..])
  }

  function ListsOf(h: seq<IfList>): seq<seq<CondForm>> {
    if h == [] then [] else [CondsOf(h[0].conditions)] + ListsOf(h[1..])
  }

  /** Without tags if no list has one, and otherwise with one before every list. */
  function FormOf(h: seq<IfList>): HeaderForm {
    if forall l <- h :: l.resourceTag == "" then Untagged(ListsOf(h)) else Tagged(ItemsOf(h))
  }

  function Print(h: seq<IfList>): string {
    TokensText(FormTokens(FormOf(h)))
  }

  /** Tokens whose texts, put side by side, are read back as these tokens. */
  predicate Separable(t: Token) {
    || t.NotToken?
    || (t.Mark? && (t.c == '(' || t.c == ')'))
    || (t.Angle? && '>' !in t.text)
    || (t.Square? && ']' !in t.text)
  }

  lemma {:induction false} IndexOfMiddle(a: string, c: char, b: string)
    requires c !in a
    ensures IndexOf(a + [c] + b, c) == |a|
  {
    if a == "" {
    } else {
      IndexOfMiddle(a[1..], c, b);
      assert (a + [c] + b)[1..] == a[1..] + [c] + b;
    }
  }

  lemma LexAtBracket(open: char, text: string, close: char, rest: string)
    requires close !in text && (open, close) in {('<', '>'), ('[', ']')}
    ensures LexSpec([open] + text + [close] + rest) == (if open == '<' then Angle(text) else Square(text), rest)
  {
    hide IndexOf;
    var s := [open] + text + [close] + rest;
    IndexOfMiddle([open] + text, close, rest);
    var n := |text| + 1;
    assert SkipBlanks(s) == s && WordLength(s) == 0;
    hide SkipBlanks, WordLength;
    assert s[0] == open && s[1..n] == text && s[n + 1..] == rest;
  }

  lemma LexBracketed(t: Token, rest: string)
    requires Separable(t) && (t.Angle? || t.Square?)
    ensures LexSpec(TokenText(t) + rest) == (t, rest)
  {
    hide LexSpec;
    if t.Angle? {
      LexAtBracket('<', t.text, '>', rest);
      assert TokenText(t) + rest == ['<'] + t.text + ['>'] + rest;
    } else {
      LexAtBracket('[', t.text, ']', rest);
      assert TokenText(t) + rest == ['['] + t.text + [']'] + rest;
    }
  }

  lemma LexNot(rest: string)
    ensures LexSpec("Not " + rest) == (NotToken, " " + rest)
    ensures Tokens(" " + rest) == Tokens(rest)
  {
    var s := "Not " + rest;
    assert s[0] == 'N' && s[1] == 'o' && s[2] == 't' && s[3] == ' ';
    assert WordLength(s[3..]) == 0 && WordLength(s[2..]) == 1 + WordLength(s[2..][1..]);
    assert s[2..][1..] == s[3..] && s[1..][1..] == s[2..];
    assert WordLength(s[1..]) == 2 && WordLength(s) == 3;
    assert s[..3] == "Not" && s[3..] == " " + rest;
    assert (" " + rest)[1..] == rest;
    assert SkipBlanks(" " + rest) == SkipBlanks(rest);
  }

  lemma TokensOfOne(t: Token, rest: string)
    requires Separable(t)
    ensures Tokens(TokenText(t) + rest) == [t] + Tokens(rest)
  {
    hide IndexOf;
    if t.NotToken? {
      LexNot(rest);
    } else if t.Mark? {
      assert (TokenText(t) + rest)[1..] == rest;
    } else {
      LexBracketed(t, rest);
    }
  }

  lemma {:induction false} TokensOfText(ts: seq<Token>)
    requires forall t <- ts :: Separable(t)
    ensures Tokens(TokensText(ts)) == ts
  {
    hide TokenText, Tokens, Separable;
    if ts == [] {
      NoTokens();
    } else {
      assert ts[0] in ts && ts == [ts[0]] + ts[1..];
      TokensOfOne(ts[0], TokensText(ts[1..]));
      TokensOfText(ts[1..]);
    }
  }

  lemma NoTokens()
    ensures Tokens("") == []
  {
  }

  lemma CondOfSpells(c: Condition)
    requires ConditionOk(c)
    ensures CondMeaning(CondOf(c)) == c && IsState(CondOf(c).state)
    ensures forall t <- CondTokens(CondOf(c)) :: Separable(t)
  {
  }

  lemma {:induction false} CondsOfSpells(cs: seq<Condition>)
    requires forall c <- cs :: ConditionOk(c)
    ensures CondsMeaning(CondsOf(cs)) == cs
    ensures forall c <- CondsOf(cs) :: IsState(c.state)
    ensures forall t <- CondsTokens(CondsOf(cs)) :: Separable(t)
  {
    hide ConditionOk, CondOf, CondMeaning, CondTokens, IsState, Separable;
    if cs == [] {
    } else {
      assert cs[0] in cs && cs == [cs[0]] + cs[1..];
      CondOfSpells(cs[0]);
      CondsOfSpells(cs[1..]);
      assert CondsOf(cs)[1..] == CondsOf(cs[1..]);
    }
  }

  lemma {:induction false} ItemsOfSpells(h: seq<IfList>, tag: string)
    requires forall l <- h :: '>' !in l.resourceTag && l.conditions != [] && forall c <- l.conditions :: ConditionOk(c)
    ensures h != [] ==> ItemsOk(ItemsOf(h), false)
    ensures ItemsMeaning(ItemsOf(h), tag) == h
    ensures forall t <- ItemsTokens(ItemsOf(h)) :: Separable(t)
  {
    if h == [] {
    } else {
      var l, rest := h[0], h[1..];
      assert h == [l] + rest;
      CondsOfSpells(l.conditions);
      ItemsOfSpells(rest, l.resourceTag);
      var items := ItemsOf(h);
      assert items[1..] == [List(CondsOf(l.conditions))] + ItemsOf(rest);
      assert items[1..][1..] == ItemsOf(rest);
      assert l == IfList(l.resourceTag, CondsMeaning(CondsOf(l.conditions)));
    }
  }

  lemma {:induction false} ListsOfSpells(h: seq<IfList>)
    requires forall l <- h :: l.resourceTag == "" && l.conditions != [] && forall c <- l.conditions :: ConditionOk(c)
    ensures |ListsOf(h)| == |h| && forall l <- ListsOf(h) :: ListOk(l)
    ensures ItemsMeaning(AsItems(ListsOf(h)), "") == h
    ensures forall t <- ItemsTokens(AsItems(ListsOf(h))) :: Separable(t)
  {
    if h == [] {
    } else {
      var l, rest := h[0], h[1..];
      assert h == [l] + rest;
      CondsOfSpells(l.conditions);
      ListsOfSpells(rest);
      assert ListsOf(h)[1..] == ListsOf(rest);
      assert AsItems(ListsOf(h))[1..] == AsItems(ListsOf(rest));
      assert l == IfList("", CondsMeaning(CondsOf(l.conditions)));
    }
  }

  lemma FormOfSpells(h: seq<IfList>)
    requires HeaderOk(h)
    ensures FormOk(FormOf(h)) && FormMeaning(FormOf(h)) == h
    ensures forall t <- FormTokens(FormOf(h)) :: Separable(t)
  {
    if forall l <- h :: l.resourceTag == "" {
      ListsOfSpells(h);
    } else {
      ItemsOfSpells(h, "");
    }
  }

  lemma {:induction false} TextOfMore(ts: seq<Token>, us: seq<Token>)
    ensures TokensText(ts + us) == TokensText(ts) + TokensText(us)
  {
    hide TokenText;
    if ts == [] {
      assert ts + us == us;
    } else {
      TextOfMore(ts[1..], us);
      assert (ts + us)[1..] == ts[1..] + us;
      var a, b, c := TokenText(ts[0]), TokensText(ts[1..]), TokensText(us);
      assert a + (b + c) == a + b + c;
    }
  }

  /** Items that end with a list end with a closing parenthesis. */
  lemma {:induction false} ItemsEndClosed(items: seq<Item>)
    requires items != [] && items[|items| - 1].List?
    ensures var ts := ItemsTokens(items); ts != [] && ts[|ts| - 1] == Mark(')')
  {
    if |items| == 1 {
      assert ItemsTokens(items) == ListTokens(items[0].conds) + ItemsTokens(items[1..]);
    } else {
      ItemsEndClosed(items[1..]);
    }
  }

  lemma {:induction false} ItemsOkEndsWithList(items: seq<Item>, afterTag: bool)
    requires ItemsOk(items, afterTag)
    ensures items[|items| - 1].List?
    decreases |items|
  {
    if |items| <= 1 {
    } else {
      ItemsOkEndsWithList(items[1..], items[0].Tag?);
    }
  }

  lemma {:induction false} AsItemsAreLists(lists: seq<seq<CondForm>>)
    ensures forall i <- AsItems(lists) :: i.List?
  {
    if lists == [] {
    } else {
      AsItemsAreLists(lists[1..]);
    }
  }

  /** A printed header has nothing to trim. */
  lemma PrintIsTrim(f: HeaderForm)
    requires FormOk(f)
    ensures TrimSpace(TokensText(FormTokens(f))) == TokensText(FormTokens(f))
  {
    var ts := FormTokens(f);
    match f {
      case Untagged(lists) =>
        AsItemsAreLists(lists);
        ItemsEndClosed(AsItems(lists));
      case Tagged(items) =>
        ItemsOkEndsWithList(items, false);
        ItemsEndClosed(items);
    }
    assert ts[0] == Mark('(') || ts[0].Angle?;
    ClosedTextIsTrim(ts);
  }

  lemma ClosedTextIsTrim(ts: seq<Token>)
    requires |ts| > 0 && ts[|ts| - 1] == Mark(')') && (ts[0] == Mark('(') || ts[0].Angle?)
    ensures TrimSpace(TokensText(ts)) == TokensText(ts)
  {
    hide TokensText, TokenText;
    var n := |ts| - 1;
    var text := TokensText(ts);
    assert ts == ts[..n] + [Mark(')')];
    TextOfMore(ts[..n], [Mark(')')]);
    CloseText();
    assert text[|text| - 1] == ')';
    OpenText(ts);
    NothingToTrim(text);
  }

  lemma OpenText(ts: seq<Token>)
    requires ts != [] && (ts[0] == Mark('(') || ts[0].Angle?)
    ensures TokensText(ts) != "" && !IsSpace(TokensText(ts)[0])
  {
    var text := TokenText(ts[0]);
    assert text[0] == '(' || text[0] == '<';
  }

  lemma CloseText()
    ensures TokensText([Mark(')')]) == ")"
  {
  }

  lemma NothingToTrim(s: string)
    requires s != "" && !IsSpace(s[0]) && !IsSpace(s[|s| - 1])
    ensures TrimSpace(s) == s
  {
  }

  /** Printing and parsing undo each other: every header that can be a result of the parser is
      printed as a text from which the parser gets it back. */
  lemma RoundTrip(h: seq<IfList>)
    requires HeaderOk(h)
    ensures FormOk(FormOf(h)) && FormTokens(FormOf(h)) == Tokens(TrimSpace(Print(h)))
    ensures FormMeaning(FormOf(h)) == h
  {
    FormOfSpells(h);
    PrintIsTrim(FormOf(h));
    TokensOfText(FormTokens(FormOf(h)));
  }

  // ---------------------------------------------------------------- what a result can be

  /** The closing bracket of its spelling does not occur in a token. */
  predicate Closed(t: Token) {
    match t
    case Word(text) => '>' !in text && ']' !in text
    case Angle(text) => '>' !in text
    case Square(text) => ']' !in text
    case _ => true
  }

  lemma {:induction false} TokensAreClosed(s: string)
    ensures forall t <- Tokens(s) :: Closed(t)
    decreases |s|
  {
    var (t, rest) := LexSpec(s);
    if !t.EofToken? && !t.ErrToken? {
      TokensAreClosed(rest);
    }
  }

  lemma {:induction false} CondsMeaningOk(conds: seq<CondForm>)
    requires (forall c <- conds :: IsState(c.state)) && forall t <- CondsTokens(conds) :: Closed(t)
    ensures forall c <- CondsMeaning(conds) :: ConditionOk(c)
  {
    if conds == [] {
    } else {
      assert IsState(conds[0].state) && conds[0].state in CondsTokens(conds);
      CondsMeaningOk(conds[1..]);
    }
  }

  lemma {:induction false} ItemsMeaningOk(items: seq<Item>, afterTag: bool, tag: string)
    requires ItemsOk(items, afterTag) && '>' !in tag && forall t <- ItemsTokens(items) :: Closed(t)
    ensures HeaderOk(ItemsMeaning(items, tag))
    decreases |items|
  {
    var rest := items[1..];
    match items[0]
    case Tag(text) =>
      assert Angle(text) in ItemsTokens(items);
      ItemsMeaningOk(rest, true, text);
    case List(conds) =>
      var ts := CondsTokens(conds);
      assert forall t <- ts :: t in ListTokens(conds);
      CondsMeaningOk(conds);
      if rest != [] {
        ItemsMeaningOk(rest, false, tag);
      }
  }

  lemma {:induction false} ListsAreItemsOk(lists: seq<seq<CondForm>>)
    requires lists != [] && forall l <- lists :: ListOk(l)
    ensures ItemsOk(AsItems(lists), false)
  {
    assert ListOk(lists[0]);
    assert AsItems(lists)[1..] == AsItems(lists[1..]);
    if |lists| <= 1 {
    } else {
      ListsAreItemsOk(lists[1..]);
    }
  }

  /** Whatever is accepted has at least one list, every list at least one condition, and all of
      it can be printed: the results of the parser are exactly the headers that are in order. */
  lemma AcceptedIsInOrder(s: string, f: HeaderForm)
    requires FormOk(f) && FormTokens(f) == Tokens(s)
    ensures HeaderOk(FormMeaning(f))
  {
    TokensAreClosed(s);
    match f
    case Untagged(lists) =>
      ListsAreItemsOk(lists);
      ItemsMeaningOk(AsItems(lists), false, "");
    case Tagged(items) =>
      ItemsMeaningOk(items, false, "");
  }

  // ---------------------------------------------------------------- any spelling

  /** A token as it can stand in a header. A word is one without delimiters that is not "Not". */
  predicate Lexical(t: Token) {
    match t
    case Word(text) =>
      text != "" && text != "Not" && forall c <- text :: c !in {' ', '\t', '(', ')', '<', '>', '[', ']'}
    case NotToken => true
    case Angle(text) => '>' !in text
    case Square(text) => ']' !in text
    case Mark(c) => c in "()>]"
    case _ => false
  }

  predicate IsWordLike(t: Token) {
    t.Word? || t.NotToken?
  }

  function Spelling(t: Token): string {
    if t.NotToken? then "Not" else TokenText(t)
  }

  /** The tokens with white space before each and after the last. */
  function Spaced(blanks: seq<string>, ts: seq<Token>): string
    requires |blanks| == |ts| + 1
  {
    if ts == [] then blanks[0] else blanks[0] + (Spelling(ts[0]) + Spaced(blanks[1..], ts[1..]))
  }

  /** White space is needed between two words alone. */
  predicate SpacesOk(blanks: seq<string>, ts: seq<Token>)
    requires |blanks| == |ts| + 1
  {
    && (forall i :: 0 <= i < |blanks| ==> forall c <- blanks[i] :: c in {' ', '\t'})
    && (forall i :: 0 < i < |ts| && IsWordLike(ts[i - 1]) && IsWordLike(ts[i]) ==> blanks[i] != "")
  }

  lemma {:induction false} BlanksSkipped(blanks: string, s: string)
    requires forall c <- blanks :: IsBlank(c)
    ensures SkipBlanks(blanks + s) == SkipBlanks(s)
  {
    if blanks == "" {
      assert blanks + s == s;
    } else {
      assert blanks[0] in blanks && (blanks + s)[1..] == blanks[1..] + s;
      BlanksSkipped(blanks[1..], s);
    }
  }

  lemma {:induction false} WordEnds(w: string, rest: string)
    requires (forall c <- w :: !IsDelimiter(c)) && (rest != "" ==> IsDelimiter(rest[0]))
    ensures WordLength(w + rest) == |w|
  {
    if w == "" {
      assert w + rest == rest;
    } else {
      assert w[0] in w && (w + rest)[1..] == w[1..] + rest;
      WordEnds(w[1..], rest);
    }
  }

  lemma LexWord(t: Token, rest: string)
    requires Lexical(t) && IsWordLike(t) && (rest != "" ==> IsDelimiter(rest[0]))
    ensures LexSpec(Spelling(t) + rest) == (t, rest)
  {
    var w := Spelling(t);
    var s := w + rest;
    WordEnds(w, rest);
    assert !IsBlank(w[0]) && s[..|w|] == w && s[|w|..] == rest && SkipBlanks(s) == s;
    hide WordLength, SkipBlanks;
  }

  lemma LexOther(t: Token, rest: string)
    requires Lexical(t) && !IsWordLike(t)
    ensures LexSpec(Spelling(t) + rest) == (t, rest)
  {
    if t.Mark? {
      assert (Spelling(t) + rest)[1..] == rest;
    } else {
      LexBracketed(t, rest);
    }
  }

  lemma SpacedStarts(blanks: seq<string>, ts: seq<Token>)
    requires |blanks| == |ts| + 1 && SpacesOk(blanks, ts) && (forall t <- ts :: Lexical(t))
    requires ts != [] && IsWordLike(ts[0]) ==> blanks[0] != ""
    ensures var s := Spaced(blanks, ts); s != "" ==> IsDelimiter(s[0])
  {
    if blanks[0] != "" {
      assert blanks[0][0] in blanks[0];
    } else if ts != [] {
      assert ts[0] in ts;
    }
  }

  /** However a header is spaced, its tokens are those that it was made of. */
  lemma {:induction false} SpacedTokens(blanks: seq<string>, ts: seq<Token>)
    requires |blanks| == |ts| + 1 && SpacesOk(blanks, ts) && forall t <- ts :: Lexical(t)
    ensures Tokens(Spaced(blanks, ts)) == ts
    decreases |ts|
  {
    hide Spelling, Lexical, SkipBlanks, TokenAt;
    if ts == [] {
      OnlyBlanks(blanks[0]);
    } else {
      var t, rest := ts[0], Spaced(blanks[1..], ts[1..]);
      assert t in ts && forall u <- ts[1..] :: u in ts;
      assert SpacesOk(blanks[1..], ts[1..]);
      SpacedTokens(blanks[1..], ts[1..]);
      BlanksSkipped(blanks[0], Spelling(t) + rest);
      NoErrorToken(t);
      if IsWordLike(t) {
        SpacedStarts(blanks[1..], ts[1..]);
        LexWord(t, rest);
      } else {
        LexOther(t, rest);
      }
      LexSkips(blanks[0] + (Spelling(t) + rest), Spelling(t) + rest);
      TokensAre(blanks[0] + (Spelling(t) + rest), t, rest);
      assert ts == [t] + ts[1..];
    }
  }

  lemma OnlyBlanks(blanks: string)
    requires forall c <- blanks :: IsBlank(c)
    ensures Tokens(blanks) == []
  {
    BlanksSkipped(blanks, "");
    assert blanks + "" == blanks;
  }

  lemma LexSkips(s: string, t: string)
    requires SkipBlanks(s) == SkipBlanks(t)
    ensures LexSpec(s) == LexSpec(t)
  {
  }

  lemma TokensAre(s: string, t: Token, rest: string)
    requires LexSpec(s) == (t, rest) && !t.EofToken? && !t.ErrToken?
    ensures Tokens(s) == [t] + Tokens(rest)
  {
    hide LexSpec;
  }

  lemma NoErrorToken(t: Token)
    requires Lexical(t)
    ensures !t.EofToken? && !t.ErrToken?
  {
  }

  // ---------------------------------------------------------------- what lists mean

  function ListsBefore(items: seq<Item>, k: nat): nat
    requires k <= |items|
  {
    if k == 0 then 0 else ListsBefore(items, k - 1) + if items[k - 1].List? then 1 else 0
  }

  /** The nearest tag before the k-th item, or the one that there was before all of them. */
  ghost predicate NearestTag(items: seq<Item>, k: nat, tag: string, t: string)
    requires k < |items|
  {
    || (exists i :: 0 <= i < k && items[i] == Tag(t) && forall j :: i < j < k ==> items[j].List?)
    || (t == tag && forall j :: 0 <= j < k ==> items[j].List?)
  }

  /** A word and what stands in angle brackets are state tokens, what stands in square ones is an
      entity tag. */
  predicate Means(form: CondForm, c: Condition) {
    && c.negated == form.negated
    && (form.state.Word? ==> c.token == form.state.text && c.etag == "")
    && (form.state.Angle? ==> c.token == form.state.text && c.etag == "")
    && (form.state.Square? ==> c.etag == form.state.text && c.token == "")
  }

  lemma {:induction false} CondsMean(conds: seq<CondForm>)
    ensures forall i :: 0 <= i < |conds| ==> Means(conds[i], CondsMeaning(conds)[i])
  {
    if conds == [] {
    } else {
      CondsMean(conds[1..]);
    }
  }

  lemma {:induction false} ListsBeforeRest(items: seq<Item>, k: nat)
    requires 0 < k <= |items|
    ensures ListsBefore(items, k) == ListsBefore(items[1..], k - 1) + if items[0].List? then 1 else 0
  {
    if k == 1 {
    } else {
      ListsBeforeRest(items, k - 1);
    }
  }

  lemma NearestInRest(items: seq<Item>, k: nat, tag: string, t: string)
    requires 0 < k < |items| && NearestTag(items, k, tag, t)
    ensures NearestTag(items[1..], k - 1, if items[0].Tag? then items[0].text else tag, t)
  {
    var rest := items[1..];
    if i :| 0 <= i < k && items[i] == Tag(t) && forall j :: i < j < k ==> items[j].List? {
      assert i > 0 ==> rest[i - 1] == Tag(t);
      assert forall j :: i - 1 < j < k - 1 ==> rest[j] == items[j + 1];
    } else {
      assert forall j :: 0 <= j < k - 1 ==> rest[j] == items[j + 1];
    }
  }

  /** Every list, in order, has the nearest tag before it, however many lists share it, and its
      conditions in order. */
  lemma {:induction false} ListGetsNearestTag(items: seq<Item>, tag: string, k: nat, t: string)
    requires k < |items| && items[k].List? && NearestTag(items, k, tag, t)
    ensures var lists, n := ItemsMeaning(items, tag), ListsBefore(items, k);
      && n < |lists| == ListsBefore(items, |items|)
      && lists[n].resourceTag == t && |lists[n].conditions| == |items[k].conds|
      && forall i :: 0 <= i < |items[k].conds| ==> Means(items[k].conds[i], lists[n].conditions[i])
    decreases |items|
  {
    hide Means, NearestTag;
    CountMeaning(items, tag);
    if k == 0 {
      CondsMean(items[0].conds);
      NearestToFirst(items, tag, t);
    } else {
      NearestInRest(items, k, tag, t);
      ListsBeforeRest(items, k);
      ListGetsNearestTag(items[1..], if items[0].Tag? then items[0].text else tag, k - 1, t);
    }
  }

  lemma NearestToFirst(items: seq<Item>, tag: string, t: string)
    requires items != [] && NearestTag(items, 0, tag, t)
    ensures t == tag
  {
  }

  lemma {:induction false} CountMeaning(items: seq<Item>, tag: string)
    ensures |ItemsMeaning(items, tag)| == ListsBefore(items, |items|)
    decreases |items|
  {
    if items == [] {
    } else {
      CountMeaning(items[1..], if items[0].Tag? then items[0].text else tag);
      ListsBeforeRest(items, |items|);
    }
  }

  /** TrimSpace takes off white space at both ends, all of it and nothing else. */
  lemma TrimIs(s: string) returns (before: string, after: string)
    ensures s == before + TrimSpace(s) + after && forall c <- before + after :: IsSpace(c)
    ensures var t := TrimSpace(s); t != "" ==> !IsSpace(t[0]) && !IsSpace(t[|t| - 1])
  {
    var left := TrimLeft(s);
    before := TrimLeftIs(s);
    after := TrimRightIs(left);
    assert s == before + (TrimRight(left) + after);
  }

  lemma {:induction false} TrimLeftIs(s: string) returns (before: string)
    ensures s == before + TrimLeft(s) && forall c <- before :: IsSpace(c)
    ensures TrimLeft(s) != "" ==> !IsSpace(TrimLeft(s)[0])
  {
    before := "";
    if s == "" || !IsSpace(s[0]) {
      assert s == "" + s;
    } else {
      var more := TrimLeftIs(s[1..]);
      before := [s[0]] + more;
      assert s == [s[0]] + s[1..];
    }
  }

  lemma {:induction false} TrimRightIs(s: string) returns (after: string)
    ensures s == TrimRight(s) + after && forall c <- after :: IsSpace(c)
  {
    after := "";
    if s == "" || !IsSpace(s[|s| - 1]) {
      assert s == s + "";
    } else {
      var more := TrimRightIs(s[..|s| - 1]);
      after := more + [s[|s| - 1]];
      assert s == s[..|s| - 1] + [s[|s| - 1]];
    }
  }
}
