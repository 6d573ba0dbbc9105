/** The decoder on values, in strict mode: its stack of open elements, of old namespace
    translations and of fences, what Token, Skip and unmarshalInterface do to it, and what every
    sequence of calls keeps. XmlDecoder is proved to do this with linked stack records. */
module XmlReading {
  import opened Options
  import opened XmlMarkup
  import opened XmlNames
  import opened XmlText

  /** An open element; the translation a prefix had before the element below it; a fence. */
  datatype Frame = StartF(name: Name) | NsF(local: string, url: string, ok: bool) | EofF

  datatype DecodeError = EndOfInput | SyntaxError

  type Namespaces = map<string, string>

  /** The top of the stack is its first frame. After an empty-element tag its end is still to
      be read. An error is met again by every later call; what is left of the input is not read
      any more. */
  datatype Decoding = Decoding(
    tables: Tables,
    input: string,
    toClose: Option<Name>,
    err: Option<DecodeError>,
    ns: Namespaces,
    stack: seq<Frame>)

  function Fresh(tables: Tables, input: string): Decoding {
    Decoding(tables, input, None, None, map[], [])
  }

  // ---------------------------------------------------------------- namespaces

  function Lookup(ns: Namespaces, key: string): string {
    if key in ns then ns[key] else ""
  }

  /** What a prefix stands for. The default namespace is for element names alone. */
  function Translate(ns: Namespaces, defaultSpace: string, n: Name, isElement: bool): Name {
    if n.space == "xmlns" || (n.space == "" && !isElement) then n
    else if n.space == "xml" then Name(if XML_URL in ns then ns[XML_URL] else XML_URL, n.local)
    else if n.space == "" && n.local == "xmlns" then n
    else if n.space in ns then Name(ns[n.space], n.local)
    else if n.space == "" then Name(defaultSpace, n.local)
    else n
  }

  function TranslateAll(ns: Namespaces, defaultSpace: string, attrs: seq<Attr>): seq<Attr> {
    if attrs == [] then []
    else
      [attrs[0].(name := Translate(ns, defaultSpace, attrs[0].name, false))]
      + TranslateAll(ns, defaultSpace, attrs[1..])
  }

  function Bind(d: Decoding, local: string, url: string): Decoding {
    d.(ns := d.ns[local := url], stack := [NsF(local, Lookup(d.ns, local), local in d.ns)] + d.stack)
  }

  function BindAll(d: Decoding, attrs: seq<Attr>): Decoding
    decreases |attrs|
  {
    if attrs == [] then d
    else
      var name := attrs[0].name;
      var b := if name.space == "xmlns" then Bind(d, name.local, attrs[0].value) else d;
      var c := if name.space == "" && name.local == "xmlns" then Bind(b, "", attrs[0].value) else b;
      BindAll(c, attrs[1..])
  }

  /** Takes the undo records off the top of the stack, newest first. */
  function Unbind(ns: Namespaces, stack: seq<Frame>): (Namespaces, seq<Frame>)
    decreases |stack|
  {
    if stack == [] || !stack[0].NsF? then (ns, stack)
    else
      var NsF(local, url, ok) := stack[0];
      Unbind(if ok then ns[local := url] else ns - {local}, stack[1..])
  }

  // ---------------------------------------------------------------- tokens

  function RawToken(d: Decoding): (Decoding, Option<Token>) {
    if d.err.Some? then (d, None)
    else if d.toClose.Some? then (d.(toClose := None), Some(EndElement(d.toClose.value)))
    else if d.input == "" then (d.(err := Some(EndOfInput)), None)
    else
      match ScanToken(d.tables, d.input)
      case None => (d.(err := Some(SyntaxError)), None)
      case Some(Scanned(t, empty, rest)) =>
        (d.(input := rest, toClose := if empty then Some(t.name) else None), Some(t))
  }

  function OpenElement(d: Decoding, defaultSpace: string, name: Name, attrs: seq<Attr>): (Decoding, Token) {
    var b := BindAll(d, attrs);
    var element := Translate(b.ns, defaultSpace, name, true);
    (b.(stack := [StartF(element)] + b.stack), StartElement(element, TranslateAll(b.ns, defaultSpace, attrs)))
  }

  /** popElement: the record on top is gone even where the end tag does not match. */
  function CloseElement(d: Decoding, name: Name): (Decoding, bool) {
    var popped := d.(stack := if d.stack == [] then [] else d.stack[1..]);
    if d.stack == [] || d.stack[0] != StartF(name) then (popped.(err := Some(SyntaxError)), false)
    else
      var (ns, stack) := Unbind(d.ns, popped.stack);
      (popped.(ns := ns, stack := stack), true)
  }

  /** Token. At a fence it reads nothing and says that the input is at its end. */
  function NextToken(d: Decoding, defaultSpace: string): (Decoding, Option<Token>) {
    if d.stack != [] && d.stack[0].EofF? then (d, None)
    else
      var (r, raw) := RawToken(d);
      if raw.None? then (r, None) else TakeToken(r, defaultSpace, raw.value)
  }

  /** What Token does with what was scanned. */
  function TakeToken(d: Decoding, defaultSpace: string, raw: Token): (Decoding, Option<Token>) {
    match raw
    case StartElement(name, attrs) =>
      var (s, t) := OpenElement(d, defaultSpace, name, attrs);
      (s, Some(t))
    case EndElement(name) =>
      var element := Translate(d.ns, defaultSpace, name, true);
      var (s, ok) := CloseElement(d, element);
      (s, if ok then Some(EndElement(element)) else None)
    case _ => (d, Some(raw))
  }

  function Left(d: Decoding): nat {
    2 * |d.input| + if d.toClose.Some? then 1 else 0
  }

  lemma BindAllReadsNothing(d: Decoding, attrs: seq<Attr>)
    ensures var b := BindAll(d, attrs);
      b.tables == d.tables && b.input == d.input && b.toClose == d.toClose && b.err == d.err
    decreases |attrs|
  {
  }

  // ---------------------------------------------------------------- what names mean

  /** An attribute that says what a prefix stands for; the empty prefix is that of the default
      namespace. */
  predicate Declares(a: Attr, prefix: string) {
    a.name == Name("xmlns", prefix) || (prefix == "" && a.name == Name("", "xmlns"))
  }

  /** The last that says so among the attributes of a tag. */
  ghost predicate DeclaredLast(attrs: seq<Attr>, prefix: string, url: string) {
    exists i :: 0 <= i < |attrs| && Declares(attrs[i], prefix) && attrs[i].value == url
      && forall j :: i < j < |attrs| ==> !Declares(attrs[j], prefix)
  }

  /** What a prefix stands for inside a tag is what its tag says last, or else what was outside it. */
  ghost predicate StandsFor(d: Decoding, attrs: seq<Attr>, prefix: string, url: Option<string>) {
    if exists a <- attrs :: Declares(a, prefix) then url.Some? && DeclaredLast(attrs, prefix, url.value)
    else url == if prefix in d.ns then Some(d.ns[prefix]) else None
  }

  ghost predicate Meaning(ns: Namespaces, prefix: string, url: Option<string>) {
    url == if prefix in ns then Some(ns[prefix]) else None
  }

  lemma MeansMore(d: Decoding, c: Decoding, a: Attr, rest: seq<Attr>, prefix: string, url: Option<string>)
    requires StandsFor(c, rest, prefix, url)
    requires if Declares(a, prefix) then Meaning(c.ns, prefix, Some(a.value))
             else forall u :: Meaning(c.ns, prefix, u) ==> Meaning(d.ns, prefix, u)
    ensures StandsFor(d, [a] + rest, prefix, url)
  {
    var attrs := [a] + rest;
    if later :| later in rest && Declares(later, prefix) {
      hide Declares;
      var i :| 0 <= i < |rest| && Declares(rest[i], prefix) && rest[i].value == url.value
        && forall j :: i < j < |rest| ==> !Declares(rest[j], prefix);
      assert attrs[i + 1] == rest[i] && forall j :: i + 1 < j < |attrs| ==> attrs[j] == rest[j - 1];
      assert attrs[i + 1] in attrs;
    } else {
      hide Declares;
      assert Meaning(c.ns, prefix, url);
      assert attrs[0] == a && forall j :: 0 < j < |attrs| ==> attrs[j] == rest[j - 1];
      assert Declares(a, prefix) ==> attrs[0] in attrs;
    }
  }

  lemma {:induction false} BindAllBinds(d: Decoding, attrs: seq<Attr>, prefix: string)
    ensures var ns := BindAll(d, attrs).ns;
      StandsFor(d, attrs, prefix, if prefix in ns then Some(ns[prefix]) else None)
    decreases |attrs|
  {
    if attrs == [] {
    } else {
      hide StandsFor;
      var a, rest := attrs[0], attrs[1..];
      var b := if a.name.space == "xmlns" then Bind(d, a.name.local, a.value) else d;
      var c := if a.name.space == "" && a.name.local == "xmlns" then Bind(b, "", a.value) else b;
      BindAllBinds(c, rest, prefix);
      assert attrs == [a] + rest;
      var ns := BindAll(c, rest).ns;
      MeansMore(d, c, a, rest, prefix, if prefix in ns then Some(ns[prefix]) else None);
    }
  }

  lemma {:induction false} TranslatedAttr(ns: Namespaces, defaultSpace: string, attrs: seq<Attr>, k: nat)
    requires k < |attrs|
    ensures var all := TranslateAll(ns, defaultSpace, attrs);
      |all| == |attrs| && all[k] == Attr(Translate(ns, defaultSpace, attrs[k].name, false), attrs[k].value)
    decreases |attrs|
  {
    hide Translate;
    if |attrs| == 1 {
    } else {
      TranslatedAttr(ns, defaultSpace, attrs[1..], if k == 0 then 0 else k - 1);
    }
  }

  /** The name of an element comes in the namespace its prefix stands for; without a prefix in the default
      namespace, for which the caller's stands in where there is none; and with a prefix that stands
      for nothing with that prefix. */
  lemma ElementNameMeans(d: Decoding, defaultSpace: string, name: Name, attrs: seq<Attr>, url: Option<string>)
    requires name.space !in {"xml", "xmlns"} && name != Name("", "xmlns") && StandsFor(d, attrs, name.space, url)
    ensures var space := if url.Some? then url.value else if name.space == "" then defaultSpace else name.space;
      OpenElement(d, defaultSpace, name, attrs).1.name == Name(space, name.local)
  {
    BindAllBinds(d, attrs, name.space);
    OneMeaning(d, attrs, name.space, url);
    hide BindAll, StandsFor, TranslateAll;
  }

  /** So does that of an attribute with a prefix. Without one it has no namespace, declarations stay as
      they are, and so does every value. */
  lemma AttrNameMeans(d: Decoding, defaultSpace: string, name: Name, attrs: seq<Attr>, k: nat, url: Option<string>)
    requires k < |attrs| && StandsFor(d, attrs, attrs[k].name.space, url)
    ensures var all := OpenElement(d, defaultSpace, name, attrs).1.attrs;
      && |all| == |attrs| && all[k].value == attrs[k].value && all[k].name.local == attrs[k].name.local
      && (attrs[k].name.space in {"", "xmlns"} ==> all[k].name == attrs[k].name)
      && (attrs[k].name.space !in {"", "xml", "xmlns"} ==>
            all[k].name.space == if url.Some? then url.value else attrs[k].name.space)
  {
    BindAllBinds(d, attrs, attrs[k].name.space);
    OneMeaning(d, attrs, attrs[k].name.space, url);
    TranslatedAttr(BindAll(d, attrs).ns, defaultSpace, attrs, k);
    hide BindAll, StandsFor, TranslateAll;
  }

  lemma OneMeaning(d: Decoding, attrs: seq<Attr>, prefix: string, url: Option<string>)
    requires StandsFor(d, attrs, prefix, url)
    ensures forall other :: StandsFor(d, attrs, prefix, other) ==> other == url
  {
    forall other | StandsFor(d, attrs, prefix, other)
      ensures other == url
    {
      if exists a <- attrs :: Declares(a, prefix) {
        var i :| 0 <= i < |attrs| && Declares(attrs[i], prefix) && attrs[i].value == url.value
          && forall j :: i < j < |attrs| ==> !Declares(attrs[j], prefix);
        var k :| 0 <= k < |attrs| && Declares(attrs[k], prefix) && attrs[k].value == other.value
          && forall j :: k < j < |attrs| ==> !Declares(attrs[j], prefix);
        assert i == k;
      }
    }
  }

  lemma TokenTakesInput(d: Decoding, defaultSpace: string)
    ensures var (e, t) := NextToken(d, defaultSpace);
      if t.Some? then Left(e) < Left(d) else Left(e) <= Left(d)
  {
    hide ScanToken, Translate, TranslateAll, BindAll;
    var (r, raw) := RawToken(d);
    match raw
    case Some(StartElement(name, attrs)) => BindAllReadsNothing(r, attrs);
    case _ =>
  }

  // ---------------------------------------------------------------- the decoder's callers

  datatype Outcome = Outcome(after: Decoding, read: seq<Token>, ok: bool)

  /** Skip: reads to the end of the element that is open, over the elements inside it. */
  function SkipElement(d: Decoding, defaultSpace: string): (r: Outcome)
    ensures Left(r.after) <= Left(d)
    decreases Left(d)
  {
    TokenTakesInput(d, defaultSpace);
    var (e, t) := NextToken(d, defaultSpace);
    match t
    case None => Outcome(e, [], false)
    case Some(EndElement(_)) => Outcome(e, [t.value], true)
    case Some(StartElement(_, _)) =>
      var inner := SkipElement(e, defaultSpace);
      if !inner.ok then inner.(read := [t.value] + inner.read)
      else
        var r := SkipElement(inner.after, defaultSpace);
        r.(read := [t.value] + inner.read + r.read)
    case _ =>
      var r := SkipElement(e, defaultSpace);
      r.(read := [t.value] + r.read)
  }

  /** pushEOF: a fence goes below the innermost element and the records that belong to it. */
  function PushFence(stack: seq<Frame>): seq<Frame>
    requires exists f <- stack :: f.StartF?
  {
    if stack[0].StartF? then [stack[0]] + FenceBelowNs(stack[1..]) else [stack[0]] + PushFence(stack[1..])
  }

  function FenceBelowNs(stack: seq<Frame>): seq<Frame> {
    if stack != [] && stack[0].NsF? then [stack[0]] + FenceBelowNs(stack[1..]) else [EofF] + stack
  }

  /** popEOF. */
  function PopFence(d: Decoding): (Decoding, bool) {
    if d.stack == [] || !d.stack[0].EofF? then (d, false) else (d.(stack := d.stack[1..]), true)
  }

  /** What an UnmarshalXML method does with the decoder: it reads tokens, skips, and has the
      elements whose start it has just read unmarshalled by others. An error of Token or Skip it
      may heed, which is to give up, or not. */
  datatype Use = ReadToken(heed: bool) | SkipRest(heed: bool) | Unmarshal(uses: seq<Use>, fails: bool)

  function UseOnce(d: Decoding, defaultSpace: string, u: Use): Outcome
    decreases u, 0
  {
    match u
    case ReadToken(heed) =>
      var (e, t) := NextToken(d, defaultSpace);
      Outcome(e, if t.Some? then [t.value] else [], t.Some? || !heed)
    case SkipRest(heed) =>
      var r := SkipElement(d, defaultSpace);
      r.(ok := r.ok || !heed)
    case Unmarshal(uses, fails) =>
      if d.stack == [] || !d.stack[0].StartF? then Outcome(d, [], true)
      else UnmarshalElement(d, defaultSpace, uses, fails)
  }

  /** The calls of one method, which gives up when an inner unmarshalling or a call whose error it
      heeds fails. */
  function UseAll(d: Decoding, defaultSpace: string, uses: seq<Use>): Outcome
    decreases uses, 0
  {
    if uses == [] then Outcome(d, [], true)
    else
      var first := UseOnce(d, defaultSpace, uses[0]);
      if !first.ok then first
      else
        var rest := UseAll(first.after, defaultSpace, uses[1..]);
        rest.(read := first.read + rest.read)
  }

  /** unmarshalInterface, for an element whose start has just been read. */
  function UnmarshalElement(d: Decoding, defaultSpace: string, uses: seq<Use>, fails: bool): Outcome
    requires d.stack != [] && d.stack[0].StartF?
    decreases uses, 1
  {
    var inside := UseAll(d.(stack := PushFence(d.stack)), defaultSpace, uses);
    var (after, ended) := PopFence(inside.after);
    Outcome(after, inside.read, inside.ok && !fails && ended)
  }

  // ---------------------------------------------------------------- levels

  /** An open element, and the translations outside it. */
  datatype Level = Level(name: Name, outer: Namespaces)

  function Levels(ns: Namespaces, stack: seq<Frame>): seq<Level>
    decreases |stack|
  {
    if stack == [] then []
    else if stack[0].EofF? then Levels(ns, stack[1..])
    else
      var (m, rest) := Unbind(ns, if stack[0].StartF? then stack[1..] else stack);
      (if stack[0].StartF? then [Level(stack[0].name, m)] else [])
      + if |rest| < |stack| then Levels(m, rest) else []
  }

  function LevelsOf(d: Decoding): seq<Level> {
    Levels(d.ns, d.stack)
  }

  function Names(levels: seq<Level>): seq<Name> {
    seq(|levels|, i requires 0 <= i < |levels| => levels[i].name)
  }

  function SkipNs(stack: seq<Frame>): (r: seq<Frame>)
    ensures |r| <= |stack|
  {
    if stack == [] || !stack[0].NsF? then stack else SkipNs(stack[1..])
  }

  /** Old translations stand directly below the element they belong to, and nowhere else. */
  predicate Framed(stack: seq<Frame>)
    decreases |stack|
  {
    stack == [] || (stack[0].EofF? && Framed(stack[1..])) || (stack[0].StartF? && Framed(SkipNs(stack[1..])))
  }

  lemma UnbindSkips(ns: Namespaces, stack: seq<Frame>)
    ensures Unbind(ns, stack).1 == SkipNs(stack)
    decreases |stack|
  {
  }

  /** Taking back what the attributes of a tag declared gives the translations before it. */
  lemma {:induction false} BindAllUnbinds(d: Decoding, attrs: seq<Attr>)
    ensures var b := BindAll(d, attrs); Unbind(b.ns, b.stack) == Unbind(d.ns, d.stack)
    ensures SkipNs(BindAll(d, attrs).stack) == SkipNs(d.stack)
    decreases |attrs|
  {
    if attrs == [] {
    } else {
      var name := attrs[0].name;
      var b := if name.space == "xmlns" then Bind(d, name.local, attrs[0].value) else d;
      var c := if name.space == "" && name.local == "xmlns" then Bind(b, "", attrs[0].value) else b;
      BindUnbinds(d, name.local, attrs[0].value);
      BindUnbinds(b, "", attrs[0].value);
      BindAllUnbinds(c, attrs[1..]);
    }
  }

  lemma BindUnbinds(d: Decoding, local: string, url: string)
    ensures var b := Bind(d, local, url); Unbind(b.ns, b.stack) == Unbind(d.ns, d.stack)
    ensures SkipNs(Bind(d, local, url).stack) == SkipNs(d.stack)
  {
    var b := Bind(d, local, url);
    assert b.stack[1..] == d.stack;
    if local in d.ns {
      assert b.ns[local := d.ns[local]] == d.ns;
    } else {
      assert b.ns - {local} == d.ns;
    }
  }

  /** A start tag opens a level inside the present translations; an end tag closes the top
      level and restores the translations outside it. */
  lemma TokenMovesLevels(d: Decoding, defaultSpace: string)
    requires Framed(d.stack) && NextToken(d, defaultSpace).0.err.None?
    ensures var (e, t) := NextToken(d, defaultSpace);
      && d.err.None? && Framed(e.stack)
      && match t
         case Some(StartElement(name, _)) => LevelsOf(e) == [Level(name, d.ns)] + LevelsOf(d)
         case Some(EndElement(name)) => LevelsOf(d) == [Level(name, e.ns)] + LevelsOf(e)
         case _ => LevelsOf(e) == LevelsOf(d) && e.ns == d.ns
  {
    hide ScanToken, Translate, TranslateAll, BindAll;
    if d.stack != [] && d.stack[0].EofF? {
      return;
    }
    var (r, raw) := RawToken(d);
    match raw
    case Some(StartElement(name, attrs)) =>
      BindAllUnbinds(r, attrs);
      BindAllReadsNothing(r, attrs);
      var b := BindAll(r, attrs);
      var e := NextToken(d, defaultSpace).0;
      assert e.stack[1..] == b.stack;
    case Some(EndElement(name)) => UnbindSkips(d.ns, d.stack[1..]);
    case _ =>
  }

  // ---------------------------------------------------------------- nesting

  /** The open elements after some tokens, innermost first. None if they are ill nested. */
  function Replay(open: seq<Name>, ts: seq<Token>): Option<seq<Name>>
    decreases |ts|
  {
    if ts == [] then Some(open)
    else
      match ts[0]
      case StartElement(name, _) => Replay([name] + open, ts[1..])
      case EndElement(name) => if open != [] && open[0] == name then Replay(open[1..], ts[1..]) else None
      case _ => Replay(open, ts[1..])
  }

  lemma {:induction false} ReplayMore(open: seq<Name>, s: seq<Token>, t: seq<Token>)
    ensures Replay(open, s + t) == match Replay(open, s) case None => None case Some(o) => Replay(o, t)
    decreases |s|
  {
    if s == [] {
      assert s + t == t;
    } else {
      assert (s + t)[1..] == s[1..] + t;
      match s[0]
      case StartElement(name, _) => ReplayMore([name] + open, s[1..], t);
      case EndElement(name) =>
        if open != [] && open[0] == name {
          ReplayMore(open[1..], s[1..], t);
        }
      case _ => ReplayMore(open, s[1..], t);
    }
  }

  /** How many of n open levels, and of those opened since, are left after some tokens. None
      if a token follows the end of the last. */
  function Depth(ts: seq<Token>, n: nat): Option<nat>
    decreases |ts|
  {
    if ts == [] then Some(n)
    else if n == 0 then None
    else
      match ts[0]
      case StartElement(_, _) => Depth(ts[1..], n + 1)
      case EndElement(_) => Depth(ts[1..], n - 1)
      case _ => Depth(ts[1..], n)
  }

  lemma {:induction false} DepthMore(s: seq<Token>, t: seq<Token>, n: nat)
    ensures Depth(s + t, n) == match Depth(s, n) case None => None case Some(m) => Depth(t, m)
    decreases |s|
  {
    if s == [] {
      assert s + t == t;
    } else if n > 0 {
      assert (s + t)[1..] == s[1..] + t;
      match s[0]
      case StartElement(_, _) => DepthMore(s[1..], t, n + 1);
      case EndElement(_) => DepthMore(s[1..], t, n - 1);
      case _ => DepthMore(s[1..], t, n);
    }
  }

  /** Reading some tokens led from one state to another. They are nested, and of the n innermost
      levels what is not closed is untouched, like all levels below; when the last of the n is
      closed, the translations outside it are back. */
  ghost predicate Leads(d: Decoding, ts: seq<Token>, f: Decoding, n: nat) {
    && (d.err.Some? ==> ts == [] && f.err.Some?)
    && Replay(Names(LevelsOf(d)), ts).Some?
    && (f.err.None? ==>
      && Framed(f.stack)
      && Replay(Names(LevelsOf(d)), ts) == Some(Names(LevelsOf(f)))
      && BelowStays(d, ts, f, n))
  }

  ghost predicate BelowStays(d: Decoding, ts: seq<Token>, f: Decoding, n: nat) {
    var before, after := LevelsOf(d), LevelsOf(f);
    n <= |before| && Depth(ts, n).Some? ==>
      var m := Depth(ts, n).value;
      && m <= |after| && after[m..] == before[n..]
      && (n == 0 ==> f.ns == d.ns)
      && (n > 0 && m == 0 ==> f.ns == before[n - 1].outer)
      && (n > 0 && m > 0 ==> after[m - 1] == before[n - 1])
  }

  predicate Sound(d: Decoding) {
    d.err.Some? || Framed(d.stack)
  }

  lemma ErrorStays(d: Decoding, defaultSpace: string)
    requires d.err.Some?
    ensures var (e, t) := NextToken(d, defaultSpace); t.None? && e.err.Some?
  {
  }

  lemma TokenLeads(d: Decoding, defaultSpace: string, n: nat)
    requires Sound(d)
    ensures var (e, t) := NextToken(d, defaultSpace); Leads(d, if t.Some? then [t.value] else [], e, n) && Sound(e)
  {
    hide NextToken, LevelsOf;
    var (e, t) := NextToken(d, defaultSpace);
    if d.err.Some? {
      ErrorStays(d, defaultSpace);
    } else if e.err.None? {
      TokenMovesLevels(d, defaultSpace);
      match t
      case Some(StartElement(name, _)) =>
        assert Names(LevelsOf(e)) == [name] + Names(LevelsOf(d));
        assert [t.value][1..] == [];
        assert Replay(Names(LevelsOf(d)), [t.value]) == Some(Names(LevelsOf(e)));
        if 0 < n <= |LevelsOf(d)| {
          assert Depth([t.value], n) == Some(n + 1);
          assert LevelsOf(e)[n + 1..] == LevelsOf(d)[n..];
        }
      case Some(EndElement(name)) =>
        assert LevelsOf(d)[1..] == LevelsOf(e);
        assert Names(LevelsOf(d))[1..] == Names(LevelsOf(e));
        assert [t.value][1..] == [];
        assert Replay(Names(LevelsOf(d)), [t.value]) == Some(Names(LevelsOf(e)));
        if 0 < n <= |LevelsOf(d)| {
          assert Depth([t.value], n) == Some(n - 1);
          assert LevelsOf(e)[n - 1..] == LevelsOf(d)[n..];
        }
      case None =>
      case _ =>
        assert [t.value][1..] == [];
        assert Replay(Names(LevelsOf(d)), [t.value]) == Some(Names(LevelsOf(e)));
        assert n > 0 ==> Depth([t.value], n) == Some(n);
    } else {
      ErrorReadsNothing(d, defaultSpace);
    }
  }

  lemma ErrorReadsNothing(d: Decoding, defaultSpace: string)
    requires NextToken(d, defaultSpace).0.err.Some?
    ensures NextToken(d, defaultSpace).1.None?
  {
    hide ScanToken, Translate, TranslateAll, BindAll;
    var (r, raw) := RawToken(d);
    match raw
    case Some(StartElement(name, attrs)) => BindAllReadsNothing(r, attrs);
    case _ =>
  }

  lemma NoTokens(open: seq<Name>, s: seq<Token>)
    ensures Replay(open, []) == Some(open)
    ensures Depth(s, 0).Some? ==> Depth(s, 0).value == 0
  {
  }

  lemma LeadsOn(d: Decoding, s: seq<Token>, e: Decoding, t: seq<Token>, f: Decoding, n: nat)
    requires Leads(d, s, e, n)
    requires Depth(s, n).Some? ==> Leads(e, t, f, Depth(s, n).value)
    requires Leads(e, t, f, 0)
    ensures Leads(d, s + t, f, n)
  {
    hide LevelsOf, Names, Replay, Depth, Framed;
    NoTokens(Replay(Names(LevelsOf(d)), s).value, s);
    NoTokens([], t);
    ReplayMore(Names(LevelsOf(d)), s, t);
    DepthMore(s, t, n);
  }

  lemma {:induction false} SkipLeads(d: Decoding, defaultSpace: string, n: nat)
    requires Sound(d)
    ensures var r := SkipElement(d, defaultSpace); Leads(d, r.read, r.after, n) && Sound(r.after)
    decreases Left(d), 0
  {
    hide NextToken, Leads, Sound;
    TokenTakesInput(d, defaultSpace);
    var (e, t) := NextToken(d, defaultSpace);
    TokenLeads(d, defaultSpace, n);
    if t.Some? && !t.value.EndElement? {
      var first := SkipElement(e, defaultSpace);
      StepLeads(d, [t.value], e, defaultSpace, n);
      if t.value.StartElement? && first.ok {
        var r := SkipElement(first.after, defaultSpace);
        StepLeads(d, [t.value] + first.read, first.after, defaultSpace, n);
      }
    }
  }

  lemma {:induction false} StepLeads(d: Decoding, s: seq<Token>, e: Decoding, defaultSpace: string, n: nat)
    requires Leads(d, s, e, n) && Sound(e)
    ensures var r := SkipElement(e, defaultSpace); Leads(d, s + r.read, r.after, n) && Sound(r.after)
    decreases Left(e), 1
  {
    hide NextToken, Leads, Sound;
    var r := SkipElement(e, defaultSpace);
    SkipLeads(e, defaultSpace, 0);
    if Depth(s, n).Some? {
      SkipLeads(e, defaultSpace, Depth(s, n).value);
    }
    LeadsOn(d, s, e, r.read, r.after, n);
  }

  // ---------------------------------------------------------------- skipping

  lemma {:induction false} DepthDeeper(ts: seq<Token>, n: nat)
    requires Depth(ts, n).Some?
    ensures Depth(ts, n + 1) == Some(Depth(ts, n).value + 1)
    decreases |ts|
  {
    if ts == [] {
    } else {
      match ts[0]
      case StartElement(_, _) => DepthDeeper(ts[1..], n + 1);
      case EndElement(_) => DepthDeeper(ts[1..], n - 1);
      case _ => DepthDeeper(ts[1..], n);
    }
  }

  /** Skip succeeds exactly if it reads the end of the element it was called in, and reads
      nothing after it. */
  lemma {:induction false} SkipReadsOneElement(d: Decoding, defaultSpace: string)
    ensures var r := SkipElement(d, defaultSpace);
      Depth(r.read, 1).Some? && (r.ok <==> Depth(r.read, 1) == Some(0))
    decreases Left(d)
  {
    hide NextToken;
    TokenTakesInput(d, defaultSpace);
    var (e, t) := NextToken(d, defaultSpace);
    if t.Some? && !t.value.EndElement? {
      var first := SkipElement(e, defaultSpace);
      SkipReadsOneElement(e, defaultSpace);
      DepthMore([t.value], first.read, 1);
      DepthDeeper(first.read, 1);
      assert [t.value][1..] == [];
      if t.value.StartElement? && first.ok {
        var r := SkipElement(first.after, defaultSpace);
        SkipReadsOneElement(first.after, defaultSpace);
        DepthMore([t.value] + first.read, r.read, 1);
      }
    }
  }

  /** So the element is gone from the stack and the translations outside it are back. */
  lemma SkipClosesElement(d: Decoding, defaultSpace: string)
    requires Sound(d) && LevelsOf(d) != []
    ensures var r := SkipElement(d, defaultSpace);
      r.ok && r.after.err.None? ==>
        LevelsOf(r.after) == LevelsOf(d)[1..] && r.after.ns == LevelsOf(d)[0].outer
  {
    hide SkipElement, LevelsOf;
    SkipReadsOneElement(d, defaultSpace);
    SkipLeads(d, defaultSpace, 1);
  }

  // ---------------------------------------------------------------- whole uses of the decoder

  lemma {:induction false} FenceBelowNsUnbinds(ns: Namespaces, stack: seq<Frame>)
    ensures Unbind(ns, FenceBelowNs(stack)) == (Unbind(ns, stack).0, [EofF] + SkipNs(stack))
    ensures SkipNs(FenceBelowNs(stack)) == [EofF] + SkipNs(stack)
    decreases |stack|
  {
    if stack != [] && stack[0].NsF? {
      var NsF(local, url, ok) := stack[0];
      assert FenceBelowNs(stack)[1..] == FenceBelowNs(stack[1..]);
      FenceBelowNsUnbinds(if ok then ns[local := url] else ns - {local}, stack[1..]);
    }
  }

  /** A fence changes nothing about the open elements and their translations. */
  lemma FenceKeepsLevels(ns: Namespaces, stack: seq<Frame>)
    requires stack != [] && stack[0].StartF?
    ensures Levels(ns, PushFence(stack)) == Levels(ns, stack)
    ensures Framed(stack) ==> Framed(PushFence(stack))
  {
    var tail := stack[1..];
    assert PushFence(stack)[1..] == FenceBelowNs(tail);
    FenceBelowNsUnbinds(ns, tail);
    UnbindSkips(ns, tail);
    assert ([EofF] + SkipNs(tail))[1..] == SkipNs(tail);
    assert Levels(Unbind(ns, tail).0, [EofF] + SkipNs(tail)) == Levels(Unbind(ns, tail).0, SkipNs(tail));
  }

  lemma {:induction false} UseLeads(d: Decoding, defaultSpace: string, u: Use, n: nat)
    requires Sound(d)
    ensures var r := UseOnce(d, defaultSpace, u); Leads(d, r.read, r.after, n) && Sound(r.after)
    decreases u, 0
  {
    hide NextToken, SkipElement, LevelsOf, BelowStays, PushFence, PopFence;
    match u
    case ReadToken(_) => TokenLeads(d, defaultSpace, n);
    case SkipRest(_) => SkipLeads(d, defaultSpace, n);
    case Unmarshal(uses, fails) =>
      if d.stack == [] || !d.stack[0].StartF? {
        NothingLeads(d, n);
      } else {
        UnmarshalLeads(d, defaultSpace, uses, fails, n);
      }
  }

  lemma NothingLeads(d: Decoding, n: nat)
    requires Sound(d)
    ensures Leads(d, [], d, n)
  {
    hide LevelsOf;
  }

  lemma {:induction false} UseAllLeads(d: Decoding, defaultSpace: string, uses: seq<Use>, n: nat)
    requires Sound(d)
    ensures var r := UseAll(d, defaultSpace, uses); Leads(d, r.read, r.after, n) && Sound(r.after)
    decreases uses, 0
  {
    hide UseOnce, Leads, Sound;
    if uses == [] {
      NothingLeads(d, n);
    } else {
      var first := UseOnce(d, defaultSpace, uses[0]);
      UseLeads(d, defaultSpace, uses[0], n);
      if first.ok {
        var rest := UseAll(first.after, defaultSpace, uses[1..]);
        UseAllLeads(first.after, defaultSpace, uses[1..], 0);
        if Depth(first.read, n).Some? {
          UseAllLeads(first.after, defaultSpace, uses[1..], Depth(first.read, n).value);
        }
        LeadsOn(d, first.read, first.after, rest.read, rest.after, n);
      }
    }
  }

  lemma {:induction false} UnmarshalLeads(d: Decoding, defaultSpace: string, uses: seq<Use>, fails: bool, n: nat)
    requires Sound(d) && d.stack != [] && d.stack[0].StartF?
    ensures var r := UnmarshalElement(d, defaultSpace, uses, fails); Leads(d, r.read, r.after, n) && Sound(r.after)
    decreases uses, 1
  {
    hide UseAll, Levels, Framed;
    var fenced := d.(stack := PushFence(d.stack));
    FenceKeepsLevels(d.ns, d.stack);
    UseAllLeads(fenced, defaultSpace, uses, n);
    var inside := UseAll(fenced, defaultSpace, uses);
    PopFenceKeepsLevels(inside.after);
    hide PushFence, PopFence, LevelsOf;
  }

  lemma PopFenceKeepsLevels(d: Decoding)
    ensures var f := PopFence(d).0;
      LevelsOf(f) == LevelsOf(d) && f.ns == d.ns && f.err == d.err && (Framed(d.stack) ==> Framed(f.stack))
  {
  }

  /** Whatever calls are made on a fresh decoder, fences included, the tokens they read are the
      beginning of a well-nested document, and the names of start and end tags agree. */
  lemma TokensAreNested(tables: Tables, input: string, defaultSpace: string, uses: seq<Use>)
    ensures Replay([], UseAll(Fresh(tables, input), defaultSpace, uses).read).Some?
  {
    UseAllLeads(Fresh(tables, input), defaultSpace, uses, 0);
    assert Names(LevelsOf(Fresh(tables, input))) == [];
  }

  /** Calls that read just up to the end of the innermost element bring back the translations
      outside it, whatever was declared inside. */
  lemma ElementRestoresNamespaces(d: Decoding, defaultSpace: string, uses: seq<Use>)
    requires Sound(d) && NextToken(d, defaultSpace).1.Some? && NextToken(d, defaultSpace).1.value.StartElement?
    ensures var r := UseAll(NextToken(d, defaultSpace).0, defaultSpace, uses);
      Depth(r.read, 1) == Some(0) && r.after.err.None? ==> r.after.ns == d.ns && LevelsOf(r.after) == LevelsOf(d)
  {
    hide NextToken, UseAll, LevelsOf;
    var e := NextToken(d, defaultSpace).0;
    var r := UseAll(e, defaultSpace, uses);
    TokenLeads(d, defaultSpace, 0);
    UseAllLeads(e, defaultSpace, uses, 1);
    if r.after.err.None? {
      TokenMovesLevels(d, defaultSpace);
    }
  }

  // ---------------------------------------------------------------- fences

  function Starts(stack: seq<Frame>): nat {
    if stack == [] then 0 else (if stack[0].StartF? then 1 else 0) + Starts(stack[1..])
  }

  predicate NoFence(stack: seq<Frame>) {
    forall f <- stack :: !f.EofF?
  }

  /** The stack, divided at a fence. */
  ghost predicate Parted(stack: seq<Frame>, above: seq<Frame>, below: seq<Frame>) {
    stack == above + [EofF] + below
  }

  lemma {:induction false} UnbindStopsAtFence(above: seq<Frame>, below: seq<Frame>)
    requires NoFence(above)
    ensures Parted(SkipNs(above + [EofF] + below), SkipNs(above), below)
    ensures NoFence(SkipNs(above)) && Starts(SkipNs(above)) == Starts(above)
  {
    if above != [] && above[0].NsF? {
      assert (above + [EofF] + below)[1..] == above[1..] + [EofF] + below;
      UnbindStopsAtFence(above[1..], below);
    } else if above == [] {
      assert above + [EofF] + below == [EofF] + below;
    }
  }

  lemma {:induction false} BindAllStacks(d: Decoding, attrs: seq<Attr>) returns (binds: seq<Frame>)
    ensures BindAll(d, attrs).stack == binds + d.stack && NoFence(binds) && Starts(binds) == 0
    decreases |attrs|
  {
    if attrs == [] {
      return [];
    }
    var name := attrs[0].name;
    var b := if name.space == "xmlns" then Bind(d, name.local, attrs[0].value) else d;
    var c := if name.space == "" && name.local == "xmlns" then Bind(b, "", attrs[0].value) else b;
    binds := BindAllStacks(c, attrs[1..]);
    if c != d {
      assert c.stack[0].NsF? && c.stack == [c.stack[0]] + d.stack;
      StartsMore(binds, [c.stack[0]]);
      binds := binds + [c.stack[0]];
    }
  }

  lemma {:induction false} StartsMore(a: seq<Frame>, b: seq<Frame>)
    ensures Starts(a + b) == Starts(a) + Starts(b)
  {
    if a == [] {
      assert a + b == b;
    } else {
      assert (a + b)[1..] == a[1..] + b;
      StartsMore(a[1..], b);
    }
  }

  /** At a fence no error is met, and above it there is none but in an element. */
  lemma ErrorNeedsElement(d: Decoding, defaultSpace: string, above: seq<Frame>, below: seq<Frame>)
    requires Sound(d) && Parted(d.stack, above, below)
    ensures NextToken(d, defaultSpace).0.err.Some? ==>
      NextToken(d, defaultSpace).1.None? && (d.err.None? ==> Starts(above) > 0)
  {
    if NextToken(d, defaultSpace).0.err.Some? {
      ErrorReadsNothing(d, defaultSpace);
    }
    assert d.stack[0] == if above == [] then EofF else above[0];
    hide NextToken;
  }

  /** Token neither reads nor changes anything past a fence. */
  lemma TokenStopsAtFence(d: Decoding, defaultSpace: string, above: seq<Frame>, below: seq<Frame>)
    returns (rest: seq<Frame>)
    requires Sound(d) && Parted(d.stack, above, below) && NoFence(above)
    ensures var (e, t) := NextToken(d, defaultSpace);
      && Parted(e.stack, rest, below) && NoFence(rest)
      && (t.Some? ==> Depth([t.value], Starts(above)) == Some(Starts(rest)))
      && (t.None? && e.err.None? ==> rest == above)
      && (e.err.Some? ==> t.None? && (d.err.None? ==> Starts(above) > 0))
    ensures above == [] ==> NextToken(d, defaultSpace) == (d, None)
  {
    ErrorNeedsElement(d, defaultSpace, above, below);
    if above == [] {
      return [];
    }
    hide ScanToken, TakeToken, NoFence, Starts, Depth, Framed;
    assert d.stack[0] == above[0];
    var (r, raw) := RawToken(d);
    rest := above;
    if raw.Some? {
      FramedAbove(d.stack, above, below);
      rest := TakeStopsAtFence(r, defaultSpace, raw.value, above, below);
    }
  }

  lemma FramedAbove(stack: seq<Frame>, above: seq<Frame>, below: seq<Frame>)
    requires Framed(stack) && Parted(stack, above, below) && NoFence(above) && above != []
    ensures above[0].StartF? && Starts(above) == 1 + Starts(above[1..])
  {
    assert stack[0] == above[0] && above[0] in above;
  }

  /** What Token does with what was scanned does not go past a fence. */
  lemma TakeStopsAtFence(r: Decoding, defaultSpace: string, raw: Token, above: seq<Frame>, below: seq<Frame>)
    returns (rest: seq<Frame>)
    requires Parted(r.stack, above, below) && NoFence(above) && above != [] && above[0].StartF? && r.err.None?
    ensures var (e, t) := TakeToken(r, defaultSpace, raw);
      && Parted(e.stack, rest, below) && NoFence(rest)
      && (t.Some? ==> Depth([t.value], Starts(above)) == Some(Starts(rest)))
      && (t.None? ==> e.err.Some?)
  {
    StartsHead(above);
    match raw
    case StartElement(name, attrs) => rest := OpenStopsAtFence(r, defaultSpace, name, attrs, above, below);
    case EndElement(name) => rest := CloseStopsAtFence(r, defaultSpace, name, above, below);
    case _ => rest := above;
  }

  lemma OpenStopsAtFence(r: Decoding, defaultSpace: string, name: Name, attrs: seq<Attr>,
                         above: seq<Frame>, below: seq<Frame>)
    returns (rest: seq<Frame>)
    requires Parted(r.stack, above, below) && NoFence(above)
    ensures var (e, t) := OpenElement(r, defaultSpace, name, attrs);
      Parted(e.stack, rest, below) && NoFence(rest) && Starts(rest) == Starts(above) + 1 && t.StartElement?
  {
    hide Translate, TranslateAll, BindAll;
    var binds := BindAllStacks(r, attrs);
    var element := Translate(BindAll(r, attrs).ns, defaultSpace, name, true);
    rest := [StartF(element)] + (binds + above);
    StartsMore(binds, above);
    assert rest[1..] == binds + above;
    assert rest + [EofF] + below == [StartF(element)] + (binds + (above + [EofF] + below));
  }

  lemma CloseStopsAtFence(r: Decoding, defaultSpace: string, name: Name, above: seq<Frame>, below: seq<Frame>)
    returns (rest: seq<Frame>)
    requires Parted(r.stack, above, below) && NoFence(above) && above != [] && above[0].StartF?
    ensures var (e, t) := TakeToken(r, defaultSpace, EndElement(name));
      && Parted(e.stack, rest, below) && NoFence(rest)
      && (t.Some? ==> t.value.EndElement? && Starts(rest) + 1 == Starts(above)) && (t.None? ==> e.err.Some?)
  {
    hide Translate;
    StartsHead(above);
    assert r.stack[1..] == above[1..] + [EofF] + below;
    UnbindSkips(r.ns, r.stack[1..]);
    UnbindStopsAtFence(above[1..], below);
    rest := if TakeToken(r, defaultSpace, EndElement(name)).1.Some? then SkipNs(above[1..]) else above[1..];
  }

  /** What holds after some calls above a fence: it still stands, and no token was read once the
      elements above it were closed. If an error was met, they were not all closed by tokens. */
  ghost predicate Stops(d: Decoding, r: Outcome, above: seq<Frame>, rest: seq<Frame>, below: seq<Frame>) {
    && Parted(r.after.stack, rest, below)
    && Depth(r.read, Starts(above)).Some?
    && (r.after.err.None? ==> Depth(r.read, Starts(above)) == Some(Starts(rest)))
    && (r.after.err.Some? && (d.err.None? || Starts(above) > 0) ==> Depth(r.read, Starts(above)) != Some(0))
    && (r.ok ==> NoFence(rest))
  }

  lemma {:induction false} SkipStopsAtFence(d: Decoding, defaultSpace: string, above: seq<Frame>, below: seq<Frame>)
    returns (rest: seq<Frame>)
    requires Sound(d) && Parted(d.stack, above, below) && NoFence(above)
    ensures var r := SkipElement(d, defaultSpace); Stops(d, r, above, rest, below) && NoFence(rest) && Sound(r.after)
    decreases Left(d)
  {
    hide NextToken, Parted, NoFence, Sound, Starts;
    TokenTakesInput(d, defaultSpace);
    TokenLeads(d, defaultSpace, 0);
    var (e, t) := NextToken(d, defaultSpace);
    rest := TokenStopsAtFence(d, defaultSpace, above, below);
    if t.Some? && !t.value.EndElement? {
      var first := SkipElement(e, defaultSpace);
      var middle := SkipStopsAtFence(e, defaultSpace, rest, below);
      DepthMore([t.value], first.read, Starts(above));
      rest := middle;
      if t.value.StartElement? && first.ok {
        assert first.after.err.Some? ==> SkipElement(first.after, defaultSpace).read == [] by {
          SkipLeads(first.after, defaultSpace, 0);
        }
        rest := SkipStopsAtFence(first.after, defaultSpace, middle, below);
        var r := SkipElement(first.after, defaultSpace);
        DepthMore([t.value] + first.read, r.read, Starts(above));
        assert first.after.err.Some? ==> r.after.err.Some? by {
          SkipLeads(first.after, defaultSpace, 0);
        }
      }
    }
  }

  lemma {:induction false} UseStopsAtFence(d: Decoding, defaultSpace: string, u: Use,
                                           above: seq<Frame>, below: seq<Frame>)
    returns (rest: seq<Frame>)
    requires Sound(d) && Parted(d.stack, above, below) && NoFence(above)
    ensures Stops(d, UseOnce(d, defaultSpace, u), above, rest, below)
    decreases u, 0
  {
    hide NextToken, SkipElement, Sound, Starts, UnmarshalElement, NoFence;
    match u
    case ReadToken(_) =>
      rest := TokenStopsAtFence(d, defaultSpace, above, below);
      if NextToken(d, defaultSpace).1.None? {
        assert UseOnce(d, defaultSpace, u).read == [];
      } else {
        assert UseOnce(d, defaultSpace, u).read == [NextToken(d, defaultSpace).1.value];
      }
    case SkipRest(_) =>
      rest := SkipStopsAtFence(d, defaultSpace, above, below);
    case Unmarshal(uses, fails) =>
      rest := above;
      if d.stack != [] && d.stack[0].StartF? {
        var inner := UnmarshalStops(d, defaultSpace, uses, fails);
        rest := StopsInside(d, UnmarshalElement(d, defaultSpace, uses, fails), above, inner, below);
      }
  }

  lemma StopsInside(d: Decoding, r: Outcome, above: seq<Frame>, inner: seq<Frame>, below: seq<Frame>)
    returns (rest: seq<Frame>)
    requires Parted(d.stack, above, below) && NoFence(above) && d.stack[0].StartF?
    requires r.after.stack == inner + SkipNs(d.stack[1..])
    requires Depth(r.read, 1).Some? && (r.after.err.None? ==> Depth(r.read, 1) == Some(Starts(inner)))
    requires r.after.err.Some? ==> Depth(r.read, 1) != Some(0)
    requires r.ok ==> inner == []
    ensures Stops(d, r, above, rest, below)
  {
    var stack := d.stack;
    var tail := SkipNs(above[1..]);
    assert stack[1..] == above[1..] + [EofF] + below;
    UnbindStopsAtFence(above[1..], below);
    StartsHead(above);
    rest := inner + tail;
    assert inner + SkipNs(stack[1..]) == rest + [EofF] + below;
    StartsMore(inner, tail);
    DepthDeeperBy(r.read, 1, Starts(tail));
    assert r.ok ==> rest == tail;
    hide Starts, SkipNs;
  }

  lemma StartsHead(stack: seq<Frame>)
    requires stack != [] && stack[0].StartF?
    ensures Starts(stack) == 1 + Starts(stack[1..])
  {
  }

  lemma {:induction false} DepthDeeperBy(ts: seq<Token>, n: nat, k: nat)
    requires Depth(ts, n).Some?
    ensures Depth(ts, n + k) == Some(Depth(ts, n).value + k)
  {
    if k == 0 {
    } else {
      DepthDeeperBy(ts, n, k - 1);
      DepthDeeper(ts, n + k - 1);
    }
  }

  lemma {:induction false} UseAllStopsAtFence(d: Decoding, defaultSpace: string, uses: seq<Use>,
                                              above: seq<Frame>, below: seq<Frame>)
    returns (rest: seq<Frame>)
    requires Sound(d) && Parted(d.stack, above, below) && NoFence(above)
    ensures Stops(d, UseAll(d, defaultSpace, uses), above, rest, below)
    decreases uses, 0
  {
    hide UseOnce, Parted, NoFence, Sound, Starts;
    rest := above;
    if uses == [] {
    } else {
      var first := UseOnce(d, defaultSpace, uses[0]);
      rest := UseStopsAtFence(d, defaultSpace, uses[0], above, below);
      if first.ok {
        UseLeads(d, defaultSpace, uses[0], 0);
        var more := UseAll(first.after, defaultSpace, uses[1..]);
        UseAllLeads(first.after, defaultSpace, uses[1..], 0);
        DepthMore(first.read, more.read, Starts(above));
        rest := UseAllStopsAtFence(first.after, defaultSpace, uses[1..], rest, below);
      }
    }
  }

  /** unmarshalInterface: whatever the method does with the decoder, no token past the end tag
      of its element is read, and the stack below the element is as it was. If it succeeds, and
      the decoder met no error, exactly the element was read: its records are gone from the
      stack and the translations outside it are back. */
  lemma {:induction false} UnmarshalStops(d: Decoding, defaultSpace: string, uses: seq<Use>, fails: bool)
    returns (inner: seq<Frame>)
    requires Sound(d) && d.stack != [] && d.stack[0].StartF?
    ensures var r := UnmarshalElement(d, defaultSpace, uses, fails);
      && r.after.stack == inner + SkipNs(d.stack[1..])
      && Depth(r.read, 1).Some?
      && (r.after.err.None? ==> Depth(r.read, 1) == Some(Starts(inner)))
      && (r.after.err.Some? ==> Depth(r.read, 1) != Some(0))
      && (r.ok ==> inner == [])
    decreases uses, 1
  {
    hide UseAll, Starts, PushFence, NsRun, PopFence, Parted, NoFence, SkipNs, Framed, Levels;
    var fenced := d.(stack := PushFence(d.stack));
    FenceKeepsLevels(d.ns, d.stack);
    var above, below := FencedParts(d.stack);
    var left := UseAllStopsAtFence(fenced, defaultSpace, uses, above, below);
    var inside := UseAll(fenced, defaultSpace, uses);
    PopFenceKeepsLevels(inside.after);
    inner := PopFenceParts(inside.after, left, below);
  }

  lemma FencedParts(stack: seq<Frame>) returns (above: seq<Frame>, below: seq<Frame>)
    requires stack != [] && stack[0].StartF?
    ensures Parted(PushFence(stack), above, below) && below == SkipNs(stack[1..])
    ensures NoFence(above) && Starts(above) == 1
  {
    var tail := stack[1..];
    above, below := [stack[0]] + NsRun(tail), SkipNs(tail);
    assert PushFence(stack) == [stack[0]] + FenceBelowNs(tail) by {
      hide FenceBelowNs;
    }
    FenceParts(tail);
    hide SkipNs, NsRun, FenceBelowNs, PushFence;
    assert [stack[0]] + (NsRun(tail) + [EofF] + below) == above + [EofF] + below;
    assert above[1..] == NsRun(tail);
  }

  /** If the frame on top is a fence and above the one that stands here there is none, it is
      this one that popEOF takes away. */
  lemma PopFenceParts(d: Decoding, left: seq<Frame>, below: seq<Frame>) returns (inner: seq<Frame>)
    requires Parted(d.stack, left, below)
    ensures PopFence(d).0.stack == inner + below && Starts(inner) == Starts(left)
    ensures NoFence(left) && PopFence(d).1 ==> inner == []
  {
    StartsMore(left, [EofF]);
    if !d.stack[0].EofF? {
      inner := left + [EofF];
    } else if left == [] {
      inner := [];
      assert d.stack[1..] == below;
    } else {
      inner := left[1..] + [EofF];
      assert d.stack[1..] == inner + below;
      StartsMore(left[1..], [EofF]);
    }
  }

  function NsRun(stack: seq<Frame>): seq<Frame> {
    if stack == [] || !stack[0].NsF? then [] else [stack[0]] + NsRun(stack[1..])
  }

  lemma {:induction false} FenceParts(stack: seq<Frame>)
    ensures FenceBelowNs(stack) == NsRun(stack) + [EofF] + SkipNs(stack)
    ensures NoFence(NsRun(stack)) && Starts(NsRun(stack)) == 0
  {
    if stack != [] && stack[0].NsF? {
      FenceParts(stack[1..]);
      assert [stack[0]] + (NsRun(stack[1..]) + [EofF] + SkipNs(stack[1..])) == NsRun(stack) + [EofF] + SkipNs(stack);
      assert NsRun(stack)[1..] == NsRun(stack[1..]);
    }
  }

  /** In short: where unmarshalling succeeds, exactly one element has been read, or the method has
      missed an error; and then the element has not been read to its end. */
  lemma UnmarshalReadsOneElement(d: Decoding, defaultSpace: string, uses: seq<Use>, fails: bool)
    requires Sound(d) && d.stack != [] && d.stack[0].StartF?
    ensures var r := UnmarshalElement(d, defaultSpace, uses, fails);
      && (r.ok ==> (Depth(r.read, 1) == Some(0) <==> r.after.err.None?))
      && (r.ok && r.after.err.None? ==>
            && r.after.stack == SkipNs(d.stack[1..])
            && LevelsOf(r.after) == LevelsOf(d)[1..]
            && r.after.ns == LevelsOf(d)[0].outer)
  {
    hide UnmarshalElement, UseAll;
    var inner := UnmarshalStops(d, defaultSpace, uses, fails);
    UnmarshalLeads(d, defaultSpace, uses, fails, 1);
    var r := UnmarshalElement(d, defaultSpace, uses, fails);
    if r.ok {
      assert inner + SkipNs(d.stack[1..]) == SkipNs(d.stack[1..]);
      assert LevelsOf(d) != [];
    }
  }

  // ---------------------------------------------------------------- methods that heed errors

  /** The method, and those it has unmarshal elements inside its own, heed every error. */
  predicate Heedful(uses: seq<Use>) {
    forall u <- uses :: if u.Unmarshal? then Heedful(u.uses) else u.heed
  }

  /** Once there is an error, no call changes anything that matters. */
  lemma {:induction false} StuckInElement(d: Decoding, defaultSpace: string, uses: seq<Use>)
    requires d.err.Some? && d.stack != [] && d.stack[0].StartF?
    ensures var e := UseAll(d, defaultSpace, uses).after; e.err.Some? && e.stack != [] && e.stack[0].StartF?
    decreases uses
  {
    if uses == [] {
    } else {
      StuckOnce(d, defaultSpace, uses[0]);
      hide UseOnce;
      StuckInElement(UseOnce(d, defaultSpace, uses[0]).after, defaultSpace, uses[1..]);
    }
  }

  lemma {:induction false} StuckOnce(d: Decoding, defaultSpace: string, u: Use)
    requires d.err.Some? && d.stack != [] && d.stack[0].StartF?
    ensures var e := UseOnce(d, defaultSpace, u).after; e.err.Some? && e.stack != [] && e.stack[0].StartF?
    decreases u
  {
    assert NextToken(d, defaultSpace) == (d, None);
    hide NextToken;
    if u.Unmarshal? {
      assert d.stack[0] in d.stack && PushFence(d.stack)[0] == d.stack[0];
      StuckInElement(d.(stack := PushFence(d.stack)), defaultSpace, u.uses);
      hide UseAll, PushFence;
    }
  }

  lemma {:induction false} HeedfulMeetsNone(d: Decoding, defaultSpace: string, uses: seq<Use>)
    requires d.err.None? && Heedful(uses)
    ensures var r := UseAll(d, defaultSpace, uses); r.ok ==> r.after.err.None?
    decreases uses, 0
  {
    hide UseOnce;
    if uses == [] {
    } else {
      assert uses[0] in uses;
      HeedfulOnce(d, defaultSpace, uses[0]);
      var first := UseOnce(d, defaultSpace, uses[0]);
      if first.ok {
        HeedfulMeetsNone(first.after, defaultSpace, uses[1..]);
      }
    }
  }

  lemma {:induction false} HeedfulOnce(d: Decoding, defaultSpace: string, u: Use)
    requires d.err.None? && if u.Unmarshal? then Heedful(u.uses) else u.heed
    ensures var r := UseOnce(d, defaultSpace, u); r.ok ==> r.after.err.None?
    decreases u
  {
    hide NextToken, SkipElement, UseAll, Heedful;
    match u
    case ReadToken(_) =>
      if NextToken(d, defaultSpace).0.err.Some? {
        ErrorReadsNothing(d, defaultSpace);
      }
    case SkipRest(_) => SkipMeetsNone(d, defaultSpace);
    case Unmarshal(inner, fails) =>
      if d.stack != [] && d.stack[0].StartF? {
        HeedfulMeetsNone(d.(stack := PushFence(d.stack)), defaultSpace, inner);
      }
  }

  lemma {:induction false} SkipMeetsNone(d: Decoding, defaultSpace: string)
    ensures var r := SkipElement(d, defaultSpace); r.ok ==> r.after.err.None?
    decreases Left(d)
  {
    TokenTakesInput(d, defaultSpace);
    var (e, t) := NextToken(d, defaultSpace);
    if e.err.Some? {
      ErrorReadsNothing(d, defaultSpace);
    }
    hide NextToken;
    if t.Some? && !t.value.EndElement? {
      SkipMeetsNone(e, defaultSpace);
      var first := SkipElement(e, defaultSpace);
      if first.ok && t.value.StartElement? {
        SkipMeetsNone(first.after, defaultSpace);
      }
    }
  }

  /** What such a method can rely on: if unmarshalling succeeds, there was no error, and exactly one
      element has been read. */
  lemma HeedfulReadsOneElement(d: Decoding, defaultSpace: string, uses: seq<Use>, fails: bool)
    requires Sound(d) && d.stack != [] && d.stack[0].StartF? && Heedful(uses)
    ensures var r := UnmarshalElement(d, defaultSpace, uses, fails);
      r.ok ==> r.after.err.None? && Depth(r.read, 1) == Some(0) && r.after.stack == SkipNs(d.stack[1..])
  {
    UnmarshalReadsOneElement(d, defaultSpace, uses, fails);
    var fenced := d.(stack := PushFence(d.stack));
    if d.err.Some? {
      StuckInElement(fenced, defaultSpace, uses);
    } else {
      HeedfulMeetsNone(fenced, defaultSpace, uses);
    }
    hide UseAll, PushFence, Levels, SkipNs;
  }

  /** A method that does not heed the error of a wrong end tag is taken to have read its element,
      as the wrong tag has popped it. */
  lemma ErrorMayBeMissed(tables: Tables)
    requires IsName(tables, "b")
    ensures var d := Decoding(tables, "</b>", None, None, map[], [StartF(Name("", "a"))]);
      var r := UnmarshalElement(d, "", [ReadToken(false)], false);
      r.ok && r.after.err == Some(SyntaxError) && r.read == []
  {
    var d := Decoding(tables, "</b>", None, None, map[], [StartF(Name("", "a"))]);
    assert d.stack[1..] == [] && d.stack[0] in d.stack;
    assert PushFence(d.stack) == [StartF(Name("", "a")), EofF];
    var fenced := d.(stack := [StartF(Name("", "a")), EofF]);
    EndTagOfB(tables);
    hide ScanToken;
    var (e, t) := NextToken(fenced, "");
    assert e.stack == [EofF] && t.None? && e.err == Some(SyntaxError);
    hide NextToken;
    assert [ReadToken(false)][1..] == [];
    assert UseAll(fenced, "", [ReadToken(false)]) == Outcome(e, [], true);
  }

  lemma EndTagOfB(tables: Tables)
    requires IsName(tables, "b")
    ensures ScanToken(tables, "</b>") == Some(Scanned(EndElement(Name("", "b")), false, ""))
  {
    var s := "</b>";
    assert s[2..] == "b>" && "b>"[..1] == "b" && "b>"[1..] == ">" && ">"[1..] == "";
    assert NameLength("b>") == 1;
    SplitQualified("", "b");
    assert Split("b") == Name("", "b");
    hide Split, IsName;
    assert NameAt(tables, "b>") == Some(("b", ">"));
  }
}
