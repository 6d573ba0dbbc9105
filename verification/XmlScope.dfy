/** The encoder's namespace bookkeeping on values: which declarations a start tag makes, which
    prefixes it makes up, and the tags it writes. XmlPrinter is proved to do this in place. */
module XmlScope {
  import opened Decimals
  import opened Options
  import opened XmlNames
  import opened XmlText

  /** attrNS takes a prefix to its namespace and attrPrefix a namespace to its prefix. */
  datatype Scope = Scope(defaultNS: string, attrNS: map<string, string>, attrPrefix: map<string, string>)

  const FRESH: Scope := Scope("", map[], map[])

  function Get(m: map<string, string>, key: string): string {
    if key in m then m[key] else ""
  }

  function NsFor(sc: Scope, prefix: string): string {
    if prefix == "" then sc.defaultNS else Get(sc.attrNS, prefix)
  }

  /** setAttrPrefix: the empty URL removes the prefix, the empty prefix is the default namespace. */
  function Set(sc: Scope, prefix: string, url: string): Scope {
    if prefix == "" then sc.(defaultNS := url)
    else
      var others := sc.attrPrefix - {Get(sc.attrNS, prefix)};
      if url == "" then Scope(sc.defaultNS, sc.attrNS - {prefix}, others)
      else Scope(sc.defaultNS, sc.attrNS[prefix := url], others[url := prefix])
  }

  /** The two maps are inverse to each other and nothing in them is empty. */
  ghost predicate Inverse(sc: Scope) {
    && (forall p <- sc.attrNS :: p != "" && sc.attrNS[p] != "" && sc.attrNS[p] in sc.attrPrefix)
    && (forall p <- sc.attrNS :: sc.attrPrefix[sc.attrNS[p]] == p)
    && (forall u <- sc.attrPrefix :: sc.attrPrefix[u] in sc.attrNS && sc.attrNS[sc.attrPrefix[u]] == u)
  }

  lemma SetKeepsInverse(sc: Scope, prefix: string, url: string)
    requires Inverse(sc)
    requires prefix != "" && url != "" ==> url !in sc.attrPrefix
    ensures Inverse(Set(sc, prefix, url))
  {
  }

  lemma SetSets(sc: Scope, prefix: string, url: string, other: string)
    ensures NsFor(Set(sc, prefix, url), other) == if other == prefix then url else NsFor(sc, other)
  {
  }

  lemma SetAt(sc: Scope, prefix: string, url: string, p: string, u: string)
    requires prefix != ""
    ensures var r := Set(sc, prefix, url);
      && (p in r.attrNS <==> (if p == prefix then url != "" else p in sc.attrNS))
      && (p in r.attrNS ==> r.attrNS[p] == if p == prefix then url else sc.attrNS[p])
    ensures var r := Set(sc, prefix, url);
      && (u in r.attrPrefix <==> (u == url && url != "") || (u in sc.attrPrefix && u != Get(sc.attrNS, prefix)))
      && (u in r.attrPrefix ==> r.attrPrefix[u] == if u == url && url != "" then prefix else sc.attrPrefix[u])
  {
  }

  /** Setting a prefix back to what it was undoes setting it. */
  lemma SetBackRestores(sc: Scope, prefix: string, url: string)
    requires Inverse(sc)
    requires prefix != "" && url != "" ==> url !in sc.attrPrefix
    ensures Set(Set(sc, prefix, url), prefix, NsFor(sc, prefix)) == sc
  {
    if prefix != "" {
      var there, was := Set(sc, prefix, url), NsFor(sc, prefix);
      var back := Set(there, prefix, was);
      assert was == "" || (prefix in sc.attrNS && was in sc.attrPrefix && sc.attrPrefix[was] == prefix);
      assert Get(there.attrNS, prefix) == url && back.defaultNS == sc.defaultNS;
      assert "" !in sc.attrPrefix;
      hide Set, Inverse;
      forall x: string
        ensures x in back.attrNS <==> x in sc.attrNS
        ensures x in sc.attrNS ==> back.attrNS[x] == sc.attrNS[x]
        ensures x in back.attrPrefix <==> x in sc.attrPrefix
        ensures x in sc.attrPrefix ==> back.attrPrefix[x] == sc.attrPrefix[x]
      {
        SetAt(sc, prefix, url, x, x);
        SetAt(there, prefix, was, x, x);
      }
      assert back.attrNS == sc.attrNS;
      assert back.attrPrefix == sc.attrPrefix;
    }
  }

  // ---------------------------------------------------------------- making up a prefix

  function TrimSlashes(s: string): string {
    if s != "" && s[|s| - 1] == '/' then TrimSlashes(s[..|s| - 1]) else s
  }

  function AfterLastSlash(s: string): (r: string)
    ensures |r| <= |s| && r == s[|s| - |r|..] && '/' !in r
    ensures |r| < |s| ==> s[|s| - |r| - 1] == '/'
  {
    if s == "" || s[|s| - 1] == '/' then "" else AfterLastSlash(s[..|s| - 1]) + [s[|s| - 1]]
  }

  /** The last part of the URL if that is a name, else an underscore; and nothing that starts
      with xml. */
  function Hint(isName: string -> bool, url: string): (r: string)
    ensures r != "" && ':' !in r && !("xml" <= r)
  {
    var last := AfterLastSlash(TrimSlashes(url));
    var prefix := if last == "" || !isName(last) || ':' in last then "_" else last;
    assert ("_" + prefix)[0] == '_' && "xml"[0] == 'x';
    if "xml" <= prefix then "_" + prefix else prefix
  }

  lemma {:induction false} SlashesTrimmed(s: string, slashes: string)
    requires (s != "" ==> s[|s| - 1] != '/') && forall c <- slashes :: c == '/'
    ensures TrimSlashes(s + slashes) == s
    decreases |slashes|
  {
    if slashes == "" {
      assert s + slashes == s;
    } else {
      var n, t := |slashes| - 1, s + slashes;
      assert t[|t| - 1] == slashes[n] && slashes[n] in slashes && t[..|t| - 1] == s + slashes[..n];
      assert forall c <- slashes[..n] :: c in slashes;
      SlashesTrimmed(s, slashes[..n]);
    }
  }

  lemma LastPart(before: string, last: string)
    requires '/' !in last && (before != "" ==> before[|before| - 1] == '/')
    ensures AfterLastSlash(before + last) == last
  {
    hide AfterLastSlash;
    var s, r := before + last, AfterLastSlash(before + last);
    assert forall k :: |before| <= k < |s| ==> s[k] == last[k - |before|];
    assert forall k :: |s| - |r| <= k < |s| ==> s[k] == r[k - (|s| - |r|)];
    assert before != "" ==> s[|before| - 1] == before[|before| - 1];
    assert s[|before|..] == last;
  }

  /** The prefix thought of for a URL is its last part, whatever slashes follow it, if that can be a
      prefix; else an underscore, which also goes before what begins like xml. */
  lemma HintIsLastPart(isName: string -> bool, before: string, last: string, slashes: string)
    requires last != "" && '/' !in last && (before != "" ==> before[|before| - 1] == '/')
    requires forall c <- slashes :: c == '/'
    ensures Hint(isName, before + last + slashes)
         == if isName(last) && ':' !in last then (if "xml" <= last then "_" + last else last) else "_"
  {
    assert (before + last)[|before + last| - 1] in last;
    SlashesTrimmed(before + last, slashes);
    LastPart(before, last);
    hide AfterLastSlash, TrimSlashes;
  }

  function Numbered(hint: string, n: nat): string {
    hint + "_" + Decimal(n)
  }

  /** The first number from n on that makes a free prefix. */
  function FreeNumber(taken: set<string>, hint: string, n: nat): (r: nat)
    ensures r >= n
    decreases |taken|
  {
    if Numbered(hint, n) !in taken then n else FreeNumber(taken - {Numbered(hint, n)}, hint, n + 1)
  }

  lemma {:induction false} FreeNumberIsFree(taken: set<string>, hint: string, n: nat)
    ensures Numbered(hint, FreeNumber(taken, hint, n)) !in taken
    ensures forall k :: n <= k < FreeNumber(taken, hint, n) ==> Numbered(hint, k) in taken
    decreases |taken|
  {
    hide Numbered;
    var r := FreeNumber(taken, hint, n);
    if Numbered(hint, n) in taken {
      FreeNumberIsFree(taken - {Numbered(hint, n)}, hint, n + 1);
      if Numbered(hint, r) == Numbered(hint, n) {
        NumberedInjective(hint, r, n);
      }
    }
  }

  lemma NumberedInjective(hint: string, m: nat, n: nat)
    requires Numbered(hint, m) == Numbered(hint, n)
    ensures m == n
  {
    assert Numbered(hint, m)[|hint| + 1..] == Decimal(m) && Numbered(hint, n)[|hint| + 1..] == Decimal(n);
    DecimalInjective(m, n);
  }

  // ---------------------------------------------------------------- the declarations of a tag

  /** The scope while a start tag is prepared, the prefixes it declares, latest first, and the
      counter for made-up prefixes. */
  datatype Work = Work(scope: Scope, declared: seq<string>, next: nat)

  function Push(w: Work, prefix: string, url: string): Work {
    Work(Set(w.scope, prefix, url), [prefix] + w.declared, w.next)
  }

  /** A declaration among the attributes is followed where that is possible. None is an error. */
  function Define(w: Work, attr: Attr, ignoreNonEmptyDefault: bool): Option<Work> {
    if attr.name.local == "xmlns" then
      if attr.name.space != "" && attr.name.space != "xml" && attr.name.space != XML_URL then None
      else if attr.value == w.scope.defaultNS || (attr.value != "" && ignoreNonEmptyDefault) then Some(w)
      else Some(Push(w, "", attr.value))
    else if attr.name.space != "xmlns" || attr.name.local == "" || attr.value == "" then Some(w)
    else if attr.value in w.scope.attrPrefix then Some(w)
    else Some(Push(w, attr.name.local, attr.value))
  }

  function DefineAll(w: Work, attrs: seq<Attr>, ignoreNonEmptyDefault: bool): Option<Work>
    decreases |attrs|
  {
    if attrs == [] then Some(w)
    else
      match Define(w, attrs[0], ignoreNonEmptyDefault)
      case None => None
      case Some(v) => DefineAll(v, attrs[1..], ignoreNonEmptyDefault)
  }

  /** What has been declared when an attribute is met that is an error. */
  function DefinedBefore(w: Work, attrs: seq<Attr>, ignoreNonEmptyDefault: bool): Work
    decreases |attrs|
  {
    if attrs == [] then w
    else
      match Define(w, attrs[0], ignoreNonEmptyDefault)
      case None => w
      case Some(v) => DefinedBefore(v, attrs[1..], ignoreNonEmptyDefault)
  }

  /** A way to write names of this namespace, made up if there is none yet. */
  function CreatePrefix(isName: string -> bool, w: Work, url: string, isAttr: bool): Work {
    if url in w.scope.attrPrefix || (!isAttr && url == w.scope.defaultNS) then w
    else if url == "" then if w.scope.defaultNS != "" then Push(w, "", "") else w
    else if url == XML_URL then w
    else
      var hint := Hint(isName, url);
      if hint !in w.scope.attrNS then Push(w, hint, url)
      else
        var n := FreeNumber(w.scope.attrNS.Keys, hint, w.next + 1);
        Push(w.(next := n), Numbered(hint, n), url)
  }

  function CreateAll(isName: string -> bool, w: Work, attrs: seq<Attr>): Work
    decreases |attrs|
  {
    if attrs == [] then w
    else
      var name := attrs[0].name;
      var v := if name.space != "" && !IsNamespace(name) then CreatePrefix(isName, w, name.space, true) else w;
      CreateAll(isName, v, attrs[1..])
  }

  function StartWork(isName: string -> bool, w: Work, name: Name, attrs: seq<Attr>): Option<Work> {
    match DefineAll(w, attrs, name.space == "")
    case None => None
    case Some(v) => Some(CreatePrefix(isName, CreateAll(isName, v, attrs), name.space, false))
  }

  // ---------------------------------------------------------------- the tags

  function PrefixFor(sc: Scope, url: string, isAttr: bool): string {
    if url == XML_URL then "xml" else if !isAttr && url == sc.defaultNS then "" else Get(sc.attrPrefix, url)
  }

  function Spelled(sc: Scope, name: Name, isAttr: bool): string {
    Qualified(PrefixFor(sc, name.space, isAttr), name.local)
  }

  function Declaration(sc: Scope, prefix: string): Written {
    Written(if prefix == "" then "xmlns" else "xmlns:" + prefix, Escaped(NsFor(sc, prefix), true))
  }

  function Declarations(sc: Scope, declared: seq<string>): seq<Written> {
    if declared == [] then [] else [Declaration(sc, declared[0])] + Declarations(sc, declared[1..])
  }

  predicate IsPlain(attr: Attr) {
    attr.name.local != "" && !IsNamespace(attr.name)
  }

  function PlainAttrs(sc: Scope, attrs: seq<Attr>): seq<Written> {
    if attrs == [] then []
    else
      (if IsPlain(attrs[0]) then [Written(Spelled(sc, attrs[0].name, true), Escaped(attrs[0].value, true))] else [])
      + PlainAttrs(sc, attrs[1..])
  }

  lemma NoPlainAttrs(sc: Scope)
    ensures PlainAttrs(sc, []) == []
  {
  }

  lemma OnePlainAttr(sc: Scope, attrs: seq<Attr>)
    requires attrs != []
    ensures PlainAttrs(sc, attrs)
         == (if IsPlain(attrs[0])
             then [Written(Spelled(sc, attrs[0].name, true), Escaped(attrs[0].value, true))] else [])
          + PlainAttrs(sc, attrs[1..])
    ensures !IsPlain(attrs[0]) ==> PlainAttrs(sc, attrs) == PlainAttrs(sc, attrs[1..])
  {
    hide Spelled, Escaped;
  }

  function StartTagFor(w: Work, name: Name, attrs: seq<Attr>): Piece {
    StartTag(Spelled(w.scope, name, false), Declarations(w.scope, w.declared) + PlainAttrs(w.scope, attrs))
  }

  // ---------------------------------------------------------------- printing tokens

  /** An element that is open, and the scope it stands in. */
  datatype Opened = Opened(name: Name, outer: Scope)

  datatype Printing = Printing(scope: Scope, next: nat, open: seq<Opened>, out: seq<Piece>)

  /** Character data joins the character data before it. */
  function AddChars(out: seq<Piece>, text: string): seq<Piece> {
    if text == "" then out
    else if out != [] && out[|out| - 1].Chars? then out[..|out| - 1] + [Chars(out[|out| - 1].text + text)]
    else out + [Chars(text)]
  }

  /** EncodeToken. None is an error. */
  function PrintToken(isName: string -> bool, p: Printing, t: Printable): Option<Printing> {
    match t
    case CharData(data) => Some(p.(out := AddChars(p.out, Escaped(data, false))))
    case EndElement(name) =>
      if name.local == "" || p.open == [] || p.open[|p.open| - 1].name != name then None
      else
        var last := |p.open| - 1;
        Some(Printing(p.open[last].outer, p.next, p.open[..last], p.out + [EndTag(Spelled(p.scope, name, false))]))
    case StartElement(name, attrs) =>
      if name.local == "" then None
      else
        match StartWork(isName, Work(p.scope, [], p.next), name, attrs)
        case None => None
        case Some(w) =>
          Some(Printing(w.scope, w.next, p.open + [Opened(name, p.scope)], p.out + [StartTagFor(w, name, attrs)]))
  }

  /** What is left of a token that is an error. A start tag that cannot be written stays open, with
      what it has declared so far. */
  function AfterError(p: Printing, t: Printable): Printing {
    if t.StartElement? && t.name.local != "" then
      var w := DefinedBefore(Work(p.scope, [], p.next), t.attrs, t.name.space == "");
      Printing(w.scope, w.next, p.open + [Opened(t.name, p.scope)], p.out)
    else p
  }

  function PrintAll(isName: string -> bool, ts: seq<Printable>): Option<Printing> {
    if ts == [] then Some(Printing(FRESH, 0, [], []))
    else
      match PrintAll(isName, ts[..|ts| - 1])
      case None => None
      case Some(p) => PrintToken(isName, p, ts[|ts| - 1])
  }

  // ---------------------------------------------------------------- what every step keeps

  /** From a scope on: the maps stay inverse, and only what is declared differs. */
  ghost predicate Prepares(from: Scope, w: Work) {
    && Inverse(w.scope)
    && (forall q: string :: q !in w.declared ==> NsFor(w.scope, q) == NsFor(from, q))
    && forall q <- w.declared :: q != "" ==> q in w.scope.attrNS
  }

  lemma PushPrepares(from: Scope, w: Work, prefix: string, url: string)
    requires Prepares(from, w)
    requires prefix != "" ==> url != "" && url !in w.scope.attrPrefix
    ensures Prepares(from, Push(w, prefix, url))
  {
    SetKeepsInverse(w.scope, prefix, url);
    forall q: string | q !in Push(w, prefix, url).declared
      ensures NsFor(Push(w, prefix, url).scope, q) == NsFor(from, q)
    {
      assert Push(w, prefix, url).declared[0] == prefix;
      assert Push(w, prefix, url).declared[1..] == w.declared;
      SetSets(w.scope, prefix, url, q);
    }
  }

  lemma {:induction false} DefineAllPrepares(from: Scope, w: Work, attrs: seq<Attr>, ignoreNonEmptyDefault: bool)
    requires Prepares(from, w)
    ensures var r := DefineAll(w, attrs, ignoreNonEmptyDefault); r.Some? ==> Prepares(from, r.value)
    decreases |attrs|
  {
    hide Prepares, Push;
    if attrs == [] {
    } else {
      var attr := attrs[0];
      if attr.name.local == "xmlns" {
        PushPrepares(from, w, "", attr.value);
      } else if attr.value != "" && attr.value !in w.scope.attrPrefix {
        PushPrepares(from, w, attr.name.local, attr.value);
      }
      var r := Define(w, attr, ignoreNonEmptyDefault);
      if r.Some? {
        DefineAllPrepares(from, r.value, attrs[1..], ignoreNonEmptyDefault);
      }
    }
  }

  /** Names of this namespace can be written. */
  predicate Writable(sc: Scope, url: string, isAttr: bool) {
    url == XML_URL || (!isAttr && url == sc.defaultNS) || url in sc.attrPrefix || (isAttr && url == "")
  }

  /** The prefix made up for a namespace is in no use. */
  lemma NewPrefixIsFree(isName: string -> bool, w: Work, url: string, isAttr: bool)
    returns (prefix: string, next: nat)
    ensures prefix != "" && prefix !in w.scope.attrNS
    ensures prefix == Hint(isName, url) || prefix == Numbered(Hint(isName, url), next)
    ensures CreatePrefix(isName, w, url, isAttr) in {w, Push(w, "", ""), Push(w.(next := next), prefix, url)}
    ensures url !in w.scope.attrPrefix && (isAttr || url != w.scope.defaultNS) && url != "" && url != XML_URL ==>
      CreatePrefix(isName, w, url, isAttr) == Push(w.(next := next), prefix, url)
  {
    hide Hint, Push;
    var hint := Hint(isName, url);
    if hint !in w.scope.attrNS {
      return hint, w.next;
    }
    next := FreeNumber(w.scope.attrNS.Keys, hint, w.next + 1);
    FreeNumberIsFree(w.scope.attrNS.Keys, hint, w.next + 1);
    prefix := Numbered(hint, next);
  }

  lemma PushKeepsOthers(w: Work, prefix: string, url: string)
    requires Inverse(w.scope) && prefix !in w.scope.attrNS && (prefix != "" ==> url != "" && url !in w.scope.attrPrefix)
    ensures var v := Push(w, prefix, url);
      && v.scope.attrPrefix.Keys >= w.scope.attrPrefix.Keys && (prefix != "" ==> url in v.scope.attrPrefix)
      && v.scope.attrNS == if prefix == "" then w.scope.attrNS else w.scope.attrNS[prefix := url]
    ensures prefix == "" ==> Push(w, prefix, url).scope.defaultNS == url
  {
    assert "" !in w.scope.attrPrefix;
  }

  /** Making up a prefix takes none that is in use, so whatever could be written still can be. */
  lemma CreatePrefixCreates(isName: string -> bool, from: Scope, w: Work, url: string, isAttr: bool)
    requires Prepares(from, w)
    ensures var v := CreatePrefix(isName, w, url, isAttr);
      Writable(v.scope, url, isAttr) && v.scope.attrPrefix.Keys >= w.scope.attrPrefix.Keys && Prepares(from, v)
  {
    var prefix, next := NewPrefixIsFree(isName, w, url, isAttr);
    hide Hint, Set;
    if url in w.scope.attrPrefix || (!isAttr && url == w.scope.defaultNS) || url == XML_URL {
    } else if url == "" {
      PushPrepares(from, w, "", "");
      PushKeepsOthers(w, "", "");
    } else {
      PushPrepares(from, w.(next := next), prefix, url);
      PushKeepsOthers(w.(next := next), prefix, url);
    }
  }

  // ---------------------------------------------------------------- what is declared is used

  /** No attribute but perhaps the i-th declares the prefix, or declares a prefix for the URL. */
  ghost predicate DeclaredOnce(attrs: seq<Attr>, i: int, prefix: string, url: string) {
    forall j :: 0 <= j < |attrs| && j != i && attrs[j].name.space == "xmlns" ==>
      attrs[j].name.local != prefix && attrs[j].value != url
  }

  predicate Has(sc: Scope, prefix: string, url: string) {
    prefix in sc.attrNS && sc.attrNS[prefix] == url
  }

  lemma OneDefined(from: Scope, w: Work, attr: Attr, ignoreNonEmptyDefault: bool, prefix: string, url: string)
    requires Prepares(from, w) && Define(w, attr, ignoreNonEmptyDefault).Some? && prefix != "" && url != ""
    ensures var v := Define(w, attr, ignoreNonEmptyDefault).value;
      && Prepares(from, v)
      && (attr.name.space != "xmlns" || (attr.name.local != prefix && attr.value != url) ==>
            (Has(w.scope, prefix, url) ==> Has(v.scope, prefix, url))
            && (url !in w.scope.attrPrefix ==> url !in v.scope.attrPrefix))
      && (attr == Attr(Name("xmlns", prefix), url) && prefix != "xmlns" && url !in w.scope.attrPrefix ==>
            Has(v.scope, prefix, url))
  {
    if attr.name.local == "xmlns" {
      PushPrepares(from, w, "", attr.value);
    } else if attr.value != "" && attr.value !in w.scope.attrPrefix {
      PushPrepares(from, w, attr.name.local, attr.value);
    }
    hide Prepares;
  }

  lemma {:induction false} AllDefined(from: Scope, w: Work, attrs: seq<Attr>, ignoreNonEmptyDefault: bool, i: int,
                                      prefix: string, url: string)
    requires Prepares(from, w) && DefineAll(w, attrs, ignoreNonEmptyDefault).Some?
    requires prefix !in {"", "xmlns"} && url != "" && DeclaredOnce(attrs, i, prefix, url)
    requires if 0 <= i < |attrs| then attrs[i] == Attr(Name("xmlns", prefix), url) && url !in w.scope.attrPrefix
             else Has(w.scope, prefix, url)
    ensures var v := DefineAll(w, attrs, ignoreNonEmptyDefault).value; Prepares(from, v) && Has(v.scope, prefix, url)
    decreases |attrs|
  {
    hide Prepares, Define, Has;
    if attrs == [] {
    } else {
      OneDefined(from, w, attrs[0], ignoreNonEmptyDefault, prefix, url);
      var v := Define(w, attrs[0], ignoreNonEmptyDefault).value;
      assert DeclaredOnce(attrs[1..], i - 1, prefix, url);
      AllDefined(from, v, attrs[1..], ignoreNonEmptyDefault, i - 1, prefix, url);
    }
  }

  lemma CreatedKeeps(isName: string -> bool, from: Scope, w: Work, url: string, isAttr: bool)
    requires Prepares(from, w)
    ensures var v := CreatePrefix(isName, w, url, isAttr);
      && Prepares(from, v) && (forall p <- w.scope.attrNS :: Has(v.scope, p, w.scope.attrNS[p]))
      && (url != "" ==> v.scope.defaultNS == w.scope.defaultNS)
  {
    CreatePrefixCreates(isName, from, w, url, isAttr);
    var prefix, next := NewPrefixIsFree(isName, w, url, isAttr);
    hide Hint, CreatePrefix, Prepares, Push;
    PushHas(w, "", "");
    PushHas(w.(next := next), prefix, url);
    if url != "" {
      NotEmptied(isName, w, url, isAttr);
    }
  }

  lemma PushHas(w: Work, prefix: string, url: string)
    requires prefix !in w.scope.attrNS || prefix == ""
    ensures forall p <- w.scope.attrNS :: Has(Push(w, prefix, url).scope, p, w.scope.attrNS[p])
  {
  }

  lemma NotEmptied(isName: string -> bool, w: Work, url: string, isAttr: bool)
    requires url != ""
    ensures CreatePrefix(isName, w, url, isAttr).scope.defaultNS == w.scope.defaultNS
  {
    hide Hint, FreeNumber;
  }

  lemma {:induction false} AllCreatedKeep(isName: string -> bool, from: Scope, w: Work, attrs: seq<Attr>)
    requires Prepares(from, w)
    ensures var v := CreateAll(isName, w, attrs);
      && Prepares(from, v) && (forall p <- w.scope.attrNS :: Has(v.scope, p, w.scope.attrNS[p]))
      && v.scope.defaultNS == w.scope.defaultNS
    decreases |attrs|
  {
    hide Prepares, CreatePrefix;
    if attrs == [] {
    } else {
      var name := attrs[0].name;
      CreatedKeeps(isName, from, w, name.space, true);
      var v := if name.space != "" && !IsNamespace(name) then CreatePrefix(isName, w, name.space, true) else w;
      AllCreatedKeep(isName, from, v, attrs[1..]);
    }
  }

  /** A prefix that an attribute declares is used: inside the tag it stands for the URL, and names of
      that namespace are spelled with it; unless there was a prefix for the URL, or another attribute
      declares the same. */
  lemma DeclaredPrefixIsUsed(isName: string -> bool, sc: Scope, next: nat, name: Name, attrs: seq<Attr>, i: nat)
    requires Inverse(sc) && i < |attrs| && StartWork(isName, Work(sc, [], next), name, attrs).Some?
    requires attrs[i].name.space == "xmlns" && attrs[i].name.local !in {"", "xmlns"} && attrs[i].value != ""
    requires attrs[i].value !in sc.attrPrefix && DeclaredOnce(attrs, i, attrs[i].name.local, attrs[i].value)
    ensures var now := StartWork(isName, Work(sc, [], next), name, attrs).value.scope;
      var prefix, url := attrs[i].name.local, attrs[i].value;
      NsFor(now, prefix) == url && (url != XML_URL ==> PrefixFor(now, url, true) == prefix)
  {
    var w := Work(sc, [], next);
    var prefix, url := attrs[i].name.local, attrs[i].value;
    assert Prepares(sc, w);
    hide Prepares, CreatePrefix, Inverse;
    AllDefined(sc, w, attrs, name.space == "", i, prefix, url);
    var d := DefineAll(w, attrs, name.space == "").value;
    AllCreatedKeep(isName, sc, d, attrs);
    CreatedKeeps(isName, sc, CreateAll(isName, d, attrs), name.space, false);
    UsedIn(sc, StartWork(isName, w, name, attrs).value, prefix, url);
  }

  lemma UsedIn(from: Scope, w: Work, prefix: string, url: string)
    requires Prepares(from, w) && Has(w.scope, prefix, url)
    ensures NsFor(w.scope, prefix) == url && Get(w.scope.attrPrefix, url) == prefix
  {
  }

  /** What the attributes declare as the default namespace, the last of them deciding. */
  ghost predicate DefaultLast(attrs: seq<Attr>, outer: string, url: string) {
    || (exists i :: 0 <= i < |attrs| && attrs[i].name.local == "xmlns" && attrs[i].value == url
          && forall j :: i < j < |attrs| ==> attrs[j].name.local != "xmlns")
    || (url == outer && forall a <- attrs :: a.name.local != "xmlns")
  }

  lemma {:induction false} DefaultDefined(w: Work, attrs: seq<Attr>, url: string)
    requires DefineAll(w, attrs, false).Some? && DefaultLast(attrs, w.scope.defaultNS, url)
    ensures DefineAll(w, attrs, false).value.scope.defaultNS == url
    decreases |attrs|
  {
    if attrs == [] {
    } else {
      var a := attrs[0];
      var v := Define(w, a, false).value;
      assert v.scope.defaultNS == if a.name.local == "xmlns" then a.value else w.scope.defaultNS;
      hide Define, DefaultLast;
      DefaultOfRest(attrs, w.scope.defaultNS, url);
      DefaultDefined(v, attrs[1..], url);
    }
  }

  lemma DefaultOfRest(attrs: seq<Attr>, outer: string, url: string)
    requires attrs != [] && DefaultLast(attrs, outer, url)
    ensures DefaultLast(attrs[1..], if attrs[0].name.local == "xmlns" then attrs[0].value else outer, url)
  {
    var rest := attrs[1..];
    assert forall j :: 0 <= j < |rest| ==> rest[j] == attrs[j + 1];
    if i :| 0 <= i < |attrs| && attrs[i].name.local == "xmlns" && attrs[i].value == url
            && forall j :: i < j < |attrs| ==> attrs[j].name.local != "xmlns" {
      assert i > 0 ==> rest[i - 1] == attrs[i];
    } else {
      assert attrs[0] in attrs && forall a <- rest :: a in attrs;
    }
  }

  /** Inside an element that has a namespace the default namespace is the one its attributes declare
      last, if any does. An element without one is always written without a prefix where there is
      no default namespace. */
  lemma DefaultIsUsed(isName: string -> bool, sc: Scope, next: nat, name: Name, attrs: seq<Attr>, url: string)
    requires Inverse(sc) && StartWork(isName, Work(sc, [], next), name, attrs).Some?
    requires DefaultLast(attrs, sc.defaultNS, url)
    ensures StartWork(isName, Work(sc, [], next), name, attrs).value.scope.defaultNS
         == if name.space == "" then "" else url
  {
    var w := Work(sc, [], next);
    assert Prepares(sc, w);
    DefineAllPrepares(sc, w, attrs, name.space == "");
    var d := DefineAll(w, attrs, name.space == "").value;
    AllCreatedKeep(isName, sc, d, attrs);
    var v := CreateAll(isName, d, attrs);
    if name.space == "" {
      CreatePrefixCreates(isName, sc, v, "", false);
      NoEmptyUrl(sc, CreatePrefix(isName, v, "", false));
    } else {
      DefaultDefined(w, attrs, url);
      NotEmptied(isName, v, name.space, false);
    }
    hide Prepares, CreatePrefix, DefineAll;
  }

  lemma NoEmptyUrl(from: Scope, w: Work)
    requires Prepares(from, w)
    ensures "" !in w.scope.attrPrefix
  {
  }

  // ---------------------------------------------------------------- errors

  /** A default namespace may not be declared under another prefix. */
  predicate BadDeclaration(a: Attr) {
    a.name.local == "xmlns" && a.name.space !in {"", "xml", XML_URL}
  }

  lemma {:induction false} DefineAllFailsIff(w: Work, attrs: seq<Attr>, ignoreNonEmptyDefault: bool)
    ensures DefineAll(w, attrs, ignoreNonEmptyDefault).None? <==> exists a <- attrs :: BadDeclaration(a)
    decreases |attrs|
  {
    if attrs == [] {
    } else {
      assert attrs == [attrs[0]] + attrs[1..];
      var r := Define(w, attrs[0], ignoreNonEmptyDefault);
      if r.Some? {
        DefineAllFailsIff(r.value, attrs[1..], ignoreNonEmptyDefault);
      } else {
        assert BadDeclaration(attrs[0]);
      }
    }
  }

  /** Of the attributes of a tag that is an error, those before the first that is one are followed. */
  lemma {:induction false} DefinedUpToBad(w: Work, attrs: seq<Attr>, ignoreNonEmptyDefault: bool, i: nat)
    requires i < |attrs| && BadDeclaration(attrs[i]) && forall j :: 0 <= j < i ==> !BadDeclaration(attrs[j])
    ensures Some(DefinedBefore(w, attrs, ignoreNonEmptyDefault)) == DefineAll(w, attrs[..i], ignoreNonEmptyDefault)
    decreases i
  {
    if i == 0 {
    } else {
      assert attrs[..i][1..] == attrs[1..][..i - 1] && attrs[..i][0] == attrs[0];
      assert Define(w, attrs[0], ignoreNonEmptyDefault).Some?;
      hide Define, BadDeclaration;
      DefinedUpToBad(Define(w, attrs[0], ignoreNonEmptyDefault).value, attrs[1..], ignoreNonEmptyDefault, i - 1);
    }
  }

  /** A start tag is an error exactly if it has no name or declares a default namespace badly. In
      the second case its end tag is accepted all the same, and is written without a start tag
      before it; with it the scope and the open elements are as they were. */
  lemma BadStartStaysOpen(isName: string -> bool, p: Printing, name: Name, attrs: seq<Attr>)
    ensures PrintToken(isName, p, StartElement(name, attrs)).None? <==>
            name.local == "" || exists a <- attrs :: BadDeclaration(a)
    ensures PrintToken(isName, p, StartElement(name, attrs)).None? && name.local != "" ==>
      var q := AfterError(p, StartElement(name, attrs));
      var r := PrintToken(isName, q, EndElement(name));
      r.Some? && r.value.out == p.out + [EndTag(Spelled(q.scope, name, false))]
      && r.value.scope == p.scope && r.value.open == p.open
  {
    DefineAllFailsIff(Work(p.scope, [], p.next), attrs, name.space == "");
    hide DefineAll, DefinedBefore, Spelled, StartTagFor, CreatePrefix, CreateAll;
    assert (p.open + [Opened(name, p.scope)])[..|p.open|] == p.open;
  }

  // ---------------------------------------------------------------- elements and their scopes

  /** How many of the elements these tokens start are open at their end. None if they end one
      that they have not started. */
  function Nesting(ts: seq<Printable>): Option<nat> {
    if ts == [] then Some(0)
    else
      match (Nesting(ts[..|ts| - 1]), ts[|ts| - 1])
      case (None, _) => None
      case (Some(n), StartElement(_, _)) => Some(n + 1)
      case (Some(n), EndElement(_)) => if n == 0 then None else Some(n - 1)
      case (Some(n), CharData(_)) => Some(n)
  }

  /** Tokens inside an element leave what was open before them open, and hold on to the scope
      they were met with. */
  lemma {:induction false} InsideKeeps(isName: string -> bool, before: seq<Printable>, inside: seq<Printable>)
    requires Nesting(inside).Some? && PrintAll(isName, before + inside).Some?
    ensures PrintAll(isName, before).Some?
    ensures
      var p, q := PrintAll(isName, before).value, PrintAll(isName, before + inside).value;
      var n := Nesting(inside).value;
      && |q.open| == |p.open| + n && q.open[..|p.open|] == p.open
      && (if n == 0 then q.scope else q.open[|p.open|].outer) == p.scope
  {
    hide PrintAll, PrintToken;
    if inside == [] {
      assert before + inside == before;
    } else {
      var init, t := inside[..|inside| - 1], inside[|inside| - 1];
      assert before + inside == (before + init) + [t];
      PrintAllMore(isName, before + init, t);
      InsideKeeps(isName, before, init);
      var p := PrintAll(isName, before + init).value;
      match t
      case StartElement(name, attrs) => StartIsOnTop(isName, p, name, attrs);
      case EndElement(name) => EndPutsBack(isName, p, name);
      case CharData(data) => CharsKeepScope(isName, p, data);
    }
  }

  lemma CharsKeepScope(isName: string -> bool, p: Printing, data: string)
    requires PrintToken(isName, p, CharData(data)).Some?
    ensures var q := PrintToken(isName, p, CharData(data)).value; q.scope == p.scope && q.open == p.open
  {
  }

  /** The end of an element puts back exactly the scope its start was met with, whatever was
      declared and redeclared inside, and the two tags spell the same name. */
  lemma ElementRestoresScope(isName: string -> bool, before: seq<Printable>, name: Name, attrs: seq<Attr>,
                             inside: seq<Printable>)
    requires Nesting(inside) == Some(0)
    requires PrintAll(isName, before + [StartElement(name, attrs)] + inside + [EndElement(name)]).Some?
    ensures var all := before + [StartElement(name, attrs)] + inside + [EndElement(name)];
      var p, q := PrintAll(isName, before), PrintAll(isName, all);
      p.Some? && q.value.scope == p.value.scope && q.value.open == p.value.open
    ensures var start := before + [StartElement(name, attrs)];
      var all := start + inside + [EndElement(name)];
      && PrintAll(isName, start).Some?
      && var tag, last := PrintAll(isName, start).value.out, PrintAll(isName, all).value.out;
         tag != [] && last != [] && tag[|tag| - 1].StartTag? && last[|last| - 1] == EndTag(tag[|tag| - 1].name)
  {
    hide PrintAll, PrintToken, Nesting;
    var start := before + [StartElement(name, attrs)];
    PrintAllMore(isName, start + inside, EndElement(name));
    InsideKeeps(isName, start, inside);
    PrintAllMore(isName, before, StartElement(name, attrs));
    var p, q := PrintAll(isName, before).value, PrintAll(isName, start).value;
    StartIsOnTop(isName, p, name, attrs);
    assert q.open[..|q.open| - 1] == p.open;
    EndPutsBack(isName, PrintAll(isName, start + inside).value, name);
  }

  lemma PrintAllMore(isName: string -> bool, ts: seq<Printable>, t: Printable)
    ensures PrintAll(isName, ts + [t])
         == match PrintAll(isName, ts) case None => None case Some(p) => PrintToken(isName, p, t)
  {
    assert (ts + [t])[..|ts|] == ts;
    hide PrintToken;
  }

  lemma StartIsOnTop(isName: string -> bool, p: Printing, name: Name, attrs: seq<Attr>)
    requires PrintToken(isName, p, StartElement(name, attrs)).Some?
    ensures var q := PrintToken(isName, p, StartElement(name, attrs)).value;
      q.open == p.open + [Opened(name, p.scope)]
      && q.out != [] && q.out[|q.out| - 1].StartTag? && q.out[|q.out| - 1].name == Spelled(q.scope, name, false)
  {
    hide StartWork, Spelled;
  }

  lemma EndPutsBack(isName: string -> bool, p: Printing, name: Name)
    requires PrintToken(isName, p, EndElement(name)).Some?
    ensures var q := PrintToken(isName, p, EndElement(name)).value;
      && p.open != [] && q.scope == p.open[|p.open| - 1].outer && q.open == p.open[..|p.open| - 1]
      && q.out != [] && q.out[|q.out| - 1] == EndTag(Spelled(p.scope, name, false))
  {
    hide Spelled;
  }
}
