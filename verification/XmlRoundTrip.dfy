/** What the encoder writes, the decoder reads back: every element and every attribute that is
    no declaration comes back in its namespace, because at each tag the encoder's scope and the
    decoder's translations agree. */
module XmlRoundTrip {
  import opened Decimals
  import opened Options
  import XmlDecoder
  import opened XmlMarkup
  import opened XmlNames
  import opened XmlScanBack
  import XmlPrinter
  import opened XmlReading
  import opened XmlScope
  import opened XmlText

  /** Encoder and decoder give every prefix the same meaning. */
  ghost predicate Agree(sc: Scope, ns: Namespaces) {
    && (forall p: string :: NsFor(sc, p) == Lookup(ns, p))
    && forall p <- ns :: p != "" ==> ns[p] != ""
  }

  // ---------------------------------------------------------------- one name

  /** What the spelling of a name must be like. A prefix can only be "xml" if it was declared
      for another namespace, and the predefined prefix must not be looked up a second time. */
  predicate Survives(sc: Scope, n: Name, isAttr: bool) {
    var prefix := PrefixFor(sc, n.space, isAttr);
    if n.space == XML_URL then XML_URL !in sc.attrNS || sc.attrNS[XML_URL] == XML_URL
    else if prefix == "" then ':' !in n.local && (!isAttr && n.local == "xmlns" ==> n.space == "")
    else ':' !in prefix && prefix != "xml"
  }

  lemma SplitShortens(s: string)
    requires ':' in s
    ensures |Split(s).local| < |s|
  {
    assert s[..|s|] == s;
  }

  /** Where the two agree, a name that can be written comes back exactly if it survives. */
  lemma NameComesBackIff(sc: Scope, ns: Namespaces, n: Name, isAttr: bool)
    requires Inverse(sc) && Agree(sc, ns) && Writable(sc, n.space, isAttr) && "xmlns" !in sc.attrNS
    ensures Translate(ns, "", Split(Spelled(sc, n, isAttr)), !isAttr) == n <==> Survives(sc, n, isAttr)
  {
    hide Split, Colon;
    var prefix := PrefixFor(sc, n.space, isAttr);
    SplitQualified(prefix, n.local);
    var split := Split(Spelled(sc, n, isAttr));
    assert NsFor(sc, XML_URL) == Lookup(ns, XML_URL) && NsFor(sc, prefix) == Lookup(ns, prefix);
    if prefix == "" {
      if ':' in n.local {
        SplitShortens(n.local);
      }
      assert "" !in sc.attrPrefix;
    } else if ':' in prefix {
      LongLocal(prefix, n.local);
    } else {
      assert split == Name(prefix, n.local);
      assert XML_URL in ns <==> XML_URL in sc.attrNS;
      if n.space != XML_URL {
        assert sc.attrNS[prefix] == n.space && prefix in ns && ns[prefix] == n.space;
        assert XML_URL in sc.attrNS && sc.attrNS[XML_URL] == n.space ==> prefix == XML_URL;
      }
    }
  }

  lemma LongLocal(prefix: string, local: string)
    requires ':' in prefix
    ensures |Split(prefix + ":" + local).local| > |local|
  {
    var s := prefix + ":" + local;
    var k :| 0 <= k < |prefix| && prefix[k] == ':';
    var i := Colon(s);
    assert s[k] == ':';
    forall j | 0 <= j < i
      ensures s[j] != ':'
    {
      assert s[..i][j] == s[j];
    }
  }

  // ---------------------------------------------------------------- what tags declare

  /** Prefixes that can be read back, and namespaces of characters XML has. */
  ghost predicate Clean(sc: Scope) {
    && (forall p <- sc.attrNS :: ':' !in p && p != "xml" && p != "xmlns" && AllInRange(sc.attrNS[p]))
    && AllInRange(sc.defaultNS)
  }

  lemma PushKeepsClean(w: Work, prefix: string, url: string)
    requires Clean(w.scope) && AllInRange(url) && ':' !in prefix && prefix != "xml" && prefix != "xmlns"
    ensures Clean(Push(w, prefix, url).scope)
  {
  }

  /** A declaration whose prefix has no colon and is not "xml". */
  predicate PlainDeclaration(attr: Attr) {
    && AllInRange(attr.value)
    && (attr.name.local != "xmlns" ==> ':' !in attr.name.local && attr.name.local != "xml")
  }

  /** Start tags all of whose names come back: no colons in local names, no element called
      "xmlns" in a namespace, and no prefix declared that has a colon or is reserved. */
  predicate PlainStart(name: Name, attrs: seq<Attr>) {
    && ':' !in name.local && AllInRange(name.space) && (name.local == "xmlns" ==> name.space == "")
    && forall a <- attrs ::
         if IsNamespace(a.name) then PlainDeclaration(a) else ':' !in a.name.local && AllInRange(a.name.space)
  }

  predicate PlainToken(t: Token) {
    t.StartElement? ==> PlainStart(t.name, t.attrs)
  }

  lemma {:induction false} DefineAllKeepsClean(w: Work, attrs: seq<Attr>, ignoreNonEmptyDefault: bool)
    requires Clean(w.scope) && forall a <- attrs :: IsNamespace(a.name) ==> PlainDeclaration(a)
    ensures var r := DefineAll(w, attrs, ignoreNonEmptyDefault); r.Some? ==> Clean(r.value.scope)
    decreases |attrs|
  {
    hide Clean, Push;
    if attrs == [] {
    } else {
      var attr := attrs[0];
      if attr.name.local == "xmlns" {
        assert PlainDeclaration(attr);
        PushKeepsClean(w, "", attr.value);
      } else if attr.name.space == "xmlns" {
        assert PlainDeclaration(attr);
        PushKeepsClean(w, attr.name.local, attr.value);
      }
      var r := Define(w, attr, ignoreNonEmptyDefault);
      if r.Some? {
        DefineAllKeepsClean(r.value, attrs[1..], ignoreNonEmptyDefault);
      }
    }
  }

  lemma {:induction false} DecimalHasNoColon(n: nat)
    ensures ':' !in Decimal(n)
  {
    if n < 10 {
    } else {
      DecimalHasNoColon(n / 10);
    }
  }

  lemma NumberedIsPlain(hint: string, n: nat)
    requires ':' !in hint
    ensures ':' !in Numbered(hint, n) && Numbered(hint, n) != "xml" && Numbered(hint, n) != "xmlns"
  {
    DecimalHasNoColon(n);
    assert Numbered(hint, n)[|hint|] == '_';
  }

  lemma HintIsPlain(isName: string -> bool, url: string)
    ensures ':' !in Hint(isName, url) && Hint(isName, url) != "xml" && Hint(isName, url) != "xmlns"
  {
    assert "xml" <= "xml" && "xml" <= "xmlns";
  }

  lemma CreatePrefixKeepsClean(isName: string -> bool, w: Work, url: string, isAttr: bool)
    requires Clean(w.scope) && AllInRange(url)
    ensures Clean(CreatePrefix(isName, w, url, isAttr).scope)
  {
    hide Clean, Push, Hint, Numbered, CreatePrefix;
    var prefix, next := NewPrefixIsFree(isName, w, url, isAttr);
    HintIsPlain(isName, url);
    NumberedIsPlain(Hint(isName, url), next);
    PushKeepsClean(w.(next := next), prefix, url);
    PushKeepsClean(w, "", "");
  }

  /** Every attribute that is no declaration can be written. */
  ghost predicate AttrsWritable(sc: Scope, attrs: seq<Attr>) {
    forall a <- attrs :: !IsNamespace(a.name) ==> Writable(sc, a.name.space, true)
  }

  lemma {:induction false} CreateAllCreates(isName: string -> bool, from: Scope, w: Work, attrs: seq<Attr>)
    requires Prepares(from, w) && Clean(w.scope)
    requires forall a <- attrs :: !IsNamespace(a.name) ==> AllInRange(a.name.space)
    ensures var v := CreateAll(isName, w, attrs);
      && Prepares(from, v) && Clean(v.scope) && v.scope.attrPrefix.Keys >= w.scope.attrPrefix.Keys
      && AttrsWritable(v.scope, attrs)
    decreases |attrs|
  {
    hide Prepares, Clean, CreatePrefix;
    if attrs == [] {
    } else {
      var name := attrs[0].name;
      var v := w;
      if name.space != "" && !IsNamespace(name) {
        assert attrs[0] in attrs;
        CreatePrefixCreates(isName, from, w, name.space, true);
        CreatePrefixKeepsClean(isName, w, name.space, true);
        v := CreatePrefix(isName, w, name.space, true);
      }
      CreateAllCreates(isName, from, v, attrs[1..]);
      assert attrs == [attrs[0]] + attrs[1..];
    }
  }

  /** The scope in which a start tag is written. */
  lemma StartDeclares(isName: string -> bool, sc: Scope, next: nat, name: Name, attrs: seq<Attr>)
    requires Inverse(sc) && Clean(sc) && PlainStart(name, attrs)
    ensures var r := StartWork(isName, Work(sc, [], next), name, attrs);
      r.Some? ==>
        && Prepares(sc, r.value) && Clean(r.value.scope)
        && Writable(r.value.scope, name.space, false) && AttrsWritable(r.value.scope, attrs)
  {
    hide Inverse, Clean, DefineAll, CreateAll, CreatePrefix;
    var w := Work(sc, [], next);
    assert Prepares(sc, w);
    hide Prepares;
    DefineAllPrepares(sc, w, attrs, name.space == "");
    DefineAllKeepsClean(w, attrs, name.space == "");
    var r := DefineAll(w, attrs, name.space == "");
    if r.Some? {
      CreateAllCreates(isName, sc, r.value, attrs);
      var v := CreateAll(isName, r.value, attrs);
      CreatePrefixCreates(isName, sc, v, name.space, false);
      CreatePrefixKeepsClean(isName, v, name.space, false);
    }
  }

  // ---------------------------------------------------------------- reading a start tag

  function DeclAttrs(sc: Scope, declared: seq<string>): seq<Attr> {
    if declared == [] then []
    else
      [Attr(if declared[0] == "" then Name("", "xmlns") else Name("xmlns", declared[0]), NsFor(sc, declared[0]))]
      + DeclAttrs(sc, declared[1..])
  }

  /** The attributes that are no declarations, as they are written and scanned. */
  function AsScanned(sc: Scope, attrs: seq<Attr>): seq<Attr> {
    if attrs == [] then []
    else
      (if IsPlain(attrs[0]) then [Attr(Split(Spelled(sc, attrs[0].name, true)), AllAllowed(attrs[0].value))] else [])
      + AsScanned(sc, attrs[1..])
  }

  /** What matters of the attributes: those that are no declarations, in XML's characters. */
  function PlainOf(attrs: seq<Attr>): seq<Attr> {
    if attrs == [] then []
    else (if IsPlain(attrs[0]) then [attrs[0].(value := AllAllowed(attrs[0].value))] else []) + PlainOf(attrs[1..])
  }

  /** What comes back of the attributes: each, in order, that has a local name and declares nothing,
      with its name and, as far as XML allows, its value. */
  lemma PlainIs(attrs: seq<Attr>, a: Attr)
    ensures PlainOf([]) == []
    ensures PlainOf(attrs + [a])
         == PlainOf(attrs)
          + if a.name.local !in {"", "xmlns"} && a.name.space != "xmlns"
            then [Attr(a.name, AllAllowed(a.value))] else []
  {
    PlainMore(attrs, [a]);
    assert [a][1..] == [];
    hide AllAllowed;
  }

  lemma {:induction false} PlainMore(attrs: seq<Attr>, more: seq<Attr>)
    ensures PlainOf(attrs + more) == PlainOf(attrs) + PlainOf(more)
  {
    hide AllAllowed, IsPlain;
    if attrs == [] {
      assert attrs + more == more;
    } else {
      var all, rest := attrs + more, attrs[1..];
      assert all[0] == attrs[0] && all[1..] == rest + more;
      var first := if IsPlain(attrs[0]) then [attrs[0].(value := AllAllowed(attrs[0].value))] else [];
      assert PlainOf(all) == first + PlainOf(rest + more) && PlainOf(attrs) == first + PlainOf(rest);
      PlainMore(rest, more);
      hide PlainOf;
    }
  }

  lemma {:induction false} ScanMore(a: seq<Written>, b: seq<Written>)
    requires ScanAttrs(a).Some? && ScanAttrs(b).Some?
    ensures ScanAttrs(a + b) == Some(ScanAttrs(a).value + ScanAttrs(b).value)
  {
    hide ScanValue, Split;
    if a == [] {
      assert a + b == b && ScanAttrs(a).value + ScanAttrs(b).value == ScanAttrs(b).value;
    } else {
      assert (a + b)[1..] == a[1..] + b && (a + b)[0] == a[0];
      ScanMore(a[1..], b);
      var x := Attr(Split(a[0].name), ScanValue(a[0].value).value);
      assert [x] + (ScanAttrs(a[1..]).value + ScanAttrs(b).value) == ScanAttrs(a).value + ScanAttrs(b).value;
    }
  }

  lemma {:induction false} DeclarationsScan(sc: Scope, declared: seq<string>)
    requires Clean(sc) && forall p <- declared :: p != "" ==> p in sc.attrNS
    ensures ScanAttrs(Declarations(sc, declared)) == Some(DeclAttrs(sc, declared))
  {
    hide ScanValue, Split;
    if declared == [] {
    } else {
      var p := declared[0];
      assert "xmlns:" + p == "xmlns" + ":" + p;
      SplitQualified("xmlns", p);
      SplitQualified("", "xmlns");
      ValueScansBack(NsFor(sc, p));
      DeclarationsScan(sc, declared[1..]);
      var d := Declaration(sc, p);
      assert Declarations(sc, declared)[1..] == Declarations(sc, declared[1..]);
    }
  }

  lemma {:induction false} PlainAttrsScan(sc: Scope, attrs: seq<Attr>)
    ensures ScanAttrs(PlainAttrs(sc, attrs)) == Some(AsScanned(sc, attrs))
  {
    hide ScanValue, Split, Spelled;
    if attrs == [] {
    } else {
      PlainAttrsScan(sc, attrs[1..]);
      ValueScansBack(attrs[0].value);
      if IsPlain(attrs[0]) {
        var w := Written(Spelled(sc, attrs[0].name, true), Escaped(attrs[0].value, true));
        assert PlainAttrs(sc, attrs) == [w] + PlainAttrs(sc, attrs[1..]);
        assert PlainAttrs(sc, attrs)[1..] == PlainAttrs(sc, attrs[1..]) && PlainAttrs(sc, attrs)[0] == w;
        var a := Attr(Split(w.name), AllAllowed(attrs[0].value));
        assert ScanAttrs(PlainAttrs(sc, attrs)) == Some([a] + AsScanned(sc, attrs[1..]));
      } else {
        assert PlainAttrs(sc, attrs) == PlainAttrs(sc, attrs[1..]) && AsScanned(sc, attrs) == AsScanned(sc, attrs[1..]);
      }
    }
  }

  /** An attribute that is no declaration is not taken for one, and its name comes back. */
  lemma AttrComesBack(sc: Scope, ns: Namespaces, n: Name)
    requires Inverse(sc) && Clean(sc) && Agree(sc, ns) && Writable(sc, n.space, true)
    requires !IsNamespace(n) && ':' !in n.local
    ensures var split := Split(Spelled(sc, n, true));
      split.space != "xmlns" && !(split.space == "" && split.local == "xmlns") && Translate(ns, "", split, false) == n
  {
    NameComesBackIff(sc, ns, n, true);
    XmlUrlHasColon();
    SplitQualified(PrefixFor(sc, n.space, true), n.local);
    hide Split, Translate;
  }

  lemma XmlUrlHasColon()
    ensures ':' in XML_URL
  {
    assert XML_URL[4] == ':';
  }

  lemma {:induction false} BindMore(d: Decoding, a: seq<Attr>, b: seq<Attr>)
    ensures BindAll(d, a + b) == BindAll(BindAll(d, a), b)
    decreases |a|
  {
    hide Bind;
    if a == [] {
      assert a + b == b;
    } else {
      assert (a + b)[1..] == a[1..] + b;
      var name := a[0].name;
      var e := if name.space == "xmlns" then Bind(d, name.local, a[0].value) else d;
      BindMore(if name.space == "" && name.local == "xmlns" then Bind(e, "", a[0].value) else e, a[1..], b);
    }
  }

  lemma {:induction false} TranslateMore(ns: Namespaces, a: seq<Attr>, b: seq<Attr>)
    ensures TranslateAll(ns, "", a + b) == TranslateAll(ns, "", a) + TranslateAll(ns, "", b)
  {
    hide Translate;
    if a == [] {
      assert a + b == b;
    } else {
      assert (a + b)[1..] == a[1..] + b;
      TranslateMore(ns, a[1..], b);
    }
  }

  /** What the attributes of a start tag make of its translations. */
  lemma {:induction false} DeclarationsBind(sc: Scope, d: Decoding, declared: seq<string>, q: string)
    requires Inverse(sc) && forall p <- declared :: p != "" ==> p in sc.attrNS
    ensures var ns := BindAll(d, DeclAttrs(sc, declared)).ns;
      && Lookup(ns, q) == (if q in declared then NsFor(sc, q) else Lookup(d.ns, q))
      && (q in ns && q != "" && ns[q] == "" ==> q in d.ns && d.ns[q] == "")
    decreases |declared|
  {
    if declared == [] {
    } else {
      var p, rest := declared[0], declared[1..];
      var e := Bind(d, p, NsFor(sc, p));
      assert DeclAttrs(sc, declared)[1..] == DeclAttrs(sc, rest);
      assert BindAll(d, DeclAttrs(sc, declared)) == BindAll(e, DeclAttrs(sc, rest));
      DeclarationsBind(sc, e, rest, q);
      assert declared == [p] + rest;
      hide BindAll, DeclAttrs;
    }
  }

  lemma DeclarationsAgree(from: Scope, w: Work, d: Decoding)
    requires Agree(from, d.ns) && Prepares(from, w)
    ensures Agree(w.scope, BindAll(d, DeclAttrs(w.scope, w.declared)).ns)
  {
    hide BindAll, DeclAttrs;
    forall q: string
      ensures var ns := BindAll(d, DeclAttrs(w.scope, w.declared)).ns;
        NsFor(w.scope, q) == Lookup(ns, q) && (q in ns && q != "" ==> ns[q] != "")
    {
      DeclarationsBind(w.scope, d, w.declared, q);
      assert NsFor(from, q) == Lookup(d.ns, q);
    }
  }

  lemma {:induction false} ScannedBindsNothing(sc: Scope, ns: Namespaces, d: Decoding, attrs: seq<Attr>)
    requires Inverse(sc) && Clean(sc) && Agree(sc, ns) && AttrsWritable(sc, attrs)
    requires forall a <- attrs :: !IsNamespace(a.name) ==> ':' !in a.name.local
    ensures BindAll(d, AsScanned(sc, attrs)) == d
    ensures TranslateAll(ns, "", AsScanned(sc, attrs)) == PlainOf(attrs)
  {
    hide Inverse, Clean, Agree, Split, Spelled, Translate, Writable;
    if attrs == [] {
    } else {
      ScannedBindsNothing(sc, ns, d, attrs[1..]);
      var a := attrs[0];
      if IsPlain(a) {
        AttrComesBack(sc, ns, a.name);
        assert AsScanned(sc, attrs)[1..] == AsScanned(sc, attrs[1..]);
      } else {
        assert AsScanned(sc, attrs) == AsScanned(sc, attrs[1..]);
      }
    }
  }

  lemma {:induction false} DeclarationsStay(sc: Scope, ns: Namespaces, declared: seq<string>, attrs: seq<Attr>)
    ensures TranslateAll(ns, "", DeclAttrs(sc, declared)) == DeclAttrs(sc, declared)
    ensures PlainOf(DeclAttrs(sc, declared) + attrs) == PlainOf(attrs)
  {
    var ds := DeclAttrs(sc, declared);
    if declared == [] {
      assert ds + attrs == attrs;
    } else {
      DeclarationsStay(sc, ns, declared[1..], attrs);
      assert (ds + attrs)[1..] == ds[1..] + attrs && ds[1..] == DeclAttrs(sc, declared[1..]);
    }
  }

  lemma {:induction false} PlainTwice(attrs: seq<Attr>)
    ensures PlainOf(PlainOf(attrs)) == PlainOf(attrs)
  {
    if attrs == [] {
    } else {
      PlainTwice(attrs[1..]);
      if IsPlain(attrs[0]) {
        assert PlainOf(attrs)[1..] == PlainOf(attrs[1..]);
      } else {
        assert PlainOf(attrs) == PlainOf(attrs[1..]);
      }
    }
  }

  /** One start tag, written from a scope and read with translations that agree with it: the
      element and its plain attributes come back, and inside the two agree again. */
  lemma StartComesBack(isName: string -> bool, from: Scope, next: nat, name: Name, attrs: seq<Attr>, d: Decoding)
    requires Inverse(from) && Clean(from) && PlainStart(name, attrs) && Agree(from, d.ns)
    requires StartWork(isName, Work(from, [], next), name, attrs).Some?
    requires d.stack != [] ==> d.stack[0].StartF?
    ensures Scan(StartTagFor(StartWork(isName, Work(from, [], next), name, attrs).value, name, attrs)).Some?
    ensures var w := StartWork(isName, Work(from, [], next), name, attrs).value;
      Inverse(w.scope) && Clean(w.scope) && Writable(w.scope, name.space, false)
    ensures var w := StartWork(isName, Work(from, [], next), name, attrs).value;
      var (e, t) := TakeToken(d, "", Scan(StartTagFor(w, name, attrs)).value);
      && t.Some? && t.value.StartElement? && t.value.name == name && PlainOf(t.value.attrs) == PlainOf(attrs)
      && Agree(w.scope, e.ns)
      && e.stack != [] && e.stack[0] == StartF(name) && Unbind(e.ns, e.stack[1..]) == (d.ns, d.stack)
  {
    hide StartWork, StartTagFor, Scan, Split, Spelled, BindAll, TranslateAll, Translate, DeclAttrs, AsScanned, PlainOf;
    hide Inverse, Clean, Agree, Prepares, AttrsWritable, Writable;
    var w := StartWork(isName, Work(from, [], next), name, attrs).value;
    StartDeclares(isName, from, next, name, attrs);
    var decls, plain := DeclAttrs(w.scope, w.declared), AsScanned(w.scope, attrs);
    TagIsScanned(from, w, name, attrs);
    DeclarationsAgree(from, w, d);
    BindMore(d, decls, plain);
    var b := BindAll(d, decls);
    PreparedIsInverse(from, w);
    ScannedBindsNothing(w.scope, b.ns, b, attrs);
    BindAllUnbinds(d, decls + plain);
    TranslateMore(b.ns, decls, plain);
    DeclarationsStay(w.scope, b.ns, w.declared, PlainOf(attrs));
    PlainTwice(attrs);
    ElementComesBack(w.scope, b.ns, name);
  }

  lemma PreparedIsInverse(from: Scope, w: Work)
    requires Prepares(from, w)
    ensures Inverse(w.scope)
  {
  }

  lemma TagIsScanned(from: Scope, w: Work, name: Name, attrs: seq<Attr>)
    requires Prepares(from, w) && Clean(w.scope)
    ensures var decls, plain := DeclAttrs(w.scope, w.declared), AsScanned(w.scope, attrs);
      Scan(StartTagFor(w, name, attrs)) == Some(StartElement(Split(Spelled(w.scope, name, false)), decls + plain))
  {
    DeclarationsScan(w.scope, w.declared);
    PlainAttrsScan(w.scope, attrs);
    ScanMore(Declarations(w.scope, w.declared), PlainAttrs(w.scope, attrs));
    hide Split, Spelled, ScanAttrs, DeclAttrs, AsScanned;
  }

  lemma ElementComesBack(sc: Scope, ns: Namespaces, n: Name)
    requires Inverse(sc) && Clean(sc) && Agree(sc, ns) && Writable(sc, n.space, false)
    requires ':' !in n.local && (n.local == "xmlns" ==> n.space == "")
    ensures Translate(ns, "", Split(Spelled(sc, n, false)), true) == n
  {
    NameComesBackIff(sc, ns, n, false);
    XmlUrlHasColon();
    hide Split, Translate;
  }

  // ---------------------------------------------------------------- whole documents

  /** What was read, and the translations and stack after it. */
  datatype Doc = Doc(ns: Namespaces, stack: seq<Frame>, read: seq<Token>)

  /** A decoder after the document, with this left to read. */
  function At(tables: Tables, doc: Doc, input: string): Decoding {
    Decoding(tables, input, None, None, doc.ns, doc.stack)
  }

  const NO_TABLES := Tables(c => false, c => false)

  /** What Token makes of a piece, once it is scanned. */
  function ReadPiece(doc: Doc, piece: Piece): Option<Doc> {
    if (doc.stack != [] && doc.stack[0].EofF?) || Scan(piece).None? then None
    else
      var (e, t) := TakeToken(At(NO_TABLES, doc, ""), "", Scan(piece).value);
      if t.None? then None else Some(Doc(e.ns, e.stack, doc.read + [t.value]))
  }

  function ReadAll(out: seq<Piece>): Option<Doc> {
    if out == [] then Some(Doc(map[], [], []))
    else
      match ReadAll(out[..|out| - 1])
      case None => None
      case Some(doc) => ReadPiece(doc, out[|out| - 1])
  }

  function Stripped(ts: seq<Token>): (r: seq<Token>)
    ensures |r| == |ts|
  {
    if ts == [] then []
    else
      var t := ts[|ts| - 1];
      Stripped(ts[..|ts| - 1]) + [if t.StartElement? then t.(attrs := PlainOf(t.attrs)) else t]
  }

  /** The character data at the end of the tokens. */
  function Pending(ts: seq<Token>): string {
    if ts == [] || !ts[|ts| - 1].CharData? then "" else Pending(ts[..|ts| - 1]) + ts[|ts| - 1].data
  }

  /** The tokens without declarations, adjoining character data in one piece, in XML's characters. */
  function Normal(ts: seq<Token>): seq<Token> {
    if ts == [] then []
    else
      var t, before := ts[|ts| - 1], Normal(ts[..|ts| - 1]);
      match t
      case StartElement(name, attrs) => before + [StartElement(name, PlainOf(attrs))]
      case CharData(data) => if data == "" then before else Join(before, AllAllowed(data))
      case _ => before + [t]
  }

  function Join(ts: seq<Token>, data: string): seq<Token> {
    var last := |ts| - 1;
    if ts != [] && ts[last].CharData? then ts[..last] + [CharData(ts[last].data + data)] else ts + [CharData(data)]
  }

  /** For each open element the decoder has what the encoder has: its name, the scope inside it
      and, below its record, the way back to the scope outside. */
  ghost predicate Mirrors(sc: Scope, open: seq<Opened>, ns: Namespaces, stack: seq<Frame>)
    decreases |open|
  {
    && Inverse(sc) && Clean(sc) && Agree(sc, ns)
    && if open == [] then stack == []
       else
         var last := open[|open| - 1];
         && stack != [] && stack[0] == StartF(last.name)
         && Writable(sc, last.name.space, false) && PlainStart(last.name, [])
         && var (outer, rest) := Unbind(ns, stack[1..]);
            Mirrors(last.outer, open[..|open| - 1], outer, rest)
  }

  ghost predicate TailIs(out: seq<Piece>, doc: Doc, pending: string) {
    if pending == "" then out == [] || (!out[|out| - 1].Chars? && doc.read != [] && !doc.read[|doc.read| - 1].CharData?)
    else out != [] && out[|out| - 1] == Chars(Escaped(pending, false))
  }

  ghost predicate Tracks(p: Printing, ts: seq<Token>, doc: Doc) {
    && ReadAll(p.out) == Some(doc)
    && Mirrors(p.scope, p.open, doc.ns, doc.stack)
    && Stripped(doc.read) == Normal(ts)
    && TailIs(p.out, doc, Pending(ts))
  }

  lemma MirrorsTop(sc: Scope, open: seq<Opened>, ns: Namespaces, stack: seq<Frame>)
    requires Mirrors(sc, open, ns, stack)
    ensures stack != [] ==> stack[0].StartF?
  {
  }

  lemma {:induction false} AllAllowedMore(s: string, t: string)
    ensures AllAllowed(s + t) == AllAllowed(s) + AllAllowed(t)
  {
    hide Allowed;
    if s == "" {
      assert s + t == t;
    } else {
      assert (s + t)[1..] == s[1..] + t;
      AllAllowedMore(s[1..], t);
    }
  }

  lemma EscapedIsSome(s: string)
    ensures Escaped(s, false) == "" <==> s == ""
  {
  }

  lemma CharsAreRead(doc: Doc, s: string)
    requires doc.stack != [] ==> !doc.stack[0].EofF?
    ensures ReadPiece(doc, Chars(Escaped(s, false))) == Some(doc.(read := doc.read + [CharData(AllAllowed(s))]))
  {
    CharsScanBack(s);
    hide Scan;
  }

  lemma ReadAllMore(out: seq<Piece>, piece: Piece)
    ensures ReadAll(out + [piece]) == match ReadAll(out) case None => None case Some(doc) => ReadPiece(doc, piece)
  {
    assert (out + [piece])[..|out|] == out;
  }

  lemma StrippedMore(ts: seq<Token>, t: Token)
    ensures Stripped(ts + [t]) == Stripped(ts) + [if t.StartElement? then t.(attrs := PlainOf(t.attrs)) else t]
  {
    assert (ts + [t])[..|ts|] == ts;
  }

  lemma StrippedKind(ts: seq<Token>)
    requires ts != []
    ensures Stripped(ts)[|ts| - 1].CharData? <==> ts[|ts| - 1].CharData?
    ensures ts[|ts| - 1].CharData? ==> Stripped(ts)[|ts| - 1] == ts[|ts| - 1]
  {
  }

  lemma NormalMore(ts: seq<Token>, data: string)
    ensures Normal(ts + [CharData(data)]) == if data == "" then Normal(ts) else Join(Normal(ts), AllAllowed(data))
    ensures Pending(ts + [CharData(data)]) == Pending(ts) + data
  {
    assert (ts + [CharData(data)])[..|ts|] == ts;
    hide AllAllowed, Join;
  }

  lemma PieceIsRead(doc: Doc, piece: Piece)
    requires ReadPiece(doc, piece).Some?
    ensures doc.stack != [] ==> !doc.stack[0].EofF?
  {
    hide RawToken, OpenElement, CloseElement;
  }

  /** Character data after markup, or at the beginning. */
  lemma FirstChars(p: Printing, ts: seq<Token>, doc: Doc, data: string) returns (more: Doc)
    requires Tracks(p, ts, doc) && Pending(ts) == "" && data != ""
    ensures Tracks(p.(out := AddChars(p.out, Escaped(data, false))), ts + [CharData(data)], more)
  {
    hide Mirrors, Escaped, AllAllowed, ReadAll, ReadPiece, Stripped, PlainOf, Normal, Pending;
    var t := CharData(AllAllowed(data));
    more := doc.(read := doc.read + [t]);
    MirrorsTop(p.scope, p.open, doc.ns, doc.stack);
    CharsAreRead(doc, data);
    ReadAllMore(p.out, Chars(Escaped(data, false)));
    NothingRead();
    StrippedMore(doc.read, t);
    EscapedIsSome(data);
    if doc.read != [] {
      StrippedKind(doc.read);
    }
    NormalMore(ts, data);
    assert "" + data == data;
  }

  lemma NothingRead()
    ensures ReadAll([]) == Some(Doc(map[], [], []))
  {
  }

  /** More character data. */
  lemma MoreChars(p: Printing, ts: seq<Token>, doc: Doc, data: string) returns (more: Doc)
    requires Tracks(p, ts, doc) && Pending(ts) != "" && data != ""
    ensures Tracks(p.(out := AddChars(p.out, Escaped(data, false))), ts + [CharData(data)], more)
  {
    hide Mirrors, Escaped, AllAllowed, ReadAll, ReadPiece, Stripped, PlainOf, Normal, Pending;
    var last := |p.out| - 1;
    var o, pending := p.out[..last], Pending(ts);
    assert p.out == o + [Chars(Escaped(pending, false))];
    ReadAllMore(o, Chars(Escaped(pending, false)));
    var was := ReadAll(o).value;
    PieceIsRead(was, Chars(Escaped(pending, false)));
    CharsAreRead(was, pending);
    CharsAreRead(was, pending + data);
    ReadAllMore(o, Chars(Escaped(pending + data, false)));
    var t, u := CharData(AllAllowed(pending)), CharData(AllAllowed(pending + data));
    more := was.(read := was.read + [u]);
    StrippedMore(was.read, t);
    StrippedMore(was.read, u);
    EscapedMore(pending, data, false);
    AllAllowedMore(pending, data);
    EscapedIsSome(data);
    NormalMore(ts, data);
    assert Join(Stripped(was.read) + [t], AllAllowed(data)) == Stripped(was.read) + [u];
  }

  lemma MirrorsStart(sc: Scope, open: seq<Opened>, ns: Namespaces, stack: seq<Frame>,
                     name: Name, inner: Scope, ens: Namespaces, estack: seq<Frame>)
    requires Mirrors(sc, open, ns, stack)
    requires Inverse(inner) && Clean(inner) && Agree(inner, ens)
    requires Writable(inner, name.space, false) && PlainStart(name, [])
    requires estack != [] && estack[0] == StartF(name) && Unbind(ens, estack[1..]) == (ns, stack)
    ensures Mirrors(inner, open + [Opened(name, sc)], ens, estack)
  {
    assert (open + [Opened(name, sc)])[..|open|] == open;
    hide Inverse, Clean, Agree, Writable, PlainStart, Unbind;
  }

  /** The start tag is read, and what was open before it can be found below its record. */
  lemma StartIsRead(isName: string -> bool, p: Printing, doc: Doc, name: Name, attrs: seq<Attr>)
    returns (w: Work, more: Doc)
    requires Mirrors(p.scope, p.open, doc.ns, doc.stack) && PlainStart(name, attrs)
    requires StartWork(isName, Work(p.scope, [], p.next), name, attrs).Some?
    ensures StartWork(isName, Work(p.scope, [], p.next), name, attrs) == Some(w)
    ensures ReadPiece(doc, StartTagFor(w, name, attrs)) == Some(more)
    ensures Mirrors(w.scope, p.open + [Opened(name, p.scope)], more.ns, more.stack)
    ensures more.read != [] && more.read == doc.read + [more.read[|more.read| - 1]]
    ensures var t := more.read[|more.read| - 1];
      t.StartElement? && t.name == name && PlainOf(t.attrs) == PlainOf(attrs)
  {
    w := StartWork(isName, Work(p.scope, [], p.next), name, attrs).value;
    var tag := StartTagFor(w, name, attrs);
    var d := At(NO_TABLES, doc, "");
    MirrorsTop(p.scope, p.open, doc.ns, doc.stack);
    NameIsPlain(name, attrs);
    TagIsNoChars(w, name, attrs);
    hide Mirrors, Inverse, Clean, Agree, PlainStart, StartWork, StartTagFor, TakeToken, Scan, Unbind, Writable, PlainOf;
    StartComesBack(isName, p.scope, p.next, name, attrs, d);
    var (e, t) := TakeToken(d, "", Scan(tag).value);
    more := Doc(e.ns, e.stack, doc.read + [t.value]);
    MirrorsStart(p.scope, p.open, doc.ns, doc.stack, name, w.scope, e.ns, e.stack);
  }

  lemma NameIsPlain(name: Name, attrs: seq<Attr>)
    requires PlainStart(name, attrs)
    ensures PlainStart(name, [])
  {
  }

  lemma StartTracks(isName: string -> bool, p: Printing, ts: seq<Token>, doc: Doc, name: Name, attrs: seq<Attr>)
    returns (more: Doc)
    requires Tracks(p, ts, doc) && PlainStart(name, attrs) && PrintToken(isName, p, StartElement(name, attrs)).Some?
    ensures Tracks(PrintToken(isName, p, StartElement(name, attrs)).value, ts + [StartElement(name, attrs)], more)
  {
    hide Mirrors, PlainStart, StartWork, StartTagFor, ReadPiece, ReadAll, Stripped, PlainOf, Normal, Pending;
    var w;
    w, more := StartIsRead(isName, p, doc, name, attrs);
    ReadAllMore(p.out, StartTagFor(w, name, attrs));
    StrippedMore(doc.read, more.read[|more.read| - 1]);
    MarkupIsNormal(ts, StartElement(name, attrs));
    TagIsNoChars(w, name, attrs);
  }

  lemma TagIsNoChars(w: Work, name: Name, attrs: seq<Attr>)
    ensures StartTagFor(w, name, attrs).StartTag?
  {
  }

  lemma MarkupIsNormal(ts: seq<Token>, t: Token)
    requires !t.CharData?
    ensures Normal(ts + [t]) == Normal(ts) + [if t.StartElement? then t.(attrs := PlainOf(t.attrs)) else t]
    ensures Pending(ts + [t]) == ""
  {
    assert (ts + [t])[..|ts|] == ts;
    hide PlainOf;
  }

  lemma EndTracks(isName: string -> bool, p: Printing, ts: seq<Token>, doc: Doc, name: Name)
    returns (more: Doc)
    requires Tracks(p, ts, doc) && PrintToken(isName, p, EndElement(name)).Some?
    ensures Tracks(PrintToken(isName, p, EndElement(name)).value, ts + [EndElement(name)], more)
  {
    var tag := EndTag(Spelled(p.scope, name, false));
    var d := At(NO_TABLES, doc, "");
    MirrorsTop(p.scope, p.open, doc.ns, doc.stack);
    ElementComesBack(p.scope, doc.ns, name);
    hide Inverse, Clean, Agree, Writable, Spelled, Split, Translate, Unbind;
    hide ReadAll, Stripped, PlainOf, Normal, Pending;
    var (e, t) := TakeToken(d, "", Scan(tag).value);
    assert t == Some(EndElement(name)) && Mirrors(p.open[|p.open| - 1].outer, p.open[..|p.open| - 1], e.ns, e.stack);
    more := Doc(e.ns, e.stack, doc.read + [t.value]);
    hide Mirrors, TakeToken;
    ReadAllMore(p.out, tag);
    StrippedMore(doc.read, t.value);
    MarkupIsNormal(ts, EndElement(name));
  }

  lemma NothingTracks(isName: string -> bool)
    ensures PrintAll(isName, []).Some? && Tracks(PrintAll(isName, []).value, [], Doc(map[], [], []))
  {
  }

  /** After any tokens the encoder accepts, the decoder has read them back, and the two agree. */
  lemma {:induction false} EncodedTracks(isName: string -> bool, ts: seq<Printable>) returns (doc: Doc)
    requires PrintAll(isName, ts).Some? && forall t <- ts :: PlainToken(t)
    ensures Tracks(PrintAll(isName, ts).value, ts, doc)
  {
    hide Tracks, PrintToken, PlainToken;
    if ts == [] {
      NothingTracks(isName);
      return Doc(map[], [], []);
    }
    var before, t := ts[..|ts| - 1], ts[|ts| - 1];
    assert ts == before + [t];
    doc := EncodedTracks(isName, before);
    assert t in ts;
    doc := TokenTracks(isName, PrintAll(isName, before).value, before, doc, t);
  }

  lemma TokenTracks(isName: string -> bool, p: Printing, ts: seq<Token>, doc: Doc, t: Printable) returns (more: Doc)
    requires Tracks(p, ts, doc) && PlainToken(t) && PrintToken(isName, p, t).Some?
    ensures Tracks(PrintToken(isName, p, t).value, ts + [t], more)
  {
    hide Mirrors, StartWork;
    match t
    case StartElement(name, attrs) => more := StartTracks(isName, p, ts, doc, name, attrs);
    case EndElement(name) => more := EndTracks(isName, p, ts, doc, name);
    case CharData(data) =>
      if data == "" {
        NormalMore(ts, data);
        EscapedIsSome(data);
        assert Pending(ts) + data == Pending(ts);
        more := doc;
      } else if Pending(ts) == "" {
        more := FirstChars(p, ts, doc, data);
      } else {
        more := MoreChars(p, ts, doc, data);
      }
  }

  // ---------------------------------------------------------------- the round trip

  lemma {:induction false} PartIsRead(out: seq<Piece>, k: nat)
    requires ReadAll(out).Some? && k <= |out|
    ensures ReadAll(out[..k]).Some? && |ReadAll(out[..k]).value.read| == k
  {
    hide ReadPiece;
    if k == |out| {
      assert out[..k] == out;
      if k > 0 {
        PartIsRead(out[..k - 1], k - 1);
        assert out[..k - 1][..k - 1] == out[..k - 1];
        OnePieceMore(ReadAll(out[..k - 1]).value, out[k - 1]);
      }
    } else {
      PartIsRead(out[..|out| - 1], k);
      assert out[..|out| - 1][..k] == out[..k];
    }
  }

  lemma OnePieceMore(doc: Doc, piece: Piece)
    requires ReadPiece(doc, piece).Some?
    ensures |ReadPiece(doc, piece).value.read| == |doc.read| + 1
  {
  }

  /** The next call of Token reads the next piece. */
  lemma TokenReadsPiece(tables: Tables, doc: Doc, piece: Piece, rest: string)
    requires ReadPiece(doc, piece).Some? && TextOf(piece) != ""
    requires ScanToken(tables, TextOf(piece) + rest) == Some(Scanned(Scan(piece).value, false, rest))
    ensures var more := ReadPiece(doc, piece).value;
      more.read != [] && more.read == doc.read + [more.read[|more.read| - 1]]
      && NextToken(At(tables, doc, TextOf(piece) + rest), "")
         == (At(tables, more, rest), Some(more.read[|more.read| - 1]))
  {
    hide Scan, ScanToken, TakeToken, TextOf;
    TakeAnyInput(doc, tables, rest, Scan(piece).value);
    assert TextOf(piece) + rest != "";
    assert RawToken(At(tables, doc, TextOf(piece) + rest)) == (At(tables, doc, rest), Some(Scan(piece).value));
    var (e, u) := TakeToken(At(NO_TABLES, doc, ""), "", Scan(piece).value);
    var more := ReadPiece(doc, piece).value;
    assert more == Doc(e.ns, e.stack, doc.read + [u.value]) && more.read[|more.read| - 1] == u.value;
    assert NextToken(At(tables, doc, TextOf(piece) + rest), "")
        == TakeToken(At(tables, doc, rest), "", Scan(piece).value);
  }

  lemma TakeAnyInput(doc: Doc, tables: Tables, input: string, t: Token)
    ensures var (e, u) := TakeToken(At(NO_TABLES, doc, ""), "", t);
      u.Some? ==> TakeToken(At(tables, doc, input), "", t) == (At(tables, Doc(e.ns, e.stack, doc.read), input), u)
  {
    hide Translate, TranslateAll, Unbind, BindAll;
    match t
    case StartElement(name, attrs) =>
      var d := At(NO_TABLES, doc, "");
      BindAllAnyInput(d, tables, input, attrs);
      BindAllReadsNothing(d, attrs);
      assert d.(tables := tables, input := input) == At(tables, doc, input);
    case _ =>
  }

  lemma {:induction false} BindAllAnyInput(d: Decoding, tables: Tables, input: string, attrs: seq<Attr>)
    ensures BindAll(d.(tables := tables, input := input), attrs) == BindAll(d, attrs).(tables := tables, input := input)
    decreases |attrs|
  {
    if attrs == [] {
    } else {
      var name := attrs[0].name;
      var e := if name.space == "xmlns" then Bind(d, name.local, attrs[0].value) else d;
      var f := if name.space == "" && name.local == "xmlns" then Bind(e, "", attrs[0].value) else e;
      BindAllAnyInput(f, tables, input, attrs[1..]);
    }
  }

  lemma EndIsReached(tables: Tables, doc: Doc)
    requires doc.stack != [] ==> !doc.stack[0].EofF?
    ensures var d := At(tables, doc, "");
      NextToken(d, "") == (d.(err := Some(EndOfInput)), None) && d.stack == doc.stack
  {
  }

  /** What the encoder wrote can be scanned tag by tag. */
  ghost predicate Scannable(tables: Tables, out: seq<Piece>) {
    TablesOk(tables) && (forall piece <- out :: WellWritten(tables, piece)) && Apart(out)
  }

  lemma TextFollows(tables: Tables, out: seq<Piece>, k: nat)
    requires Scannable(tables, out) && k < |out|
    ensures TextOfAll(out[k..]) == TextOf(out[k]) + TextOfAll(out[k + 1..])
    ensures TextOf(out[k]) != "" && Scan(out[k]).Some?
    ensures ScanToken(tables, TextOfAll(out[k..])) == Some(Scanned(Scan(out[k]).value, false, TextOfAll(out[k + 1..])))
  {
    hide TablesOk, WellWritten, Scan, ScanToken;
    assert out[k] in out && out[k..][1..] == out[k + 1..];
    if k + 1 < |out| {
      assert out[k + 1..][0] == out[k + 1];
    }
    PieceIsScanned(tables, out[k], TextOfAll(out[k + 1..]));
  }

  /** What one call of Token does after k pieces of a document that can be read. */
  lemma NextOf(tables: Tables, out: seq<Piece>, k: nat)
    requires Scannable(tables, out) && ReadAll(out).Some? && k <= |out|
    requires var last := ReadAll(out).value.stack; last != [] ==> !last[0].EofF?
    ensures ReadAll(out[..k]).Some?
    ensures var (e, t) := NextToken(At(tables, ReadAll(out[..k]).value, TextOfAll(out[k..])), "");
      if k == |out| then t.None? && e.err == Some(EndOfInput) && e.stack == ReadAll(out).value.stack
      else
        && t.Some? && ReadAll(out[..k + 1]).Some?
        && e == At(tables, ReadAll(out[..k + 1]).value, TextOfAll(out[k + 1..]))
        && ReadAll(out[..k + 1]).value.read == ReadAll(out[..k]).value.read + [t.value]
  {
    hide ReadAll, ReadPiece, NextToken, At, Scannable, Scan, ScanToken;
    PartIsRead(out, k);
    if k == |out| {
      assert out[..k] == out && out[k..] == [];
      EndIsReached(tables, ReadAll(out).value);
    } else {
      PartIsRead(out, k + 1);
      assert out[..k + 1] == out[..k] + [out[k]];
      ReadAllMore(out[..k], out[k]);
      TextFollows(tables, out, k);
      TokenReadsPiece(tables, ReadAll(out[..k]).value, out[k], TextOfAll(out[k + 1..]));
    }
  }

  /** The whole of it can be read, and no call on the way meets a fence. */
  ghost predicate Readable(tables: Tables, out: seq<Piece>) {
    && Scannable(tables, out) && ReadAll(out).Some?
    && var last := ReadAll(out).value.stack; last != [] ==> !last[0].EofF?
  }

  /** Where a decoder is that has read the first k pieces. */
  ghost predicate HasRead(out: seq<Piece>, k: nat, d: Decoding, read: seq<Token>) {
    && k <= |out| && ReadAll(out[..k]).Some?
    && read == ReadAll(out[..k]).value.read && d == At(d.tables, ReadAll(out[..k]).value, TextOfAll(out[k..]))
  }

  lemma StartsReading(tables: Tables, out: seq<Piece>)
    ensures HasRead(out, 0, Fresh(tables, TextOfAll(out)), [])
  {
    assert out[0..] == out;
    NothingRead();
  }

  lemma KeepsReading(out: seq<Piece>, k: nat, d: Decoding, read: seq<Token>)
    requires Readable(d.tables, out) && HasRead(out, k, d, read)
    ensures var (e, t) := NextToken(d, "");
      if t.Some? then HasRead(out, k + 1, e, read + [t.value]) && e.tables == d.tables
      else read == ReadAll(out).value.read && e.err == Some(EndOfInput) && e.stack == ReadAll(out).value.stack
  {
    NextOf(d.tables, out, k);
    assert out[..|out|] == out;
    hide ReadAll, NextToken, Scannable;
  }

  /** Calls Token on the text of some pieces until it fails, and tells whether any element is open
      then. */
  method ReadTokens(tables: Tables, out: seq<Piece>)
    returns (read: seq<Token>, err: Option<DecodeError>, closed: bool)
    ensures Readable(tables, out) ==>
      read == ReadAll(out).value.read && err == Some(EndOfInput) && (closed <==> ReadAll(out).value.stack == [])
  {
    hide ReadAll, NextToken, Readable, HasRead;
    var d := new XmlDecoder.Decoder(tables, TextOfAll(out), "");
    read := [];
    StartsReading(tables, out);
    ghost var k := 0;
    while true
      invariant d.Valid() && fresh(d) && fresh(d.repr) && d.defaultSpace == "" && d.tables == tables
      invariant Readable(tables, out) ==> HasRead(out, k, d.State(), read)
      decreases Left(d.State())
    {
      TokenTakesInput(d.State(), "");
      if Readable(tables, out) {
        KeepsReading(out, k, d.State(), read);
      }
      var t := d.Token();
      if t.None? {
        break;
      }
      read := read + [t.value];
      k := k + 1;
    }
    err := d.err;
    d.TopOfStack();
    closed := d.stk == null;
  }

  lemma TracksIs(p: Printing, ts: seq<Token>, doc: Doc)
    requires Tracks(p, ts, doc)
    ensures ReadAll(p.out) == Some(doc) && Stripped(doc.read) == Normal(ts)
    ensures doc.stack != [] ==> doc.stack[0].StartF?
    ensures doc.stack == [] <==> p.open == []
  {
    MirrorsTop(p.scope, p.open, doc.ns, doc.stack);
  }

  function NamesOf(open: seq<Opened>): seq<Name> {
    if open == [] then [] else [open[|open| - 1].name] + NamesOf(open[..|open| - 1])
  }

  lemma OpenAfterOne(isName: string -> bool, p: Printing, t: Printable)
    requires PrintToken(isName, p, t).Some?
    ensures Replay(NamesOf(p.open), [t]) == Some(NamesOf(PrintToken(isName, p, t).value.open))
  {
    hide PrintToken;
    var q := PrintToken(isName, p, t).value;
    assert [t][1..] == [];
    match t
    case StartElement(name, attrs) =>
      StartIsOnTop(isName, p, name, attrs);
      assert q.open[..|q.open| - 1] == p.open;
    case EndElement(name) =>
      EndPutsBack(isName, p, name);
      EndIsOfLast(isName, p, name);
      assert NamesOf(p.open)[1..] == NamesOf(q.open);
    case CharData(data) => CharsKeepScope(isName, p, data);
  }

  lemma EndIsOfLast(isName: string -> bool, p: Printing, name: Name)
    requires PrintToken(isName, p, EndElement(name)).Some?
    ensures p.open != [] && p.open[|p.open| - 1].name == name
  {
    hide Spelled;
  }

  /** The elements the encoder has open are those the tokens leave open. */
  lemma {:induction false} OpenAfter(isName: string -> bool, ts: seq<Printable>)
    requires PrintAll(isName, ts).Some?
    ensures Replay([], ts) == Some(NamesOf(PrintAll(isName, ts).value.open))
  {
    if ts == [] {
      assert NamesOf([]) == [];
    } else {
      hide PrintToken, Replay, NamesOf;
      var before, t := ts[..|ts| - 1], ts[|ts| - 1];
      assert ts == before + [t];
      OpenAfter(isName, before);
      ReplayMore([], before, [t]);
      OpenAfterOne(isName, PrintAll(isName, before).value, t);
    }
  }

  /** A start tag the encoder takes has a name, and declares no default namespace under a prefix. */
  ghost predicate StartOk(t: Token) {
    t.StartElement? ==> t.name.local != "" && !(exists a <- t.attrs :: BadDeclaration(a))
  }

  lemma OneAccepted(isName: string -> bool, p: Printing, t: Printable)
    requires forall o <- p.open :: o.name.local != ""
    ensures PrintToken(isName, p, t).Some? <==> StartOk(t) && Replay(NamesOf(p.open), [t]).Some?
    ensures PrintToken(isName, p, t).Some? ==> forall o <- PrintToken(isName, p, t).value.open :: o.name.local != ""
  {
    assert [t][1..] == [];
    match t
    case StartElement(name, attrs) =>
      BadStartStaysOpen(isName, p, name, attrs);
      hide StartWork, StartTagFor;
    case EndElement(name) =>
      hide Spelled;
      assert p.open != [] ==> p.open[|p.open| - 1] in p.open;
    case CharData(data) =>
  }

  /** The encoder takes tokens exactly if they are well nested, every start tag has a name and none
      declares a default namespace under a prefix. */
  lemma {:induction false} AcceptedIff(isName: string -> bool, ts: seq<Printable>)
    ensures PrintAll(isName, ts).Some? <==> Replay([], ts).Some? && forall t <- ts :: StartOk(t)
    ensures PrintAll(isName, ts).Some? ==> forall o <- PrintAll(isName, ts).value.open :: o.name.local != ""
  {
    if ts == [] {
    } else {
      hide PrintToken, Replay, NamesOf, StartOk;
      var before, t := ts[..|ts| - 1], ts[|ts| - 1];
      assert ts == before + [t];
      AcceptedIff(isName, before);
      ReplayMore([], before, [t]);
      if PrintAll(isName, before).Some? {
        OpenAfter(isName, before);
        OneAccepted(isName, PrintAll(isName, before).value, t);
      }
    }
  }

  /** Encode then decode. A fresh decoder on the text a fresh encoder wrote returns, token by token,
      every element with its namespace and local name, every attribute that is no declaration
      with its namespace, local name and value, and the character data; then the end of the
      input. Nothing is open then exactly if the tokens were balanced. */
  method EncodeAndDecode(tables: Tables, ts: seq<Printable>)
    returns (ok: bool, read: seq<Token>, err: Option<DecodeError>, closed: bool)
    ensures ok == PrintAll(NameTest(tables), ts).Some?
    ensures ok && TablesOk(tables) && (forall t <- ts :: PlainToken(t) && NamedToken(tables, t)) ==>
      Stripped(read) == Normal(ts) && err == Some(EndOfInput) && (closed <==> Replay([], ts) == Some([]))
  {
    hide PrintAll, Tracks, ReadAll, Stripped, Normal, NamedToken, IsName, TablesOk, Replay, PrefixesNamed, WellWritten;
    read, err, closed := [], None, true;
    var p;
    ok, p := XmlPrinter.Encode(NameTest(tables), ts);
    if !ok {
      return;
    }
    read, err, closed := ReadTokens(tables, p.out);
    if TablesOk(tables) && forall t <- ts :: PlainToken(t) && NamedToken(tables, t) {
      ghost var doc := EncodedTracks(NameTest(tables), ts);
      TracksIs(PrintAll(NameTest(tables), ts).value, ts, doc);
      OpenAfter(NameTest(tables), ts);
      OnlyNamesAreWritten(tables, ts);
    }
  }

  /** The prefix "xml" declared for another namespace is lost: it is written for that namespace
      but read as the predefined one. */
  lemma RedeclaredXmlIsLost(isName: string -> bool)
    ensures var t := StartElement(Name("u", "a"), [Attr(Name("xmlns", "xml"), "u")]);
      && PrintAll(isName, [t]).Some?
      && var doc := ReadAll(PrintAll(isName, [t]).value.out);
         && doc.Some? && |doc.value.read| == 1
         && doc.value.read[0].StartElement? && doc.value.read[0].name == Name(XML_URL, "a")
  {
    var tag := StartTag(Qualified("xml", "a"), [Written(Qualified("xmlns", "xml"), Escaped("u", true))]);
    var name, attr := Name("u", "a"), Attr(Name("xmlns", "xml"), "u");
    var w := Work(Scope("", map["xml" := "u"], map["u" := "xml"]), ["xml"], 0);
    hide Escaped, Qualified, PrintAll, ReadAll;
    XmlIsDeclared(isName, name, attr, w);
    XmlIsWritten(name, attr, w, tag);
    OnlyStartIsPrinted(isName, name, [attr], w);
    XmlIsRead(attr, tag);
    OnlyPieceIsRead(tag);
  }

  lemma OnlyStartIsPrinted(isName: string -> bool, name: Name, attrs: seq<Attr>, w: Work)
    requires name.local != "" && StartWork(isName, Work(FRESH, [], 0), name, attrs) == Some(w)
    ensures var p := PrintAll(isName, [StartElement(name, attrs)]);
      p.Some? && p.value.out == [StartTagFor(w, name, attrs)]
  {
    hide StartWork, StartTagFor;
    var ts: seq<Printable> := [StartElement(name, attrs)];
    assert ts[..0] == [];
  }

  lemma OnlyPieceIsRead(piece: Piece)
    requires Scan(piece).Some? && TakeToken(At(NO_TABLES, Doc(map[], [], []), ""), "", Scan(piece).value).1.Some?
    ensures var doc, t := ReadAll([piece]), TakeToken(At(NO_TABLES, Doc(map[], [], []), ""), "", Scan(piece).value).1;
      doc.Some? && doc.value.read == [t.value]
  {
    hide Scan, TakeToken;
    assert [piece][..0] == [];
  }

  lemma XmlIsWritten(name: Name, attr: Attr, w: Work, tag: Piece)
    requires name == Name("u", "a") && attr == Attr(Name("xmlns", "xml"), "u")
    requires w == Work(Scope("", map["xml" := "u"], map["u" := "xml"]), ["xml"], 0)
    requires tag == StartTag(Qualified("xml", "a"), [Written(Qualified("xmlns", "xml"), Escaped("u", true))])
    ensures StartTagFor(w, name, [attr]) == tag
  {
    hide Escaped;
    assert PlainAttrs(w.scope, [attr]) == [];
    assert Declarations(w.scope, ["xml"]) == [Declaration(w.scope, "xml")];
    assert "xmlns:" + "xml" == Qualified("xmlns", "xml");
  }

  lemma XmlIsRead(attr: Attr, tag: Piece)
    requires attr == Attr(Name("xmlns", "xml"), "u")
    requires tag == StartTag(Qualified("xml", "a"), [Written(Qualified("xmlns", "xml"), Escaped("u", true))])
    ensures Scan(tag).Some?
    ensures var t := TakeToken(At(NO_TABLES, Doc(map[], [], []), ""), "", Scan(tag).value).1;
      t.Some? && t.value.StartElement? && t.value.name == Name(XML_URL, "a")
  {
    XmlIsScanned(attr, tag);
    XmlIsBound(At(NO_TABLES, Doc(map[], [], []), ""), attr);
    hide Scan, BindAll;
  }

  lemma XmlIsScanned(attr: Attr, tag: Piece)
    requires attr == Attr(Name("xmlns", "xml"), "u")
    requires tag == StartTag(Qualified("xml", "a"), [Written(Qualified("xmlns", "xml"), Escaped("u", true))])
    ensures Scan(tag) == Some(StartElement(Name("xml", "a"), [attr]))
  {
    hide ScanValue, Split, Escaped, Qualified, AllAllowed, TextFrom;
    ValueScansBack("u");
    assert AllAllowed("u") == "u" by { assert AllInRange("u"); }
    assert ':' !in "xml" && ':' !in "xmlns";
    SplitQualified("xml", "a");
    SplitQualified("xmlns", "xml");
    assert Split(Qualified("xml", "a")) == Name("xml", "a");
    assert tag.attrs[1..] == [] && Split(tag.attrs[0].name) == Name("xmlns", "xml");
    assert ScanValue(tag.attrs[0].value) == Some("u");
    assert ScanAttrs(tag.attrs[1..]) == Some([]) && [attr] + [] == [attr];
    assert ScanAttrs(tag.attrs) == Some([attr]);
  }

  lemma XmlIsBound(d: Decoding, attr: Attr)
    requires attr == Attr(Name("xmlns", "xml"), "u") && d.ns == map[]
    ensures XML_URL !in BindAll(d, [attr]).ns
  {
    var none: seq<Attr> := [];
    var c := Bind(d, "xml", "u");
    assert [attr][1..] == none;
    assert attr.name.space != "";
    assert BindAll(c, none) == c;
    assert BindAll(d, [attr]) == c;
    assert XML_URL != "xml";
  }

  lemma XmlIsDeclared(isName: string -> bool, name: Name, attr: Attr, w: Work)
    requires name == Name("u", "a") && attr == Attr(Name("xmlns", "xml"), "u")
    requires w == Work(Scope("", map["xml" := "u"], map["u" := "xml"]), ["xml"], 0)
    ensures StartWork(isName, Work(FRESH, [], 0), name, [attr]) == Some(w)
  {
    var start := Work(FRESH, [], 0);
    assert FRESH.attrPrefix - {""} == map[];
    assert Push(start, "xml", "u") == w;
    assert [attr][1..] == [];
    assert DefineAll(start, [attr], false) == Some(w);
    assert CreateAll(isName, w, [attr]) == w;
    hide Hint;
  }
}
