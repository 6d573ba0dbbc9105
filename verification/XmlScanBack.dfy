/** What the encoder writes, as the decoder's scanner reads it: names where names are read, escaped
    text elsewhere, so that the text is scanned tag by tag as it was written. */
module XmlScanBack {
  import opened Decimals
  import opened Options
  import opened XmlMarkup
  import opened XmlNames
  import opened XmlScope
  import opened XmlText

  /** What is used of the tables: a name is not cut off at a character that may be in one, digits
      may be in a name, and a name may begin with an underscore, a colon or a small letter. */
  ghost predicate TablesOk(tables: Tables) {
    && (forall c: char :: tables.first(c) || tables.second(c) ==>
          c as int >= 0x80 || 'A' <= c <= 'Z' || 'a' <= c <= 'z' || '0' <= c <= '9' || c in {'_', ':', '.', '-'})
    && (forall c: char :: '0' <= c <= '9' ==> tables.second(c))
    && (forall c: char :: c == '_' || c == ':' || 'a' <= c <= 'z' ==> tables.first(c))
  }

  /** The test the encoder makes of the prefixes it thinks of. */
  function NameTest(tables: Tables): string -> bool {
    s => IsName(tables, s)
  }

  // ---------------------------------------------------------------- names and attributes

  /** What stands before a character that can be in no name is read, as a whole, exactly if it is
      a name: a character of the first table, and then such of either. */
  lemma NameIsReadIff(tables: Tables, s: string, rest: string)
    requires TablesOk(tables) && rest != "" && !IsNameChar(rest[0])
    ensures NameAt(tables, s + rest) == Some((s, rest)) <==> IsName(tables, s)
    ensures IsName(tables, s) <==>
      |s| > 0 && tables.first(s[0]) && forall i :: 0 < i < |s| ==> tables.first(s[i]) || tables.second(s[i])
  {
    assert forall i :: 0 <= i < |s| ==> s[i] in s;
    var text := s + rest;
    var n := NameLength(text);
    assert text[|s|] == rest[0] && text[..|s|] == s && text[|s|..] == rest;
    if IsName(tables, s) {
      forall i | 0 <= i < |s|
        ensures IsNameChar(text[i])
      {
        assert text[i] == s[i] && s[i] in s;
      }
      assert n == |s|;
    }
  }

  /** An attribute with a name, and a value that is escaped. */
  ghost predicate AttrOk(tables: Tables, a: Written) {
    IsName(tables, a.name) && exists v :: a.value == Escaped(v, true)
  }

  function AttrText(a: Written): string {
    a.name + "=" + "\"" + a.value + "\""
  }

  lemma QualifiedIsScanned(tables: Tables, name: string, rest: string)
    requires TablesOk(tables) && IsName(tables, name) && rest != "" && !IsNameChar(rest[0])
    ensures QualifiedAt(tables, name + rest) == Some((Split(name), rest))
  {
    NameIsReadIff(tables, name, rest);
    hide Split, NameAt, IsName, TablesOk;
  }

  lemma ValueIsScanned(v: string, rest: string)
    ensures ScanValue(Escaped(v, true)) == Some(AllAllowed(v))
    ensures ValueAt("\"" + Escaped(v, true) + "\"" + rest) == Some((AllAllowed(v), rest))
  {
    ValueScansBack(v);
    QuotedRoundTrip(v, '"', rest);
    var s := "\"" + Escaped(v, true) + "\"" + rest;
    hide TextFrom, ScanValue, Escaped;
    assert s[1..] == Escaped(v, true) + ['"'] + rest;
  }

  lemma AttrIsScanned(tables: Tables, a: Written, rest: string)
    requires TablesOk(tables) && AttrOk(tables, a)
    ensures ScanValue(a.value).Some?
    ensures AttrAt(tables, AttrText(a) + rest) == Some((Attr(Split(a.name), ScanValue(a.value).value), rest))
  {
    var v :| a.value == Escaped(v, true);
    ValueIsScanned(v, rest);
    var quoted := "\"" + a.value + "\"" + rest;
    hide TablesOk, IsName, QualifiedAt, ValueAt, ScanValue, Split, Escaped, AttrText;
    QualifiedIsScanned(tables, a.name, "=" + quoted);
    AttrTextIs(a, rest);
  }

  lemma AttrTextIs(a: Written, rest: string)
    ensures var quoted := "\"" + a.value + "\"" + rest;
      AttrText(a) + rest == a.name + ("=" + quoted) && ("=" + quoted)[1..] == quoted
  {
  }

  // ---------------------------------------------------------------- tags and text

  ghost predicate WellWritten(tables: Tables, piece: Piece) {
    match piece
    case Chars(text) => exists data :: data != "" && text == Escaped(data, false)
    case EndTag(name) => IsName(tables, name)
    case StartTag(name, attrs) => IsName(tables, name) && forall a <- attrs :: AttrOk(tables, a)
  }

  function AttrsText(attrs: seq<Written>): string {
    if attrs == [] then "" else " " + AttrText(attrs[0]) + AttrsText(attrs[1..])
  }

  function TextOf(piece: Piece): string {
    match piece
    case Chars(text) => text
    case EndTag(name) => "</" + name + ">"
    case StartTag(name, attrs) => "<" + name + AttrsText(attrs) + ">"
  }

  /** What is written. */
  function TextOfAll(out: seq<Piece>): string {
    if out == [] then "" else TextOf(out[0]) + TextOfAll(out[1..])
  }

  lemma NameStarts(tables: Tables, s: string, rest: string)
    requires TablesOk(tables) && IsName(tables, s)
    ensures var text := s + rest;
      text != "" && IsNameChar(text[0]) && !IsSpace(text[0]) && text[0] !in {'/', '>', '?', '!', '<'}
  {
    assert s[0] in s;
  }

  lemma SpaceSkipped(s: string)
    requires s != "" && !IsSpace(s[0])
    ensures SkipSpaces(" " + s) == s
  {
    assert (" " + s)[1..] == s;
  }

  lemma {:induction false} AttrsAreScanned(tables: Tables, ws: seq<Written>, attrs: seq<Attr>, rest: string)
    requires TablesOk(tables) && forall a <- ws :: AttrOk(tables, a)
    ensures ScanAttrs(ws).Some?
    ensures AttrsFrom(tables, AttrsText(ws) + (">" + rest), attrs) == Some((attrs + ScanAttrs(ws).value, false, rest))
    decreases |ws|
  {
    hide AttrOk, ScanValue, Split, TablesOk, AttrAt, AttrText, SkipSpaces, AttrsFrom;
    if ws == [] {
      assert AttrsText(ws) + (">" + rest) == ">" + rest;
      TagEnds(tables, attrs, rest);
      assert attrs + ScanAttrs(ws).value == attrs;
    } else {
      assert ws[0] in ws;
      var after := AttrsText(ws[1..]) + (">" + rest);
      AttrIsScanned(tables, ws[0], after);
      var attr := Attr(Split(ws[0].name), ScanValue(ws[0].value).value);
      AttrStarts(tables, ws[0], after);
      assert AttrsText(ws) + (">" + rest) == " " + (AttrText(ws[0]) + after);
      OneAttrMore(tables, AttrText(ws[0]) + after, attrs);
      AttrsAreScanned(tables, ws[1..], attrs + [attr], rest);
      assert attrs + [attr] + ScanAttrs(ws[1..]).value == attrs + ScanAttrs(ws).value;
    }
  }

  lemma TagEnds(tables: Tables, attrs: seq<Attr>, rest: string)
    ensures AttrsFrom(tables, ">" + rest, attrs) == Some((attrs, false, rest))
  {
    assert (">" + rest)[1..] == rest;
  }

  lemma OneAttrMore(tables: Tables, s: string, attrs: seq<Attr>)
    requires s != "" && !IsSpace(s[0]) && s[0] !in {'/', '>'} && AttrAt(tables, s).Some?
    ensures AttrsFrom(tables, " " + s, attrs) ==
            AttrsFrom(tables, AttrAt(tables, s).value.1, attrs + [AttrAt(tables, s).value.0])
  {
    SpaceSkipped(s);
    hide AttrAt, SkipSpaces;
  }

  lemma AttrStarts(tables: Tables, a: Written, after: string)
    requires TablesOk(tables) && AttrOk(tables, a)
    ensures var text := AttrText(a) + after; text != "" && !IsSpace(text[0]) && text[0] !in {'/', '>'}
  {
    NameStarts(tables, a.name, "=" + "\"" + a.value + "\"" + after);
    assert AttrText(a) + after == a.name + ("=" + "\"" + a.value + "\"" + after);
    hide TablesOk, IsName;
  }

  /** What follows character data: nothing, or markup. */
  predicate EndsText(rest: string) {
    rest == "" || rest[0] == '<'
  }

  /** A tag or a run of character data is scanned as what it was written for, whatever follows. */
  lemma PieceIsScanned(tables: Tables, piece: Piece, rest: string)
    requires TablesOk(tables) && WellWritten(tables, piece) && (piece.Chars? ==> EndsText(rest))
    ensures TextOf(piece) != "" && Scan(piece).Some?
    ensures ScanToken(tables, TextOf(piece) + rest) == Some(Scanned(Scan(piece).value, false, rest))
  {
    match piece
    case Chars(text) => CharsAreScanned(text, tables, rest);
    case EndTag(name) => EndTagIsScanned(tables, name, rest);
    case StartTag(name, attrs) => StartTagIsScanned(tables, name, attrs, rest);
  }

  lemma CharsAreScanned(text: string, tables: Tables, rest: string)
    requires WellWritten(tables, Chars(text)) && EndsText(rest)
    ensures text != "" && Scan(Chars(text)).Some?
    ensures ScanToken(tables, text + rest) == Some(Scanned(Scan(Chars(text)).value, false, rest))
  {
    var data :| data != "" && text == Escaped(data, false);
    CharsScanBack(data);
    TextRoundTrip(data, false, rest);
    EscapedStarts(data);
    hide TextFrom, Escaped;
  }

  lemma EscapedStarts(data: string)
    requires data != ""
    ensures Escaped(data, false) != "" && Escaped(data, false)[0] != '<'
  {
  }

  lemma EndTagIsScanned(tables: Tables, name: string, rest: string)
    requires TablesOk(tables) && IsName(tables, name)
    ensures ScanToken(tables, TextOf(EndTag(name)) + rest) == Some(Scanned(EndElement(Split(name)), false, rest))
  {
    hide QualifiedAt, Split, IsName, TablesOk, ScanToken, TextOf, EndTagAt;
    QualifiedIsScanned(tables, name, ">" + rest);
    EndTagEnds(tables, name + (">" + rest), rest);
    AfterAngle(tables, "/" + (name + (">" + rest)));
    EndTagText(name, rest);
  }

  lemma EndTagEnds(tables: Tables, s: string, rest: string)
    requires QualifiedAt(tables, s).Some? && QualifiedAt(tables, s).value.1 == ">" + rest
    ensures EndTagAt(tables, s) == Some(Scanned(EndElement(QualifiedAt(tables, s).value.0), false, rest))
  {
    assert (">" + rest)[1..] == rest;
    hide QualifiedAt;
  }

  lemma EndTagText(name: string, rest: string)
    ensures TextOf(EndTag(name)) + rest == "<" + ("/" + (name + (">" + rest)))
    ensures ("/" + (name + (">" + rest)))[1..] == name + (">" + rest)
  {
    Regrouped("</", name, ">", rest);
    assert "</" == "<" + "/";
    Regrouped("<", "/", "", name + (">" + rest));
    assert "<" + "/" + "" == "<" + "/" && "" + (name + (">" + rest)) == name + (">" + rest);
  }

  lemma Regrouped(a: string, b: string, c: string, d: string)
    ensures a + b + c + d == a + (b + (c + d))
  {
  }

  lemma StartTagText(name: string, attrs: seq<Written>, rest: string)
    ensures TextOf(StartTag(name, attrs)) + rest == "<" + (name + (AttrsText(attrs) + (">" + rest)))
    ensures (AttrsText(attrs) + (">" + rest))[0] == if attrs == [] then '>' else ' '
  {
    hide AttrText;
    assert (AttrsText(attrs) + (">" + rest))[0] == if attrs == [] then '>' else ' ';
    Regrouped("<", name, AttrsText(attrs), ">" + rest);
    hide AttrsText;
    assert TextOf(StartTag(name, attrs)) == "<" + name + AttrsText(attrs) + ">";
    Joins("<" + name + AttrsText(attrs), ">", rest);
  }

  lemma Joins(a: string, b: string, c: string)
    ensures (a + b) + c == a + (b + c)
  {
  }

  /** What is scanned is told by the character after the angle bracket. */
  lemma AfterAngle(tables: Tables, s: string)
    requires s != ""
    ensures s[0] == '/' ==> ScanToken(tables, "<" + s) == EndTagAt(tables, s[1..])
    ensures s[0] !in {'/', '?', '!'} ==> ScanToken(tables, "<" + s) == StartTagAt(tables, s)
  {
    var text := "<" + s;
    assert text[1..] == s && text[1] == s[0] && text[2..] == s[1..];
    hide EndTagAt, StartTagAt, InstructionAt, DeclarationAt, TextFrom;
  }

  lemma StartTagIsScanned(tables: Tables, name: string, attrs: seq<Written>, rest: string)
    requires TablesOk(tables) && IsName(tables, name) && forall a <- attrs :: AttrOk(tables, a)
    ensures ScanAttrs(attrs).Some?
    ensures ScanToken(tables, TextOf(StartTag(name, attrs)) + rest)
         == Some(Scanned(StartElement(Split(name), ScanAttrs(attrs).value), false, rest))
  {
    hide QualifiedAt, AttrsFrom, ScanAttrs, Split, IsName, TablesOk, AttrOk, ScanToken, TextOf, AttrsText;
    var after := AttrsText(attrs) + (">" + rest);
    StartTagText(name, attrs, rest);
    NameStarts(tables, name, after);
    QualifiedIsScanned(tables, name, after);
    AttrsAreScanned(tables, attrs, [], rest);
    assert [] + ScanAttrs(attrs).value == ScanAttrs(attrs).value;
    AfterAngle(tables, name + after);
  }

  // ---------------------------------------------------------------- what is written

  /** Two runs of character data never follow each other. */
  predicate Apart(out: seq<Piece>) {
    forall i :: 0 <= i < |out| - 1 && out[i].Chars? ==> !out[i + 1].Chars?
  }

  /** The local names of a start tag are names. An attribute without one is not written. */
  predicate NamedToken(tables: Tables, t: Printable) {
    t.StartElement? ==>
      && IsName(tables, t.name.local)
      && forall a <- t.attrs :: a.name.local == "" || IsName(tables, a.name.local)
  }

  ghost predicate PrefixesNamed(tables: Tables, sc: Scope) {
    forall u <- sc.attrPrefix :: sc.attrPrefix[u] == "" || IsName(tables, sc.attrPrefix[u])
  }

  ghost predicate WorkNamed(tables: Tables, w: Work) {
    PrefixesNamed(tables, w.scope) && forall p <- w.declared :: p == "" || IsName(tables, p)
  }

  ghost predicate AllNamed(tables: Tables, p: Printing) {
    && PrefixesNamed(tables, p.scope)
    && (forall o <- p.open :: PrefixesNamed(tables, o.outer) && IsName(tables, o.name.local))
    && (forall piece <- p.out :: WellWritten(tables, piece)) && Apart(p.out)
  }

  lemma Joined(tables: Tables, s: string, t: string)
    requires IsName(tables, s) && NameChars(tables, t)
    ensures IsName(tables, s + t)
  {
  }

  lemma QualifiedIsName(tables: Tables, prefix: string, local: string)
    requires TablesOk(tables) && IsName(tables, local) && (prefix == "" || IsName(tables, prefix))
    ensures IsName(tables, Qualified(prefix, local))
  {
    if prefix != "" {
      Joined(tables, prefix, ":");
      Joined(tables, prefix + ":", local);
    }
  }

  lemma SmallLettersAreName(tables: Tables, s: string)
    requires TablesOk(tables) && s != "" && forall c <- s :: 'a' <= c <= 'z'
    ensures IsName(tables, s)
  {
    assert s[0] in s;
  }

  lemma {:induction false} DecimalIsNameChars(tables: Tables, n: nat)
    requires TablesOk(tables)
    ensures NameChars(tables, Decimal(n))
  {
    if n < 10 {
    } else {
      DecimalIsNameChars(tables, n / 10);
    }
  }

  lemma HintIs(isName: string -> bool, url: string) returns (prefix: string)
    ensures prefix == "_" || isName(prefix)
    ensures Hint(isName, url) == prefix || Hint(isName, url) == "_" + prefix
  {
    hide AfterLastSlash, TrimSlashes;
    var last := AfterLastSlash(TrimSlashes(url));
    prefix := if last == "" || !isName(last) || ':' in last then "_" else last;
  }

  lemma UnderscoreIsName(tables: Tables)
    requires TablesOk(tables)
    ensures IsName(tables, "_")
  {
  }

  lemma HintIsName(tables: Tables, url: string)
    requires TablesOk(tables)
    ensures IsName(tables, Hint(NameTest(tables), url))
  {
    UnderscoreIsName(tables);
    var prefix := HintIs(NameTest(tables), url);
    hide Hint, TablesOk;
    Joined(tables, "_", prefix);
  }

  lemma NumberedIsName(tables: Tables, hint: string, n: nat)
    requires TablesOk(tables) && IsName(tables, hint)
    ensures IsName(tables, Numbered(hint, n))
  {
    DecimalIsNameChars(tables, n);
    Joined(tables, hint, "_");
    Joined(tables, hint + "_", Decimal(n));
  }

  lemma PushKeepsNamed(tables: Tables, w: Work, prefix: string, url: string)
    requires WorkNamed(tables, w) && (prefix == "" || IsName(tables, prefix))
    ensures WorkNamed(tables, Push(w, prefix, url))
  {
    hide IsName;
  }

  lemma {:induction false} DefineAllKeepsNamed(tables: Tables, w: Work, attrs: seq<Attr>, ignoreNonEmptyDefault: bool)
    requires WorkNamed(tables, w) && forall a <- attrs :: a.name.local == "" || IsName(tables, a.name.local)
    ensures var r := DefineAll(w, attrs, ignoreNonEmptyDefault); r.Some? ==> WorkNamed(tables, r.value)
    decreases |attrs|
  {
    hide IsName, WorkNamed, Push;
    if attrs == [] {
    } else {
      assert attrs[0] in attrs;
      PushKeepsNamed(tables, w, "", attrs[0].value);
      if attrs[0].name.local != "" {
        PushKeepsNamed(tables, w, attrs[0].name.local, attrs[0].value);
      }
      var r := Define(w, attrs[0], ignoreNonEmptyDefault);
      if r.Some? {
        DefineAllKeepsNamed(tables, r.value, attrs[1..], ignoreNonEmptyDefault);
      }
    }
  }

  lemma CreatePrefixKeepsNamed(tables: Tables, w: Work, url: string, isAttr: bool)
    requires TablesOk(tables) && WorkNamed(tables, w)
    ensures WorkNamed(tables, CreatePrefix(NameTest(tables), w, url, isAttr))
  {
    hide IsName, WorkNamed, Push, Hint, Numbered, CreatePrefix, TablesOk;
    var isName := NameTest(tables);
    var prefix, next := NewPrefixIsFree(isName, w, url, isAttr);
    HintIsName(tables, url);
    NumberedIsName(tables, Hint(isName, url), next);
    PushKeepsNamed(tables, w, "", "");
    CountKeepsNamed(tables, w, next);
    PushKeepsNamed(tables, w.(next := next), prefix, url);
  }

  lemma CountKeepsNamed(tables: Tables, w: Work, next: nat)
    requires WorkNamed(tables, w)
    ensures WorkNamed(tables, w.(next := next))
  {
  }

  lemma {:induction false} CreateAllKeepsNamed(tables: Tables, w: Work, attrs: seq<Attr>)
    requires TablesOk(tables) && WorkNamed(tables, w)
    ensures WorkNamed(tables, CreateAll(NameTest(tables), w, attrs))
    decreases |attrs|
  {
    hide IsName, WorkNamed, CreatePrefix, TablesOk;
    if attrs == [] {
    } else {
      var name := attrs[0].name;
      CreatePrefixKeepsNamed(tables, w, name.space, true);
      var v :=
        if name.space != "" && !IsNamespace(name) then CreatePrefix(NameTest(tables), w, name.space, true) else w;
      CreateAllKeepsNamed(tables, v, attrs[1..]);
    }
  }

  lemma SpelledIsName(tables: Tables, sc: Scope, name: Name, isAttr: bool)
    requires TablesOk(tables) && PrefixesNamed(tables, sc) && IsName(tables, name.local)
    ensures IsName(tables, Spelled(sc, name, isAttr))
  {
    SmallLettersAreName(tables, "xml");
    QualifiedIsName(tables, PrefixFor(sc, name.space, isAttr), name.local);
    hide IsName, Qualified, TablesOk;
  }

  lemma {:induction false} DeclarationsNamed(tables: Tables, sc: Scope, declared: seq<string>)
    requires TablesOk(tables) && forall p <- declared :: p == "" || IsName(tables, p)
    ensures forall a <- Declarations(sc, declared) :: AttrOk(tables, a)
  {
    hide IsName, TablesOk, Declaration;
    if declared == [] {
    } else {
      DeclarationIsNamed(tables, sc, declared[0]);
      DeclarationsNamed(tables, sc, declared[1..]);
    }
  }

  lemma DeclarationIsNamed(tables: Tables, sc: Scope, prefix: string)
    requires TablesOk(tables) && (prefix == "" || IsName(tables, prefix))
    ensures AttrOk(tables, Declaration(sc, prefix))
  {
    SmallLettersAreName(tables, "xmlns");
    if prefix != "" {
      QualifiedIsName(tables, "xmlns", prefix);
      assert "xmlns:" + prefix == Qualified("xmlns", prefix);
    }
  }

  lemma {:induction false} PlainAttrsNamed(tables: Tables, sc: Scope, attrs: seq<Attr>)
    requires TablesOk(tables) && PrefixesNamed(tables, sc)
    requires forall a <- attrs :: a.name.local == "" || IsName(tables, a.name.local)
    ensures forall a <- PlainAttrs(sc, attrs) :: AttrOk(tables, a)
  {
    hide IsName, TablesOk, PrefixesNamed, Spelled;
    if attrs == [] {
    } else {
      assert attrs[0] in attrs;
      if IsPlain(attrs[0]) {
        SpelledIsName(tables, sc, attrs[0].name, true);
      }
      PlainAttrsNamed(tables, sc, attrs[1..]);
    }
  }

  lemma StartKeepsNamed(tables: Tables, p: Printing, name: Name, attrs: seq<Attr>)
    requires TablesOk(tables) && AllNamed(tables, p) && NamedToken(tables, StartElement(name, attrs))
    ensures var r := PrintToken(NameTest(tables), p, StartElement(name, attrs));
      r.Some? ==> AllNamed(tables, r.value)
  {
    var isName := NameTest(tables);
    var w := Work(p.scope, [], p.next);
    hide IsName, TablesOk, DefineAll, CreateAll, CreatePrefix, Declarations, PlainAttrs, Spelled, PrefixesNamed;
    DefineAllKeepsNamed(tables, w, attrs, name.space == "");
    var d := DefineAll(w, attrs, name.space == "");
    if d.Some? {
      CreateAllKeepsNamed(tables, d.value, attrs);
      var v := CreateAll(isName, d.value, attrs);
      CreatePrefixKeepsNamed(tables, v, name.space, false);
      var done := CreatePrefix(isName, v, name.space, false);
      SpelledIsName(tables, done.scope, name, false);
      DeclarationsNamed(tables, done.scope, done.declared);
      PlainAttrsNamed(tables, done.scope, attrs);
    }
  }

  lemma EndKeepsNamed(tables: Tables, p: Printing, name: Name)
    requires TablesOk(tables) && AllNamed(tables, p)
    ensures var r := PrintToken(NameTest(tables), p, EndElement(name)); r.Some? ==> AllNamed(tables, r.value)
  {
    hide IsName, TablesOk, PrefixesNamed, Spelled;
    if p.open != [] && p.open[|p.open| - 1].name == name {
      assert p.open[|p.open| - 1] in p.open;
      SpelledIsName(tables, p.scope, name, false);
    }
  }

  /** Of tokens whose local names are names, the encoder makes tags in which only names stand where
      names are read, the local ones with prefixes that were declared or made up, and runs of
      escaped text between them. */
  lemma {:induction false} OnlyNamesAreWritten(tables: Tables, ts: seq<Printable>)
    requires TablesOk(tables) && forall t <- ts :: NamedToken(tables, t)
    ensures var r := PrintAll(NameTest(tables), ts); r.Some? ==> AllNamed(tables, r.value)
  {
    hide TablesOk, NamedToken, PrintToken, IsName;
    if ts == [] {
    } else {
      var before, t := ts[..|ts| - 1], ts[|ts| - 1];
      assert t in ts;
      OnlyNamesAreWritten(tables, before);
      var r := PrintAll(NameTest(tables), before);
      if r.Some? {
        match t
        case StartElement(name, attrs) => StartKeepsNamed(tables, r.value, name, attrs);
        case EndElement(name) => EndKeepsNamed(tables, r.value, name);
        case CharData(data) => CharsKeepNamed(tables, r.value, data);
      }
    }
  }

  lemma CharsKeepNamed(tables: Tables, p: Printing, data: string)
    requires AllNamed(tables, p)
    ensures var r := PrintToken(NameTest(tables), p, CharData(data)); r.Some? && AllNamed(tables, r.value)
  {
    hide IsName, PrefixesNamed, Escaped;
    var last := |p.out| - 1;
    if Escaped(data, false) != "" {
      assert data != "" by {
        NothingEscaped();
      }
      assert WellWritten(tables, Chars(Escaped(data, false)));
      if p.out != [] && p.out[last].Chars? {
        assert p.out[last] in p.out;
        var before :| before != "" && p.out[last].text == Escaped(before, false);
        EscapedMore(before, data, false);
        assert WellWritten(tables, Chars(Escaped(before + data, false)));
      }
    }
  }

  lemma NothingEscaped()
    ensures Escaped("", false) == ""
  {
  }
}
