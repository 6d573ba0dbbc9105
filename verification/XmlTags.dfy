/** What the text of a markup may look like, spelled part by part, and that the scanner takes exactly
    that: tags with any white space and quotes, empty-element tags, comments, CDATA sections,
    processing instructions and directives. */
module XmlTags {
  import opened Options
  import opened XmlMarkup
  import opened XmlNames
  import opened XmlReading
  import opened XmlScanBack
  import opened XmlText

  /** The white space of section 2.3 of XML 1.0. */
  predicate AllSpaces(s: string) {
    forall c <- s :: c in {' ', '\t', '\r', '\n'}
  }

  lemma {:induction false} SpacesSkipped(spaces: string, s: string)
    requires AllSpaces(spaces) && (s == "" || !IsSpace(s[0]))
    ensures SkipSpaces(spaces + s) == s
  {
    if spaces == "" {
      assert spaces + s == s;
    } else {
      assert spaces[0] in spaces && (spaces + s)[1..] == spaces[1..] + s;
      assert forall c <- spaces[1..] :: c in spaces;
      SpacesSkipped(spaces[1..], s);
    }
  }

  lemma {:induction false} SpacesBefore(s: string) returns (spaces: string)
    ensures AllSpaces(spaces) && s == spaces + SkipSpaces(s)
  {
    if s == "" || !IsSpace(s[0]) {
      spaces := "";
      assert s == "" + s;
    } else {
      var more := SpacesBefore(s[1..]);
      spaces := [s[0]] + more;
      assert s == [s[0]] + s[1..] && [s[0]] + (more + SkipSpaces(s)) == spaces + SkipSpaces(s);
    }
  }

  // ---------------------------------------------------------------- tags

  /** An attribute as it is spelled: white space, the name, an equals sign with white space at either
      side, and between quotes of either kind the text of the value. */
  datatype AttrSpelling = AttrSpelling(
    before: string,
    name: string,
    left: string,
    right: string,
    quote: char,
    text: string,
    value: string)

  /** The text of an attribute and of what follows it. */
  function AttrThen(a: AttrSpelling, rest: string): string {
    a.before + (a.name + (a.left + ("=" + (a.right + ([a.quote] + (a.text + [a.quote] + rest))))))
  }

  /** Its text is read as its value up to the closing quote. */
  ghost predicate AttrSpelled(tables: Tables, a: AttrSpelling, rest: string) {
    && IsName(tables, a.name) && AllSpaces(a.before) && AllSpaces(a.left) && AllSpaces(a.right)
    && a.quote in {'"', '\''}
    && TextFrom(a.text + [a.quote] + rest, AtQuote(a.quote), "", NUL, NUL) == Some((a.value, rest))
  }

  function AttrsThen(attrs: seq<AttrSpelling>, rest: string): string {
    if attrs == [] then rest else AttrThen(attrs[0], AttrsThen(attrs[1..], rest))
  }

  ghost predicate AttrsSpelled(tables: Tables, attrs: seq<AttrSpelling>, rest: string) {
    attrs == [] ||
      (AttrSpelled(tables, attrs[0], AttrsThen(attrs[1..], rest)) && AttrsSpelled(tables, attrs[1..], rest))
  }

  function AttrsOf(attrs: seq<AttrSpelling>): seq<Attr> {
    if attrs == [] then [] else [Attr(Split(attrs[0].name), attrs[0].value)] + AttrsOf(attrs[1..])
  }

  function TagEnd(space: string, empty: bool, rest: string): string {
    space + ((if empty then "/>" else ">") + rest)
  }

  /** A start tag, without its first angle bracket, and the text after it. White space is needed before
      the first attribute alone, for the others follow a quote. */
  ghost predicate StartSpelled(
    tables: Tables, s: string, name: string, attrs: seq<AttrSpelling>, space: string, empty: bool, rest: string)
  {
    && IsName(tables, name) && AllSpaces(space)
    && AttrsSpelled(tables, attrs, TagEnd(space, empty, rest))
    && (attrs != [] ==> attrs[0].before != "")
    && s == name + AttrsThen(attrs, TagEnd(space, empty, rest))
  }

  lemma SpaceIsNoNameChar(c: char)
    ensures IsSpace(c) || c in {'=', '/', '>', '?'} ==> !IsNameChar(c)
  {
  }

  lemma EndsName(spaces: string, s: string)
    requires AllSpaces(spaces) && (spaces == "" ==> s != "" && s[0] in {'=', '/', '>', '?'})
    ensures spaces + s != "" && !IsNameChar((spaces + s)[0])
  {
    assert spaces != "" ==> spaces[0] in spaces;
    SpaceIsNoNameChar((spaces + s)[0]);
  }

  lemma ValueIsRead(a: AttrSpelling, rest: string)
    requires a.quote in {'"', '\''}
    requires TextFrom(a.text + [a.quote] + rest, AtQuote(a.quote), "", NUL, NUL) == Some((a.value, rest))
    ensures ValueAt([a.quote] + (a.text + [a.quote] + rest)) == Some((a.value, rest))
  {
    assert ([a.quote] + (a.text + [a.quote] + rest))[1..] == a.text + [a.quote] + rest;
    hide TextFrom;
  }

  lemma SpelledAttrIsRead(tables: Tables, a: AttrSpelling, rest: string)
    requires TablesOk(tables) && AttrSpelled(tables, a, rest)
    ensures AttrAt(tables, SkipSpaces(AttrThen(a, rest))) == Some((Attr(Split(a.name), a.value), rest))
    ensures var here := SkipSpaces(AttrThen(a, rest)); here != "" && here[0] !in {'/', '>'}
  {
    hide TextFrom, QualifiedAt, ValueAt, SkipSpaces, Split, TablesOk, IsName, AllSpaces;
    var quoted := [a.quote] + (a.text + [a.quote] + rest);
    var right := "=" + (a.right + quoted);
    var here := a.name + (a.left + right);
    ValueIsRead(a, rest);
    SpacesSkipped(a.right, quoted);
    SpacesSkipped(a.left, right);
    EndsName(a.left, right);
    QualifiedIsScanned(tables, a.name, a.left + right);
    NameStarts(tables, a.name, a.left + right);
    SpacesSkipped(a.before, here);
    assert right[1..] == a.right + quoted;
  }

  lemma {:induction false} SpelledAttrsAreRead(
    tables: Tables, spelled: seq<AttrSpelling>, space: string, empty: bool, rest: string, attrs: seq<Attr>)
    requires TablesOk(tables) && AttrsSpelled(tables, spelled, TagEnd(space, empty, rest)) && AllSpaces(space)
    ensures AttrsFrom(tables, AttrsThen(spelled, TagEnd(space, empty, rest)), attrs)
         == Some((attrs + AttrsOf(spelled), empty, rest))
    decreases |spelled|
  {
    hide AttrSpelled, AttrThen, TablesOk, AttrAt, SkipSpaces, AllSpaces, Split;
    var end := TagEnd(space, empty, rest);
    if spelled == [] {
      EndIsRead(space, empty, rest);
      assert attrs + AttrsOf(spelled) == attrs;
    } else {
      hide TagEnd;
      var after := AttrsThen(spelled[1..], end);
      SpelledAttrIsRead(tables, spelled[0], after);
      var attr := Attr(Split(spelled[0].name), spelled[0].value);
      SpelledAttrsAreRead(tables, spelled[1..], space, empty, rest, attrs + [attr]);
      assert attrs + [attr] + AttrsOf(spelled[1..]) == attrs + AttrsOf(spelled);
    }
  }

  lemma EndIsRead(space: string, empty: bool, rest: string)
    requires AllSpaces(space)
    ensures var here := SkipSpaces(TagEnd(space, empty, rest));
      if empty then |here| > 1 && here[0] == '/' && here[1] == '>' && here[2..] == rest
      else here != "" && here[0] == '>' && here[1..] == rest
  {
    SpacesSkipped(space, (if empty then "/>" else ">") + rest);
    assert ("/>" + rest)[2..] == rest && (">" + rest)[1..] == rest;
    hide SkipSpaces;
  }

  lemma SpelledStartIsRead(
    tables: Tables, s: string, name: string, spelled: seq<AttrSpelling>, space: string, empty: bool, rest: string)
    requires TablesOk(tables) && StartSpelled(tables, s, name, spelled, space, empty, rest)
    ensures StartTagAt(tables, s) == Some(Scanned(StartElement(Split(name), AttrsOf(spelled)), empty, rest))
  {
    hide QualifiedAt, AttrsFrom, AttrsOf, Split, TablesOk, IsName, AllSpaces, AttrsSpelled, AttrSpelled;
    var end := TagEnd(space, empty, rest);
    AfterName(tables, spelled, space, empty, rest);
    QualifiedIsScanned(tables, name, AttrsThen(spelled, end));
    SpelledAttrsAreRead(tables, spelled, space, empty, rest, []);
    assert [] + AttrsOf(spelled) == AttrsOf(spelled);
  }

  lemma AfterName(tables: Tables, spelled: seq<AttrSpelling>, space: string, empty: bool, rest: string)
    requires AttrsSpelled(tables, spelled, TagEnd(space, empty, rest)) && AllSpaces(space)
    requires spelled != [] ==> spelled[0].before != ""
    ensures var text := AttrsThen(spelled, TagEnd(space, empty, rest)); text != "" && !IsNameChar(text[0])
  {
    hide TextFrom, IsName, AllSpaces;
    if spelled == [] {
      EndsName(space, (if empty then "/>" else ">") + rest);
    } else {
      var a := spelled[0];
      var after := AttrsThen(spelled[1..], TagEnd(space, empty, rest));
      EndsName(a.before, a.name + (a.left + ("=" + (a.right + ([a.quote] + (a.text + [a.quote] + after))))));
    }
  }

  // ---------------------------------------------------------------- every tag that is read is spelled so

  lemma NameWasThere(tables: Tables, s: string) returns (name: string)
    requires QualifiedAt(tables, s).Some?
    ensures var (n, rest) := QualifiedAt(tables, s).value;
      IsName(tables, name) && Split(name) == n && s == name + rest && rest != "" && !IsNameChar(rest[0])
  {
    hide Split, IsName;
    name := s[..NameLength(s)];
    assert s == name + s[NameLength(s)..];
  }

  lemma ReferenceIsFront(s: string) returns (before: string)
    requires Reference(s).Some?
    ensures s == before + Reference(s).value.1
  {
    hide Digits, NameLength, Entity, FromRune;
    before := s[..|s| - |Reference(s).value.1|];
  }

  lemma {:induction false} QuoteWasThere(s: string, quote: char, buf: string, b0: char, b1: char) returns (text: string)
    requires var r := TextFrom(s, AtQuote(quote), buf, b0, b1); r.Some? && r.value.1 != ""
    ensures s == text + [quote] + TextFrom(s, AtQuote(quote), buf, b0, b1).value.1
    decreases |s|
  {
    hide Reference, NormalizeLine;
    var rest := TextFrom(s, AtQuote(quote), buf, b0, b1).value.1;
    if s[0] == quote {
      text := "";
      assert s == "" + [quote] + s[1..];
    } else if s[0] == '&' {
      var before := ReferenceIsFront(s[1..]);
      var (c, left) := Reference(s[1..]).value;
      var more := QuoteWasThere(left, quote, buf + [c], NUL, NUL);
      text := "&" + before + more;
      assert s == "&" + s[1..] && "&" + (before + (more + [quote] + rest)) == text + [quote] + rest;
    } else {
      var more := QuoteWasThere(s[1..], quote, NormalizeLine(buf, b1, s[0]), b1, s[0]);
      text := [s[0]] + more;
      assert s == [s[0]] + s[1..] && [s[0]] + (more + [quote] + rest) == text + [quote] + rest;
    }
  }

  lemma AttrWasThere(tables: Tables, s: string) returns (a: AttrSpelling)
    requires AttrAt(tables, SkipSpaces(s)).Some? && AttrAt(tables, SkipSpaces(s)).value.1 != ""
    ensures var (attr, rest) := AttrAt(tables, SkipSpaces(s)).value;
      AttrSpelled(tables, a, rest) && s == AttrThen(a, rest) && attr == Attr(Split(a.name), a.value)
  {
    hide QualifiedAt, SkipSpaces, Split, IsName, TextFrom, AllSpaces;
    var before := SpacesBefore(s);
    var here := SkipSpaces(s);
    var (attr, rest) := AttrAt(tables, here).value;
    var name := NameWasThere(tables, here);
    var afterName := QualifiedAt(tables, here).value.1;
    var left := SpacesBefore(afterName);
    var equals := SkipSpaces(afterName);
    var right := SpacesBefore(equals[1..]);
    var quoted := SkipSpaces(equals[1..]);
    var quote := quoted[0];
    var text := QuoteWasThere(quoted[1..], quote, "", NUL, NUL);
    a := AttrSpelling(before, name, left, right, quote, text, attr.value);
    assert equals == "=" + equals[1..] && quoted == [quote] + quoted[1..];
  }

  lemma {:induction false} AttrsWereThere(tables: Tables, s: string, attrs: seq<Attr>)
    returns (spelled: seq<AttrSpelling>, space: string)
    requires AttrsFrom(tables, s, attrs).Some?
    ensures var (all, empty, rest) := AttrsFrom(tables, s, attrs).value;
      && AllSpaces(space) && AttrsSpelled(tables, spelled, TagEnd(space, empty, rest))
      && s == AttrsThen(spelled, TagEnd(space, empty, rest)) && all == attrs + AttrsOf(spelled)
    decreases |s|
  {
    hide AttrSpelled, AttrThen, AttrAt, SkipSpaces, AllSpaces, Split;
    var (all, empty, rest) := AttrsFrom(tables, s, attrs).value;
    var here := SkipSpaces(s);
    if here[0] in {'/', '>'} {
      space := SpacesBefore(s);
      spelled := [];
      assert here == (if empty then "/>" else ">") + rest;
      assert all == attrs + [];
    } else {
      var (attr, after) := AttrAt(tables, here).value;
      assert AttrsFrom(tables, s, attrs) == AttrsFrom(tables, after, attrs + [attr]);
      NothingAfter(tables, attrs + [attr]);
      var a := AttrWasThere(tables, s);
      var more;
      more, space := AttrsWereThere(tables, after, attrs + [attr]);
      spelled := [a] + more;
      assert spelled[1..] == more;
      assert attrs + [attr] + AttrsOf(more) == attrs + AttrsOf(spelled);
    }
  }

  lemma NothingAfter(tables: Tables, attrs: seq<Attr>)
    ensures AttrsFrom(tables, "", attrs).None?
  {
  }

  lemma StartWasThere(tables: Tables, s: string) returns (name: string, spelled: seq<AttrSpelling>, space: string)
    requires TablesOk(tables) && StartTagAt(tables, s).Some?
    ensures var Scanned(token, empty, rest) := StartTagAt(tables, s).value;
      StartSpelled(tables, s, name, spelled, space, empty, rest) && token == StartElement(Split(name), AttrsOf(spelled))
  {
    hide QualifiedAt, AttrsFrom, AttrsOf, Split, TablesOk, IsName, AllSpaces, AttrSpelled, TagEnd;
    name := NameWasThere(tables, s);
    var afterName := QualifiedAt(tables, s).value.1;
    spelled, space := AttrsWereThere(tables, afterName, []);
    assert [] + AttrsOf(spelled) == AttrsOf(spelled);
    var Scanned(token, empty, rest) := StartTagAt(tables, s).value;
    if spelled != [] && spelled[0].before == "" {
      AttrStartsName(tables, spelled[0], AttrsThen(spelled[1..], TagEnd(space, empty, rest)));
    }
  }

  lemma AttrStartsName(tables: Tables, a: AttrSpelling, rest: string)
    requires TablesOk(tables) && AttrSpelled(tables, a, rest)
    ensures a.before == "" ==> var text := AttrThen(a, rest); text != "" && IsNameChar(text[0])
  {
    hide TextFrom, IsName, TablesOk;
    var after := a.left + ("=" + (a.right + ([a.quote] + (a.text + [a.quote] + rest))));
    NameStarts(tables, a.name, after);
    assert "" + (a.name + after) == a.name + after;
  }

  /** A start tag is read exactly where one is spelled, whatever white space and quotes it is spelled
      with: it has the name and the attributes that are spelled, and is empty exactly if it ends in a
      slash. */
  lemma StartIsReadIff(tables: Tables, s: string, token: Token, empty: bool, rest: string)
    requires TablesOk(tables)
    ensures StartTagAt(tables, s) == Some(Scanned(token, empty, rest)) <==>
      exists name, spelled, space ::
        && StartSpelled(tables, s, name, spelled, space, empty, rest)
        && token == StartElement(Split(name), AttrsOf(spelled))
  {
    hide StartTagAt, StartSpelled, Split, AttrsOf, TablesOk;
    if StartTagAt(tables, s) == Some(Scanned(token, empty, rest)) {
      var name, spelled, space := StartWasThere(tables, s);
    }
    forall name, spelled, space | StartSpelled(tables, s, name, spelled, space, empty, rest)
      ensures StartTagAt(tables, s) == Some(Scanned(StartElement(Split(name), AttrsOf(spelled)), empty, rest))
    {
      SpelledStartIsRead(tables, s, name, spelled, space, empty, rest);
    }
  }

  /** An end tag has a name and white space up to its angle bracket. */
  ghost predicate EndSpelled(tables: Tables, s: string, name: string, space: string, rest: string) {
    IsName(tables, name) && AllSpaces(space) && s == name + (space + (">" + rest))
  }

  lemma EndIsReadIff(tables: Tables, s: string, token: Token, rest: string)
    requires TablesOk(tables)
    ensures EndTagAt(tables, s) == Some(Scanned(token, false, rest)) <==>
      exists name, space :: EndSpelled(tables, s, name, space, rest) && token == EndElement(Split(name))
  {
    hide QualifiedAt, Split, TablesOk, IsName, AllSpaces, SkipSpaces;
    if EndTagAt(tables, s) == Some(Scanned(token, false, rest)) {
      var name := NameWasThere(tables, s);
      var space := SpacesBefore(QualifiedAt(tables, s).value.1);
      var end := SkipSpaces(QualifiedAt(tables, s).value.1);
      assert end == ">" + end[1..];
      assert EndSpelled(tables, s, name, space, rest);
    }
    forall name, space | EndSpelled(tables, s, name, space, rest)
      ensures EndTagAt(tables, s) == Some(Scanned(EndElement(Split(name)), false, rest))
    {
      EndsName(space, ">" + rest);
      QualifiedIsScanned(tables, name, space + (">" + rest));
      SpacesSkipped(space, ">" + rest);
      assert (">" + rest)[1..] == rest;
    }
  }

  // ---------------------------------------------------------------- empty elements

  lemma NoOtherMarkup(
    tables: Tables, s: string, name: string, spelled: seq<AttrSpelling>, space: string, empty: bool, rest: string)
    requires TablesOk(tables) && StartSpelled(tables, s, name, spelled, space, empty, rest)
    ensures s != "" && s[0] !in {'/', '?', '!'}
  {
    hide IsName, TablesOk, AttrsSpelled;
    NameStarts(tables, name, AttrsThen(spelled, TagEnd(space, empty, rest)));
  }

  lemma NothingToUnbind(d: Decoding)
    requires Framed(d.stack)
    ensures Unbind(d.ns, d.stack) == (d.ns, d.stack)
  {
  }

  /** An element whose tag ends in a slash is read in two tokens, its start and its end, and then the
      stack and the translations are what they were, whatever the tag declares. */
  lemma EmptyElementIsTwoTokens(
    d: Decoding, defaultSpace: string, name: string, spelled: seq<AttrSpelling>, space: string, rest: string)
    requires d.err.None? && d.toClose.None? && Framed(d.stack) && (d.stack != [] ==> !d.stack[0].EofF?)
    requires TablesOk(d.tables) && d.input != "" && d.input[0] == '<'
    requires StartSpelled(d.tables, d.input[1..], name, spelled, space, true, rest)
    ensures var (e, start) := NextToken(d, defaultSpace);
      var (f, end) := NextToken(e, defaultSpace);
      && f == d.(input := rest)
      && start.Some? && start.value.StartElement?
      && end == Some(EndElement(start.value.name))
  {
    hide StartSpelled, Split, AttrsOf, TablesOk, StartTagAt, BindAll, Translate, TranslateAll, Framed;
    var attrs := AttrsOf(spelled);
    SpelledStartIsRead(d.tables, d.input[1..], name, spelled, space, true, rest);
    NoOtherMarkup(d.tables, d.input[1..], name, spelled, space, true, rest);
    AfterAngle(d.tables, d.input[1..]);
    assert d.input == "<" + d.input[1..];
    var r := d.(input := rest, toClose := Some(Split(name)));
    assert RawToken(d) == (r, Some(StartElement(Split(name), attrs)));
    BindAllReadsNothing(r, attrs);
    BindAllUnbinds(r, attrs);
    NothingToUnbind(d);
  }

  // ---------------------------------------------------------------- comments, instructions and CDATA

  /** The end is at the first place where it is found, behind before. */
  ghost predicate FirstEnd(s: string, before: string, end: string, rest: string) {
    s == before + end + rest && forall k :: 0 <= k < |before| ==> !(end <= s[k..])
  }

  lemma UntilIff(s: string, end: string, before: string, rest: string)
    requires end != ""
    ensures Until(s, end) == Some((before, rest)) <==> FirstEnd(s, before, end, rest)
  {
    UntilFinds(s, end);
    if FirstEnd(s, before, end, rest) {
      var i := |before|;
      assert s[i..] == end + rest && s[..i] == before && s[i + |end|..] == rest;
      UntilFirst(s, end, i);
    }
  }

  lemma AfterInstructionMark(tables: Tables, s: string)
    requires s != ""
    ensures ScanToken(tables, "<?" + s) == InstructionAt(tables, s)
  {
    hide InstructionAt;
    assert ("<?" + s)[2..] == s;
  }

  lemma AfterCommentMark(tables: Tables, s: string)
    ensures ScanToken(tables, "<!--" + s)
         == match Until(s, "-->") case None => None case Some((c, rest)) => Some(Scanned(Comment(c), false, rest))
  {
    hide Until, TextFrom, DirectiveFrom;
    assert ("<!--" + s)[2..] == "--" + s && ("--" + s)[2..] == s;
  }

  lemma AfterCDataMark(tables: Tables, s: string)
    ensures ScanToken(tables, "<![CDATA[" + s)
         == match TextFrom(s, AtCData, "", NUL, NUL)
            case None => None
            case Some((data, rest)) => Some(Scanned(CharData(data), false, rest))
  {
    hide Until, TextFrom, DirectiveFrom;
    assert ("<![CDATA[" + s)[2..] == "[CDATA[" + s && ("[CDATA[" + s)[7..] == s;
  }

  /** A comment is what stands before the first two hyphens with an angle bracket. */
  lemma CommentIsReadIff(tables: Tables, s: string, comment: string, rest: string)
    ensures ScanToken(tables, "<!--" + s) == Some(Scanned(Comment(comment), false, rest))
       <==> FirstEnd(s, comment, "-->", rest)
  {
    hide ScanToken, Until, FirstEnd;
    AfterCommentMark(tables, s);
    UntilIff(s, "-->", comment, rest);
  }

  /** A CDATA section is what stands before its first end, whatever is in it, with its line ends made
      newlines and all of them characters of XML. */
  lemma CDataIsReadIff(tables: Tables, s: string, data: string, rest: string)
    ensures ScanToken(tables, "<![CDATA[" + s) == Some(Scanned(CharData(data), false, rest))
       <==> exists raw :: FirstEnd(s, raw, "]]>", rest) && data == Newlines(raw) && AllInRange(data)
  {
    hide ScanToken, TextFrom, Newlines, AllInRange, Until, FirstEnd;
    AfterCDataMark(tables, s);
    CDataUntil(s);
    match Until(s, "]]>")
    case None =>
      forall raw
        ensures !FirstEnd(s, raw, "]]>", rest)
      {
        UntilIff(s, "]]>", raw, rest);
      }
    case Some((first, left)) =>
      UntilIff(s, "]]>", first, left);
      forall raw | FirstEnd(s, raw, "]]>", rest)
        ensures raw == first && rest == left
      {
        UntilIff(s, "]]>", raw, rest);
      }
  }

  lemma CDataUntil(s: string)
    ensures TextFrom(s, AtCData, "", NUL, NUL)
         == match Until(s, "]]>")
            case None => None
            case Some((raw, rest)) => if AllInRange(Newlines(raw)) then Some((Newlines(raw), rest)) else None
  {
    hide TextFrom, Newlines, AllInRange, Until;
    UntilFinds(s, "]]>");
    match Until(s, "]]>")
    case None =>
      CDataIsRead(s, "");
    case Some((raw, rest)) =>
      forall k | 0 <= k && k + 3 <= |raw|
        ensures !("]]>" <= raw[k..])
      {
        assert s[k..][..3] == raw[k..][..3];
      }
      CDataIsRead(raw, rest);
      assert raw + "]]>" + rest == raw + ("]]>" + rest);
  }

  /** A processing instruction has a name and, behind white space that does not belong to it, a content
      up to the first question mark with an angle bracket. What the declaration of XML says must do. */
  ghost predicate InstructionSpelled(
    tables: Tables, s: string, target: string, space: string, inst: string, rest: string)
  {
    && IsName(tables, target) && AllSpaces(space)
    && (inst != "" ==> !IsSpace(inst[0]) && (space == "" ==> !IsNameChar(inst[0])))
    && FirstEnd(inst + "?>" + rest, inst, "?>", rest)
    && s == target + (space + (inst + "?>" + rest))
    && (target == "xml" ==> DeclarationOk(inst))
  }

  lemma InstructionIsReadIff(tables: Tables, s: string, target: string, inst: string, rest: string)
    requires TablesOk(tables) && s != ""
    ensures ScanToken(tables, "<?" + s) == Some(Scanned(ProcInst(target, inst), false, rest))
       <==> exists space :: InstructionSpelled(tables, s, target, space, inst, rest)
  {
    hide ScanToken, Until, FirstEnd, SkipSpaces, TablesOk, IsName, DeclarationOk;
    AfterInstructionMark(tables, s);
    if InstructionAt(tables, s) == Some(Scanned(ProcInst(target, inst), false, rest)) {
      assert s == target + NameAt(tables, s).value.1;
      var afterName := NameAt(tables, s).value.1;
      var space := SpacesBefore(afterName);
      UntilIff(SkipSpaces(afterName), "?>", inst, rest);
      FirstEndIs(SkipSpaces(afterName), inst, rest);
      assert InstructionSpelled(tables, s, target, space, inst, rest);
    }
    forall space | InstructionSpelled(tables, s, target, space, inst, rest)
      ensures InstructionAt(tables, s) == Some(Scanned(ProcInst(target, inst), false, rest))
    {
      var content := inst + "?>" + rest;
      assert content[0] == if inst == "" then '?' else inst[0];
      assert space != "" ==> space[0] in space && (space + content)[0] == space[0];
      SpaceIsNoNameChar((space + content)[0]);
      NameIsReadIff(tables, target, space + content);
      SpacesSkipped(space, content);
      UntilIff(content, "?>", inst, rest);
    }
  }

  lemma FirstEndIs(s: string, before: string, rest: string)
    requires FirstEnd(s, before, "?>", rest)
    ensures s == before + "?>" + rest
  {
  }

  // ---------------------------------------------------------------- the declaration of XML

  /** A parameter of the declaration, and what follows it. */
  function Param(name: string, quote: char, value: string, after: string): string {
    name + "=" + ([quote] + (value + [quote] + after))
  }

  /** A parameter has the value between the quotes behind the first place where its name is followed
      by an equals sign. */
  lemma ParamIs(name: string, before: string, quote: char, value: string, after: string)
    requires quote in {'"', '\''} && quote !in value
    requires forall k :: 0 <= k < |before| ==> !(name + "=" <= (before + Param(name, quote, value, after))[k..])
    ensures ParamOf(name, before + Param(name, quote, value, after)) == value
  {
    var quoted := [quote] + (value + [quote] + after);
    var s := before + Param(name, quote, value, after);
    assert s == before + (name + "=") + quoted;
    UntilIff(s, name + "=", before, quoted);
    ClosingQuote(quote, value, after);
    hide Until;
  }

  lemma ClosingQuote(quote: char, value: string, after: string)
    requires quote !in value
    ensures var quoted := [quote] + (value + [quote] + after); Until(quoted[1..], [quote]) == Some((value, after))
  {
    var s := value + [quote] + after;
    assert ([quote] + s)[1..] == s;
    forall k | 0 <= k < |value|
      ensures !([quote] <= s[k..])
    {
      assert s[k..][0] == value[k];
    }
    UntilIff(s, [quote], value, after);
  }

  lemma ParamThen(name: string, quote: char, value: string, s: string, t: string)
    ensures Param(name, quote, value, s + t) == Param(name, quote, value, s) + t
  {
    assert value + [quote] + (s + t) == value + [quote] + s + t;
    assert [quote] + (value + [quote] + s + t) == [quote] + (value + [quote] + s) + t;
  }

  lemma EqualsOnly(name: string, s: string, k: nat)
    requires k <= |s| && name + "=" <= s[k..]
    ensures k + |name| < |s| && s[k + |name|] == '='
  {
    assert s[k..][|name|] == (name + "=")[|name|];
  }

  lemma NoEncodingBefore(quote: char, version: string, more: string)
    requires '=' !in version && quote != '='
    ensures var before := Param("version", quote, version, " ");
      forall k :: 0 <= k < |before| ==> !("encoding" + "=" <= (before + ("encoding" + more))[k..])
  {
    var before := Param("version", quote, version, " ");
    var text := before + ("encoding" + more);
    forall k | 0 <= k < |before|
      ensures !("encoding" + "=" <= text[k..])
    {
      var i := k + 8;
      assert i < |before| ==> text[i] == before[i];
      assert |before| <= i < |before| + 8 ==> text[i] == "encoding"[i - |before|];
      assert 9 <= i < 9 + |version| ==> before[i] == version[i - 9];
      if "encoding" + "=" <= text[k..] {
        EqualsOnly("encoding", text, k);
      }
    }
  }

  /** What is declared, in quotes of either kind. */
  function Declared(quote: char, version: string, encoding: string): string {
    Param("version", quote, version, " " + Param("encoding", quote, encoding, ""))
  }

  /** A declaration with a version and an encoding is accepted exactly if the version is 1.0 or empty and
      the encoding is UTF-8, in capitals or small letters, or empty. */
  lemma DeclarationIff(quote: char, version: string, encoding: string)
    requires quote in {'"', '\''} && quote !in version && '=' !in version && quote !in encoding
    ensures DeclarationOk(Declared(quote, version, encoding))
       <==> version in {"", "1.0"} && encoding in {"", "utf-8", "UTF-8"}
  {
    hide ParamOf, Param;
    var second := Param("encoding", quote, encoding, "");
    assert "" + Param("version", quote, version, " " + second) == Param("version", quote, version, " " + second);
    ParamIs("version", "", quote, version, " " + second);
    ParamThen("version", quote, version, " ", second);
    SecondStarts(quote, encoding);
    NoEncodingBefore(quote, version, second[8..]);
    assert second == "encoding" + second[8..];
    ParamIs("encoding", Param("version", quote, version, " "), quote, encoding, "");
  }

  lemma SecondStarts(quote: char, encoding: string)
    ensures "encoding" <= Param("encoding", quote, encoding, "")
  {
  }

  // ---------------------------------------------------------------- directives

  /** What a directive is made of: a character, a quoted string, angle brackets with more of the same
      between them, or a comment, which is left out. */
  datatype Part =
    | Plain(c: char)
    | Quoted(quote: char, text: string)
    | Nested(parts: seq<Part>)
    | Remark(text: string)

  function SpellPart(p: Part): string {
    match p
    case Plain(c) => [c]
    case Quoted(quote, text) => [quote] + text + [quote]
    case Nested(parts) => "<" + SpellParts(parts) + ">"
    case Remark(text) => "<!--" + text + "-->"
  }

  function SpellParts(parts: seq<Part>): string {
    if parts == [] then "" else SpellPart(parts[0]) + SpellParts(parts[1..])
  }

  function KeptOfPart(p: Part): string {
    match p
    case Nested(parts) => "<" + KeptOfParts(parts) + ">"
    case Remark(_) => ""
    case _ => SpellPart(p)
  }

  function KeptOfParts(parts: seq<Part>): string {
    if parts == [] then "" else KeptOfPart(parts[0]) + KeptOfParts(parts[1..])
  }

  predicate PartOk(p: Part) {
    match p
    case Plain(c) => c !in {'<', '>', '"', '\''}
    case Quoted(quote, text) => quote in {'"', '\''} && quote !in text
    case Nested(parts) => !("!--" <= SpellParts(parts) + ">") && forall q <- parts :: PartOk(q)
    case Remark(text) => forall k :: 0 <= k < |text| ==> !("-->" <= (text + "-->")[k..])
  }

  lemma {:induction false} PartIsRead(p: Part, more: string, depth: nat, buf: string)
    requires PartOk(p)
    ensures DirectiveFrom(SpellPart(p) + more, None, depth, buf)
         == DirectiveFrom(more, None, depth, buf + KeptOfPart(p))
    decreases p, 0
  {
    match p
    case Plain(c) =>
      assert ([c] + more)[1..] == more;
    case Quoted(quote, text) =>
      assert [quote] + text + [quote] + more == [quote] + (text + [quote] + more);
      assert ([quote] + (text + [quote] + more))[1..] == text + [quote] + more;
      QuotedIsRead(quote, text, more, depth, buf + [quote]);
      assert buf + [quote] + text + [quote] == buf + ([quote] + text + [quote]);
    case Nested(parts) =>
      NestedIsRead(parts, more, depth, buf);
    case Remark(text) =>
      RemarkIsRead(text, more, depth, buf);
      assert buf + KeptOfPart(p) == buf;
  }

  lemma NoRemark(inner: string, more: string)
    requires !("!--" <= inner + ">")
    ensures !("!--" <= inner + (">" + more))
  {
    var s := inner + (">" + more);
    if |inner| < 2 {
      assert s[|inner|] == '>';
    } else {
      assert s[..3] == (inner + ">")[..3];
    }
  }

  lemma NestedIsRead(parts: seq<Part>, more: string, depth: nat, buf: string)
    requires PartOk(Nested(parts))
    ensures DirectiveFrom("<" + SpellParts(parts) + ">" + more, None, depth, buf)
         == DirectiveFrom(more, None, depth, buf + ("<" + KeptOfParts(parts) + ">"))
    decreases parts, 1
  {
    hide SpellParts, KeptOfParts, SpellPart, KeptOfPart, Until;
    var inner := SpellParts(parts);
    var all := "<" + inner + ">" + more;
    assert all[1..] == inner + (">" + more);
    NoRemark(inner, more);
    PartsAreRead(parts, ">" + more, depth + 1, buf + "<");
    assert (">" + more)[1..] == more;
    assert buf + "<" + KeptOfParts(parts) + ">" == buf + ("<" + KeptOfParts(parts) + ">");
  }

  lemma {:induction false} PartsAreRead(parts: seq<Part>, more: string, depth: nat, buf: string)
    requires forall q <- parts :: PartOk(q)
    ensures DirectiveFrom(SpellParts(parts) + more, None, depth, buf)
         == DirectiveFrom(more, None, depth, buf + KeptOfParts(parts))
    decreases parts, 0
  {
    hide DirectiveFrom, SpellPart, KeptOfPart, PartOk;
    if parts == [] {
      assert "" + more == more && buf + "" == buf;
    } else {
      assert parts[0] in parts && forall q <- parts[1..] :: q in parts;
      var rest := SpellParts(parts[1..]) + more;
      assert SpellParts(parts) + more == SpellPart(parts[0]) + rest;
      PartIsRead(parts[0], rest, depth, buf);
      PartsAreRead(parts[1..], more, depth, buf + KeptOfPart(parts[0]));
      assert buf + KeptOfPart(parts[0]) + KeptOfParts(parts[1..]) == buf + KeptOfParts(parts);
    }
  }

  lemma {:induction false} QuotedIsRead(quote: char, text: string, more: string, depth: nat, buf: string)
    requires quote !in text
    ensures DirectiveFrom(text + [quote] + more, Some(quote), depth, buf)
         == DirectiveFrom(more, None, depth, buf + text + [quote])
    decreases |text|
  {
    if text == "" {
      assert ("" + [quote] + more)[1..] == more && buf + "" == buf;
    } else {
      assert (text + [quote] + more)[1..] == text[1..] + [quote] + more;
      assert quote !in text[1..] && text[0] in text;
      QuotedIsRead(quote, text[1..], more, depth, buf + [text[0]]);
      assert buf + [text[0]] + text[1..] == buf + text;
    }
  }

  lemma RemarkIsRead(text: string, more: string, depth: nat, buf: string)
    requires PartOk(Remark(text))
    ensures DirectiveFrom("<!--" + text + "-->" + more, None, depth, buf) == DirectiveFrom(more, None, depth, buf)
  {
    var all := "<!--" + text + "-->" + more;
    var s := text + "-->" + more;
    assert all[1..] == "!--" + s && all[1..][3..] == s;
    forall k | 0 <= k < |text|
      ensures !("-->" <= s[k..])
    {
      assert s[k..][..3] == (text + "-->")[k..][..3];
    }
    UntilIff(s, "-->", text, more);
    hide Until;
    assert buf + "" == buf;
  }

  predicate PartsOk(parts: seq<Part>) {
    forall q <- parts :: PartOk(q)
  }

  lemma {:induction false} QuoteEnds(s: string, quote: char, depth: nat, buf: string) returns (text: string)
    requires DirectiveFrom(s, Some(quote), depth, buf).Some?
    ensures quote !in text && |text| < |s| && s == text + [quote] + s[|text| + 1..]
    decreases |s|
  {
    text := "";
    if s[0] != quote {
      var more := QuoteEnds(s[1..], quote, depth, buf + [s[0]]);
      text := [s[0]] + more;
      assert s == [s[0]] + s[1..];
    }
  }

  lemma OnePartMore(s: string, p: Part, rest: string, more: seq<Part>, left: string)
    requires s == SpellPart(p) + rest && rest == SpellParts(more) + (">" + left) && PartOk(p) && PartsOk(more)
    ensures PartsOk([p] + more) && s == SpellParts([p] + more) + (">" + left)
  {
    hide SpellPart, PartOk;
    assert ([p] + more)[1..] == more;
    assert forall q <- [p] + more :: q == p || q in more;
  }

  lemma RemarkWasThere(s: string) returns (text: string, rest: string)
    requires "!--" <= s && Until(s[3..], "-->").Some?
    ensures Until(s[3..], "-->") == Some((text, rest))
    ensures "<" + s == SpellPart(Remark(text)) + rest && PartOk(Remark(text))
  {
    UntilFinds(s[3..], "-->");
    text, rest := Until(s[3..], "-->").value.0, Until(s[3..], "-->").value.1;
    hide Until;
    assert s == "!--" + s[3..];
    forall k | 0 <= k < |text|
      ensures !("-->" <= (text + "-->")[k..])
    {
      assert s[3..][k..][..3] == (text + "-->")[k..][..3];
    }
    assert "<" + ("!--" + (text + "-->" + rest)) == "<!--" + text + "-->" + rest;
  }

  lemma NestedWasThere(s: string, parts: seq<Part>, left: string)
    requires !("!--" <= s) && s == SpellParts(parts) + (">" + left) && PartsOk(parts)
    ensures "<" + s == SpellPart(Nested(parts)) + left && PartOk(Nested(parts))
  {
    hide SpellParts;
    var inner := SpellParts(parts);
    assert "<" + (inner + (">" + left)) == "<" + inner + ">" + left;
    assert forall i :: 0 <= i < |inner + ">"| ==> s[i] == (inner + ">")[i];
  }

  /** What is read as a directive is spelled so. */
  lemma {:induction false} PartsWereThere(s: string, depth: nat, buf: string) returns (parts: seq<Part>, left: string)
    requires DirectiveFrom(s, None, depth, buf).Some?
    ensures PartsOk(parts) && s == SpellParts(parts) + (">" + left)
    decreases |s|
  {
    hide SpellParts, KeptOfParts, PartsOk, Until;
    var b, rest := s[0], s[1..];
    assert s == [b] + rest;
    if b == '>' {
      NoParts();
      parts, left := [], rest;
      assert "" + (">" + rest) == s;
    } else if b == '\'' || b == '"' {
      var text := QuoteEnds(rest, b, depth, buf + [b]);
      var after := rest[|text| + 1..];
      QuotedIsRead(b, text, after, depth, buf + [b]);
      var more;
      more, left := PartsWereThere(after, depth, buf + [b] + text + [b]);
      assert [b] + (text + [b] + after) == [b] + text + [b] + after;
      OnePartMore(s, Quoted(b, text), after, more, left);
      parts := [Quoted(b, text)] + more;
    } else if b == '<' && "!--" <= rest {
      var text, after := RemarkWasThere(rest);
      var more;
      more, left := PartsWereThere(after, depth, buf);
      OnePartMore(s, Remark(text), after, more, left);
      parts := [Remark(text)] + more;
    } else if b == '<' {
      var inside, after := PartsWereThere(rest, depth + 1, buf + "<");
      AfterInside(inside, after, depth, buf + "<");
      var more;
      more, left := PartsWereThere(after, depth, buf + "<" + KeptOfParts(inside) + ">");
      NestedWasThere(rest, inside, after);
      OnePartMore(s, Nested(inside), after, more, left);
      parts := [Nested(inside)] + more;
    } else {
      var more;
      more, left := PartsWereThere(rest, depth, buf + [b]);
      OnePartMore(s, Plain(b), rest, more, left);
      parts := [Plain(b)] + more;
    }
  }

  lemma NoParts()
    ensures PartsOk([]) && SpellParts([]) == "" && KeptOfParts([]) == ""
  {
  }

  lemma AfterInside(parts: seq<Part>, left: string, depth: nat, buf: string)
    requires PartsOk(parts)
    ensures DirectiveFrom(SpellParts(parts) + (">" + left), None, depth + 1, buf)
         == DirectiveFrom(left, None, depth, buf + KeptOfParts(parts) + ">")
  {
    hide SpellParts, KeptOfParts, PartOk;
    PartsAreRead(parts, ">" + left, depth + 1, buf);
    assert (">" + left)[1..] == left;
  }

  /** A directive is read up to the angle bracket that closes it, which is none in quotes, none that
      belongs to one inside, and none in a comment; and is what is spelled up to there, without the
      comments. Its first character is not looked at. */
  lemma DirectiveIsReadIff(tables: Tables, first: char, s: string, directive: string, rest: string)
    requires first !in {'-', '['}
    ensures ScanToken(tables, "<!" + ([first] + s)) == Some(Scanned(Directive(directive), false, rest)) <==>
      exists parts ::
        PartsOk(parts) && s == SpellParts(parts) + (">" + rest) && directive == [first] + KeptOfParts(parts)
  {
    hide SpellParts, KeptOfParts, PartsOk;
    AfterDirectiveMark(tables, first, s);
    forall parts, left | PartsOk(parts) && s == SpellParts(parts) + (">" + left)
      ensures DirectiveFrom(s, None, 0, [first]) == Some(([first] + KeptOfParts(parts), left))
    {
      DirectiveEnds(parts, left, [first]);
    }
    hide ScanToken;
    if DirectiveFrom(s, None, 0, [first]).Some? {
      var parts, left := PartsWereThere(s, 0, [first]);
    }
    hide DirectiveFrom;
  }

  lemma DirectiveEnds(parts: seq<Part>, left: string, buf: string)
    requires PartsOk(parts)
    ensures DirectiveFrom(SpellParts(parts) + (">" + left), None, 0, buf) == Some((buf + KeptOfParts(parts), left))
  {
    hide SpellParts, KeptOfParts, PartOk;
    PartsAreRead(parts, ">" + left, 0, buf);
    assert (">" + left)[1..] == left;
  }

  lemma AfterDirectiveMark(tables: Tables, first: char, s: string)
    requires first !in {'-', '['}
    ensures ScanToken(tables, "<!" + ([first] + s))
         == match DirectiveFrom(s, None, 0, [first])
            case None => None
            case Some((text, rest)) => Some(Scanned(Directive(text), false, rest))
  {
    hide DirectiveFrom, Until, TextFrom;
    assert ("<!" + ([first] + s))[2..] == [first] + s && ([first] + s)[1..] == s;
  }
}
