/** Names, tokens and markup of a document: what the encoder is given and writes, tag by tag, and
    what a tag or a run of character data says. */
module XmlNames {
  import opened Options
  import opened XmlText

  const XML_URL: string := "http://www.w3.org/XML/1998/namespace"

  /** In a token given to the encoder or returned by the decoder the space is a URL, and
      "xmlns" for a namespace declaration. Before translation it is a prefix. */
  datatype Name = Name(space: string, local: string)

  datatype Attr = Attr(name: Name, value: string)

  datatype Token =
    | StartElement(name: Name, attrs: seq<Attr>)
    | EndElement(name: Name)
    | CharData(data: string)
    | Comment(comment: string)
    | ProcInst(target: string, inst: string)
    | Directive(directive: string)

  /** The tokens the model of the encoder is given. */
  type Printable = t: Token | t.StartElement? || t.EndElement? || t.CharData? witness CharData("")

  /** An attribute as it is written, its value between double quotes. */
  datatype Written = Written(name: string, value: string)

  /** What the encoder writes at a time. Character data is escaped. */
  datatype Piece =
    | StartTag(name: string, attrs: seq<Written>)
    | EndTag(name: string)
    | Chars(text: string)

  /** The two character tables: what a name may begin with, and what else may be in it. */
  datatype Tables = Tables(first: char -> bool, second: char -> bool)

  predicate NameChars(tables: Tables, s: string) {
    forall c <- s :: tables.first(c) || tables.second(c)
  }

  /** isName. */
  predicate IsName(tables: Tables, s: string) {
    s != "" && tables.first(s[0]) && NameChars(tables, s)
  }

  predicate IsNamespace(name: Name) {
    name.local == "xmlns" || name.space == "xmlns"
  }

  // ---------------------------------------------------------------- scanning

  function Colon(s: string): (i: nat)
    ensures i <= |s| && ':' !in s[..i] && (i < |s| ==> s[i] == ':')
  {
    if s == "" || s[0] == ':' then 0 else 1 + Colon(s[1..])
  }

  /** A name is split at its first colon. */
  function Split(s: string): Name {
    var i := Colon(s);
    if i == |s| then Name("", s) else Name(s[..i], s[i + 1..])
  }

  function ScanValue(text: string): Option<string> {
    match TextFrom(text + ['"'], AtQuote('"'), "", NUL, NUL)
    case Some((value, "")) => Some(value)
    case _ => None
  }

  function ScanAttrs(attrs: seq<Written>): Option<seq<Attr>> {
    if attrs == [] then Some([])
    else
      match (ScanValue(attrs[0].value), ScanAttrs(attrs[1..]))
      case (Some(value), Some(rest)) => Some([Attr(Split(attrs[0].name), value)] + rest)
      case _ => None
  }

  /** The token a piece of markup says, names not translated. None is a syntax error. */
  function Scan(piece: Piece): Option<Token> {
    match piece
    case EndTag(name) => Some(EndElement(Split(name)))
    case Chars(text) =>
      (match TextFrom(text, AtMarkup, "", NUL, NUL)
       case Some((data, "")) => Some(CharData(data))
       case _ => None)
    case _ =>
      match ScanAttrs(piece.attrs)
      case Some(attrs) => Some(StartElement(Split(piece.name), attrs))
      case None => None
  }

  // ---------------------------------------------------------------- writing a name

  function Qualified(prefix: string, local: string): string {
    if prefix == "" then local else prefix + ":" + local
  }

  lemma {:induction false} ColonIsFirst(s: string, t: string)
    requires ':' !in s
    ensures Colon(s) == |s| && Colon(s + ":" + t) == |s|
  {
    if s == "" {
      assert s + ":" + t == ":" + t;
    } else {
      assert s == [s[0]] + s[1..];
      assert (s + ":" + t)[1..] == s[1..] + ":" + t;
      ColonIsFirst(s[1..], t);
    }
  }

  /** A qualified name is taken apart as it was put together exactly if its prefix, or the
      local name where there is no prefix, has no colon. */
  lemma SplitQualified(prefix: string, local: string)
    ensures Split(Qualified(prefix, local)) == Name(prefix, local)
       <==> ':' !in (if prefix == "" then local else prefix)
  {
    var s := Qualified(prefix, local);
    if prefix == "" {
      if ':' !in local {
        ColonIsFirst(local, "");
      }
    } else if ':' !in prefix {
      ColonIsFirst(prefix, local);
      assert s[..|prefix|] == prefix && s[|prefix| + 1..] == local;
    }
  }

  /** Escaped text is scanned as what it was, but for the characters XML does not have. */
  lemma ValueScansBack(value: string)
    ensures ScanValue(Escaped(value, true)) == Some(AllAllowed(value))
  {
    QuotedRoundTrip(value, '"', "");
    assert Escaped(value, true) + ['"'] + "" == Escaped(value, true) + ['"'];
  }

  lemma CharsScanBack(data: string)
    ensures Scan(Chars(Escaped(data, false))) == Some(CharData(AllAllowed(data)))
  {
    TextRoundTrip(data, false, "");
    assert Escaped(data, false) + "" == Escaped(data, false);
  }
}
