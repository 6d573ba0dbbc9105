/** The decoder's scanner, in strict mode: what the text of a document begins with, be it a tag,
    character data, a CDATA section, a comment, a processing instruction or a directive. */
module XmlMarkup {
  import opened Options
  import opened XmlNames
  import opened XmlText

  /** The token at the front, names not translated, and what is left of the text. An empty-element
      tag is a start tag whose end is still to be told. */
  datatype Scanned = Scanned(token: Token, empty: bool, rest: string)

  // ---------------------------------------------------------------- what the scanner finds

  predicate IsSpace(c: char) {
    c == ' ' || c == '\r' || c == '\n' || c == '\t'
  }

  function SkipSpaces(s: string): (r: string)
    ensures |r| <= |s| && (r != "" ==> !IsSpace(r[0])) && (s != "" && !IsSpace(s[0]) ==> r == s)
  {
    if s == "" || !IsSpace(s[0]) then s else SkipSpaces(s[1..])
  }

  /** name: the characters up to the first that can be in no name, if they are one. At the end of
      the input there is none, for its tag is cut off. */
  function NameAt(tables: Tables, s: string): (r: Option<(string, string)>)
    ensures r.Some? ==> |r.value.1| < |s|
  {
    var n := NameLength(s);
    if 0 < n < |s| && IsName(tables, s[..n]) then Some((s[..n], s[n..])) else None
  }

  /** nsname. */
  function QualifiedAt(tables: Tables, s: string): (r: Option<(Name, string)>)
    ensures r.Some? ==> |r.value.1| < |s|
  {
    match NameAt(tables, s)
    case None => None
    case Some((name, rest)) => Some((Split(name), rest))
  }

  lemma {:induction false} TextShortens(s: string, ending: Ending, buf: string, b0: char, b1: char)
    ensures var r := TextFrom(s, ending, buf, b0, b1); r.Some? ==> |r.value.1| <= |s|
    ensures var r := TextFrom(s, ending, buf, b0, b1);
      r.Some? && s != "" && (s[0] != '<' || ending.AtCData?) ==> |r.value.1| < |s|
    decreases |s|
  {
    hide Reference, NormalizeLine;
    if s == "" {
    } else {
      var b, rest := s[0], s[1..];
      TextShortens(rest, ending, NormalizeLine(buf, b1, b), b1, b);
      if Reference(rest).Some? {
        var (c, left) := Reference(rest).value;
        TextShortens(left, ending, buf + [c], NUL, NUL);
      }
    }
  }

  /** attrval: between double or single quotes. */
  function ValueAt(s: string): (r: Option<(string, string)>)
    ensures r.Some? ==> |r.value.1| < |s|
  {
    if s == "" || (s[0] != '"' && s[0] != '\'') then None
    else
      TextShortens(s[1..], AtQuote(s[0]), "", NUL, NUL);
      TextFrom(s[1..], AtQuote(s[0]), "", NUL, NUL)
  }

  /** One attribute with its value. */
  function AttrAt(tables: Tables, s: string): (r: Option<(Attr, string)>)
    ensures r.Some? ==> |r.value.1| < |s|
  {
    match QualifiedAt(tables, s)
    case None => None
    case Some((name, afterName)) =>
      var equals := SkipSpaces(afterName);
      if equals == "" || equals[0] != '=' then None
      else
        match ValueAt(SkipSpaces(equals[1..]))
        case None => None
        case Some((value, rest)) => Some((Attr(name, value), rest))
  }

  /** The attributes up to the end of the tag, after those read, and whether it is empty. */
  function AttrsFrom(tables: Tables, s: string, attrs: seq<Attr>): (r: Option<(seq<Attr>, bool, string)>)
    ensures r.Some? ==> |r.value.2| < |s|
    decreases |s|
  {
    var here := SkipSpaces(s);
    if here == "" then None
    else if here[0] == '/' then
      if |here| > 1 && here[1] == '>' then Some((attrs, true, here[2..])) else None
    else if here[0] == '>' then Some((attrs, false, here[1..]))
    else
      match AttrAt(tables, here)
      case None => None
      case Some((attr, rest)) => AttrsFrom(tables, rest, attrs + [attr])
  }

  function StartTagAt(tables: Tables, s: string): (r: Option<Scanned>)
    ensures r.Some? ==> |r.value.rest| < |s| && r.value.token.StartElement?
  {
    match QualifiedAt(tables, s)
    case None => None
    case Some((name, afterName)) =>
      match AttrsFrom(tables, afterName, [])
      case None => None
      case Some((attrs, empty, rest)) => Some(Scanned(StartElement(name, attrs), empty, rest))
  }

  function EndTagAt(tables: Tables, s: string): (r: Option<Scanned>)
    ensures r.Some? ==> |r.value.rest| < |s| && !r.value.empty
  {
    match QualifiedAt(tables, s)
    case None => None
    case Some((name, afterName)) =>
      var end := SkipSpaces(afterName);
      if end == "" || end[0] != '>' then None else Some(Scanned(EndElement(name), false, end[1..]))
  }

  /** What stands before the first place where the end is found, and what comes after it. */
  function Until(s: string, end: string): (r: Option<(string, string)>)
    ensures r.Some? ==> |r.value.1| <= |s|
  {
    if end <= s then Some(("", s[|end|..]))
    else if s == "" then None
    else
      match Until(s[1..], end)
      case None => None
      case Some((before, rest)) => Some(([s[0]] + before, rest))
  }

  /** procInst: the value of a parameter, or nothing. */
  function ParamOf(param: string, s: string): string {
    match Until(s, param + "=")
    case None => ""
    case Some((_, v)) =>
      if v == "" || (v[0] != '\'' && v[0] != '"') then ""
      else
        match Until(v[1..], [v[0]])
        case None => ""
        case Some((value, _)) => value
  }

  /** Version 1.0 and, without a reader for others, the encoding UTF-8. */
  predicate DeclarationOk(content: string) {
    var version, encoding := ParamOf("version", content), ParamOf("encoding", content);
    (version == "" || version == "1.0") && (encoding == "" || encoding == "utf-8" || encoding == "UTF-8")
  }

  function InstructionAt(tables: Tables, s: string): (r: Option<Scanned>)
    ensures r.Some? ==> |r.value.rest| < |s| && !r.value.empty
  {
    match NameAt(tables, s)
    case None => None
    case Some((target, afterName)) =>
      match Until(SkipSpaces(afterName), "?>")
      case None => None
      case Some((content, rest)) =>
        if target == "xml" && !DeclarationOk(content) then None
        else Some(Scanned(ProcInst(target, content), false, rest))
  }

  /** The text of a directive, of which buf has been read and depth angle brackets are open outside
      quotes, and what follows it. A comment inside is passed over. */
  function DirectiveFrom(s: string, quote: Option<char>, depth: nat, buf: string): (r: Option<(string, string)>)
    ensures r.Some? ==> |r.value.1| < |s|
    decreases |s|
  {
    if s == "" then None
    else
      var b, rest := s[0], s[1..];
      var more := buf + [b];
      if quote.Some? then DirectiveFrom(rest, if b == quote.value then None else quote, depth, more)
      else if b == '>' then if depth == 0 then Some((buf, rest)) else DirectiveFrom(rest, None, depth - 1, more)
      else if b == '\'' || b == '"' then DirectiveFrom(rest, Some(b), depth, more)
      else if b == '<' then
        if "!--" <= rest then
          match Until(rest[3..], "-->")
          case None => None
          case Some((_, left)) => DirectiveFrom(left, None, depth, buf)
        else DirectiveFrom(rest, None, depth + 1, more)
      else DirectiveFrom(rest, None, depth, more)
  }

  /** After "<!": a comment, a CDATA section or a directive, whose first character is not looked at. */
  function DeclarationAt(s: string): (r: Option<Scanned>)
    ensures r.Some? ==> |r.value.rest| < |s| && !r.value.empty
  {
    if s == "" then None
    else if s[0] == '-' then
      if !("--" <= s) then None
      else
        match Until(s[2..], "-->")
        case None => None
        case Some((comment, rest)) => Some(Scanned(Comment(comment), false, rest))
    else if s[0] == '[' then
      if !("[CDATA[" <= s) then None
      else
        TextShortens(s[7..], AtCData, "", NUL, NUL);
        match TextFrom(s[7..], AtCData, "", NUL, NUL)
        case None => None
        case Some((data, rest)) => Some(Scanned(CharData(data), false, rest))
    else
      match DirectiveFrom(s[1..], None, 0, [s[0]])
      case None => None
      case Some((text, rest)) => Some(Scanned(Directive(text), false, rest))
  }

  /** rawToken, where there is input and no end of an empty element is due. None is a syntax error. */
  function ScanToken(tables: Tables, s: string): (r: Option<Scanned>)
    requires s != ""
    ensures r.Some? ==> |r.value.rest| < |s| && (r.value.empty ==> r.value.token.StartElement?)
  {
    if s[0] != '<' then
      TextShortens(s, AtMarkup, "", NUL, NUL);
      match TextFrom(s, AtMarkup, "", NUL, NUL)
      case None => None
      case Some((data, rest)) => Some(Scanned(CharData(data), false, rest))
    else if |s| == 1 then None
    else if s[1] == '/' then EndTagAt(tables, s[2..])
    else if s[1] == '?' then InstructionAt(tables, s[2..])
    else if s[1] == '!' then DeclarationAt(s[2..])
    else StartTagAt(tables, s[1..])
  }

  // ---------------------------------------------------------------- scanning

  method Spaces(s: string) returns (rest: string)
    ensures rest == SkipSpaces(s)
  {
    rest := s;
    while rest != "" && IsSpace(rest[0])
      invariant SkipSpaces(rest) == SkipSpaces(s)
      decreases |rest|
    {
      rest := rest[1..];
    }
  }

  method ReadName(tables: Tables, s: string) returns (r: Option<(string, string)>)
    ensures r == NameAt(tables, s)
  {
    var n := ScanName(s);
    if n == 0 || n == |s| || !IsName(tables, s[..n]) {
      return None;
    }
    r := Some((s[..n], s[n..]));
  }

  method ReadQualified(tables: Tables, s: string) returns (r: Option<(Name, string)>)
    ensures r == QualifiedAt(tables, s)
  {
    var name := ReadName(tables, s);
    r := if name.None? then None else Some((Split(name.value.0), name.value.1));
  }

  method ReadValue(s: string) returns (r: Option<(string, string)>)
    ensures r == ValueAt(s)
  {
    if s == "" || (s[0] != '"' && s[0] != '\'') {
      return None;
    }
    r := Text(s[1..], AtQuote(s[0]));
  }

  method ReadAttr(tables: Tables, s: string) returns (r: Option<(Attr, string)>)
    ensures r == AttrAt(tables, s)
  {
    hide QualifiedAt, ValueAt, SkipSpaces;
    var name := ReadQualified(tables, s);
    if name.None? {
      return None;
    }
    var equals := Spaces(name.value.1);
    if equals == "" || equals[0] != '=' {
      return None;
    }
    var from := Spaces(equals[1..]);
    var value := ReadValue(from);
    r := if value.None? then None else Some((Attr(name.value.0, value.value.0), value.value.1));
  }

  method ReadStartTag(tables: Tables, s: string) returns (r: Option<Scanned>)
    ensures r == StartTagAt(tables, s)
  {
    hide QualifiedAt, AttrAt, SkipSpaces;
    var name := ReadQualified(tables, s);
    if name.None? {
      return None;
    }
    var rest, attrs: seq<Attr> := name.value.1, [];
    while true
      invariant AttrsFrom(tables, rest, attrs) == AttrsFrom(tables, name.value.1, [])
      decreases |rest|
    {
      rest := Spaces(rest);
      if rest == "" {
        return None;
      }
      if rest[0] == '/' {
        if |rest| == 1 || rest[1] != '>' {
          return None;
        }
        return Some(Scanned(StartElement(name.value.0, attrs), true, rest[2..]));
      }
      if rest[0] == '>' {
        return Some(Scanned(StartElement(name.value.0, attrs), false, rest[1..]));
      }
      var attr := ReadAttr(tables, rest);
      if attr.None? {
        return None;
      }
      attrs, rest := attrs + [attr.value.0], attr.value.1;
    }
  }

  method ReadEndTag(tables: Tables, s: string) returns (r: Option<Scanned>)
    ensures r == EndTagAt(tables, s)
  {
    hide QualifiedAt, SkipSpaces;
    var name := ReadQualified(tables, s);
    if name.None? {
      return None;
    }
    var end := Spaces(name.value.1);
    r := if end == "" || end[0] != '>' then None else Some(Scanned(EndElement(name.value.0), false, end[1..]));
  }

  /** The end of a comment, by its last two characters. */
  method FindCommentEnd(s: string) returns (r: Option<(string, string)>)
    ensures r == Until(s, "-->")
  {
    var i, b0, b1 := 0, NUL, NUL;
    while i < |s|
      invariant 0 <= i <= |s|
      invariant b1 == (if i > 0 then s[i - 1] else NUL) && b0 == (if i > 1 then s[i - 2] else NUL)
      invariant forall k :: 0 <= k && k + 3 <= i ==> !("-->" <= s[k..])
    {
      var b := s[i];
      i := i + 1;
      if b0 == '-' && b1 == '-' && b == '>' {
        UntilFirst(s, "-->", i - 3);
        return Some((s[..i - 3], s[i..]));
      }
      b0, b1 := b1, b;
    }
    UntilNone(s, "-->");
    r := None;
  }

  method FindInstructionEnd(s: string) returns (r: Option<(string, string)>)
    ensures r == Until(s, "?>")
  {
    var i, b0 := 0, NUL;
    while i < |s|
      invariant 0 <= i <= |s| && b0 == (if i > 0 then s[i - 1] else NUL)
      invariant forall k :: 0 <= k && k + 2 <= i ==> !("?>" <= s[k..])
    {
      var b := s[i];
      i := i + 1;
      if b0 == '?' && b == '>' {
        UntilFirst(s, "?>", i - 2);
        return Some((s[..i - 2], s[i..]));
      }
      b0 := b;
    }
    UntilNone(s, "?>");
    r := None;
  }

  method ReadInstruction(tables: Tables, s: string) returns (r: Option<Scanned>)
    ensures r == InstructionAt(tables, s)
  {
    hide NameAt, SkipSpaces, Until, DeclarationOk;
    var name := ReadName(tables, s);
    if name.None? {
      return None;
    }
    var from := Spaces(name.value.1);
    var content := FindInstructionEnd(from);
    if content.None? || (name.value.0 == "xml" && !DeclarationOk(content.value.0)) {
      return None;
    }
    r := Some(Scanned(ProcInst(name.value.0, content.value.0), false, content.value.1));
  }

  method ReadDirective(s: string, first: char) returns (r: Option<(string, string)>)
    ensures r == DirectiveFrom(s, None, 0, [first])
  {
    hide Until;
    var rest, quote, depth, buf := s, None, 0, [first];
    while rest != ""
      invariant DirectiveFrom(rest, quote, depth, buf) == DirectiveFrom(s, None, 0, [first])
      decreases |rest|
    {
      var b := rest[0];
      rest := rest[1..];
      var before := buf;
      buf := buf + [b];
      if quote.Some? {
        if b == quote.value {
          quote := None;
        }
      } else if b == '>' {
        if depth == 0 {
          return Some((before, rest));
        }
        depth := depth - 1;
      } else if b == '\'' || b == '"' {
        quote := Some(b);
      } else if b == '<' {
        if "!--" <= rest {
          var end := FindCommentEnd(rest[3..]);
          if end.None? {
            return None;
          }
          rest, buf := end.value.1, before;
        } else {
          depth := depth + 1;
        }
      }
    }
    r := None;
  }

  method ReadDeclaration(s: string) returns (r: Option<Scanned>)
    ensures r == DeclarationAt(s)
  {
    hide Until, TextFrom, DirectiveFrom;
    if s == "" {
      return None;
    }
    if s[0] == '-' {
      if |s| == 1 || s[1] != '-' {
        return None;
      }
      var comment := FindCommentEnd(s[2..]);
      return if comment.None? then None else Some(Scanned(Comment(comment.value.0), false, comment.value.1));
    }
    if s[0] == '[' {
      if !("[CDATA[" <= s) {
        return None;
      }
      var data := Text(s[7..], AtCData);
      return if data.None? then None else Some(Scanned(CharData(data.value.0), false, data.value.1));
    }
    var text := ReadDirective(s[1..], s[0]);
    r := if text.None? then None else Some(Scanned(Directive(text.value.0), false, text.value.1));
  }

  method ReadMarkup(tables: Tables, s: string) returns (r: Option<Scanned>)
    requires s != ""
    ensures r == ScanToken(tables, s)
  {
    hide TextFrom, EndTagAt, InstructionAt, DeclarationAt, StartTagAt;
    if s[0] != '<' {
      var data := Text(s, AtMarkup);
      return if data.None? then None else Some(Scanned(CharData(data.value.0), false, data.value.1));
    }
    if |s| == 1 {
      return None;
    }
    if s[1] == '/' {
      r := ReadEndTag(tables, s[2..]);
    } else if s[1] == '?' {
      r := ReadInstruction(tables, s[2..]);
    } else if s[1] == '!' {
      r := ReadDeclaration(s[2..]);
    } else {
      r := ReadStartTag(tables, s[1..]);
    }
  }

  /** The end is nowhere to be found before the place where it is found. */
  lemma {:induction false} UntilFinds(s: string, end: string)
    ensures match Until(s, end)
      case Some((before, rest)) => s == before + end + rest && forall k :: 0 <= k < |before| ==> !(end <= s[k..])
      case None => forall k :: 0 <= k <= |s| ==> !(end <= s[k..])
  {
    assert s[0..] == s;
    if end <= s {
      assert s == end + s[|end|..];
    } else if s != "" {
      UntilFinds(s[1..], end);
      assert s == [s[0]] + s[1..];
      assert forall k :: 0 < k <= |s| ==> s[k..] == s[1..][k - 1..];
    }
  }

  lemma {:induction false} UntilFirst(s: string, end: string, i: nat)
    requires i + |end| <= |s| && end <= s[i..] && forall k :: 0 <= k < i ==> !(end <= s[k..])
    ensures Until(s, end) == Some((s[..i], s[i + |end|..]))
  {
    assert s[0..] == s;
    if i == 0 {
    } else {
      var t := s[1..];
      assert t[i - 1..] == s[i..] && t[i - 1 + |end|..] == s[i + |end|..];
      forall k | 0 <= k < i - 1
        ensures !(end <= t[k..])
      {
        assert t[k..] == s[k + 1..];
      }
      UntilFirst(t, end, i - 1);
      assert !(end <= s[0..]);
      assert [s[0]] + t[..i - 1] == s[..i];
    }
  }

  lemma {:induction false} UntilNone(s: string, end: string)
    requires end != "" && forall k :: 0 <= k <= |s| ==> !(end <= s[k..])
    ensures Until(s, end).None?
  {
    assert s[0..] == s;
    if s == "" {
    } else {
      forall k | 0 <= k <= |s| - 1
        ensures !(end <= s[1..][k..])
      {
        assert s[1..][k..] == s[k + 1..];
      }
      UntilNone(s[1..], end);
    }
  }
}
