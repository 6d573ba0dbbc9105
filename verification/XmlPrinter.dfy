/** The encoder's printer: two maps that are kept inverse to each other, and a stack of undo
    records, with a mark for each open element. The printer goes through the states XmlScope
    describes, and an end tag puts back exactly the scope its start tag was met with. */
module XmlPrinter {
  import opened Options
  import opened XmlNames
  import opened XmlScope
  import opened XmlText

  datatype Undo = Mark | Undo(prefix: string, url: string)

  /** The prefixes declared since the last mark, latest first. */
  function Since(prefixes: seq<Undo>): seq<string> {
    var last := |prefixes| - 1;
    if prefixes == [] || prefixes[last].Mark? then [] else [prefixes[last].prefix] + Since(prefixes[..last])
  }

  /** Undoing down to a mark gives the scope outside the element the mark is for, and so on. */
  ghost predicate Undoes(sc: Scope, prefixes: seq<Undo>, open: seq<Opened>)
    decreases |prefixes|
  {
    var last := |prefixes| - 1;
    if prefixes == [] then open == []
    else
      && open != []
      && match prefixes[last]
         case Mark => open[|open| - 1].outer == sc && Undoes(sc, prefixes[..last], open[..|open| - 1])
         case Undo(prefix, url) => Undoes(Set(sc, prefix, url), prefixes[..last], open)
  }

  lemma PushUndoes(sc: Scope, prefixes: seq<Undo>, open: seq<Opened>, prefix: string, url: string)
    requires Inverse(sc) && Undoes(sc, prefixes, open) && open != []
    requires prefix != "" && url != "" ==> url !in sc.attrPrefix
    ensures Undoes(Set(sc, prefix, url), prefixes + [Undo(prefix, NsFor(sc, prefix))], open)
    ensures Since(prefixes + [Undo(prefix, NsFor(sc, prefix))]) == [prefix] + Since(prefixes)
  {
    hide Set, NsFor, Inverse;
    var more := prefixes + [Undo(prefix, NsFor(sc, prefix))];
    assert more[..|more| - 1] == prefixes;
    SetBackRestores(sc, prefix, url);
  }

  lemma MarkUndoes(sc: Scope, prefixes: seq<Undo>, open: seq<Opened>, name: Name)
    requires Undoes(sc, prefixes, open)
    ensures Undoes(sc, prefixes + [Mark], open + [Opened(name, sc)])
    ensures Since(prefixes + [Mark]) == []
  {
    assert (prefixes + [Mark])[..|prefixes|] == prefixes;
    assert (open + [Opened(name, sc)])[..|open|] == open;
  }

  lemma DeclaredFrom(sc: Scope, prefixes: seq<Undo>, i: nat)
    requires i < |prefixes|
    ensures Declarations(sc, Since(prefixes[..i + 1]))
         == if prefixes[i].Mark? then []
            else [Declaration(sc, prefixes[i].prefix)] + Declarations(sc, Since(prefixes[..i]))
  {
    hide Declaration;
    assert prefixes[..i + 1][..i] == prefixes[..i];
    var since := Since(prefixes[..i + 1]);
    if prefixes[i].Undo? {
      assert since[1..] == Since(prefixes[..i]);
    }
  }

  lemma NothingDeclared(sc: Scope, prefixes: seq<Undo>)
    requires prefixes == []
    ensures Declarations(sc, Since(prefixes)) == []
  {
  }

  class Printer {
    const isName: string -> bool
    var next: nat
    var defaultNS: string
    var attrNS: map<string, string>
    var attrPrefix: map<string, string>
    var prefixes: seq<Undo>
    var tags: seq<Name>
    var out: seq<Piece>
    ghost var open: seq<Opened>

    function Now(): Scope
      reads this`defaultNS, this`attrNS, this`attrPrefix
    {
      Scope(defaultNS, attrNS, attrPrefix)
    }

    ghost function Preparing(): Work
      reads this`defaultNS, this`attrNS, this`attrPrefix, this`prefixes, this`next
    {
      Work(Now(), Since(prefixes), next)
    }

    ghost function State(): Printing
      reads this`defaultNS, this`attrNS, this`attrPrefix, this`next, this`open, this`out
    {
      Printing(Now(), next, open, out)
    }

    ghost predicate Scoped()
      reads this`defaultNS, this`attrNS, this`attrPrefix, this`prefixes, this`open
    {
      Inverse(Now()) && Undoes(Now(), prefixes, open)
    }

    ghost predicate Valid()
      reads this
    {
      && Scoped()
      && |tags| == |open|
      && forall i :: 0 <= i < |tags| ==> tags[i] == open[i].name && tags[i].local != "" && Inverse(open[i].outer)
    }

    constructor (isName: string -> bool)
      ensures Valid() && State() == Printing(FRESH, 0, [], []) && this.isName == isName
    {
      this.isName := isName;
      next, defaultNS, attrNS, attrPrefix := 0, "", map[], map[];
      prefixes, tags, out, open := [], [], [], [];
    }

    method SetAttrPrefix(prefix: string, url: string)
      modifies this`defaultNS, this`attrNS, this`attrPrefix
      ensures Now() == Set(old(Now()), prefix, url)
    {
      if prefix == "" {
        defaultNS := url;
        return;
      }
      attrPrefix := attrPrefix - {Get(attrNS, prefix)};
      if url == "" {
        attrNS := attrNS - {prefix};
        return;
      }
      attrPrefix := attrPrefix[url := prefix];
      attrNS := attrNS[prefix := url];
    }

    method PushPrefix(prefix: string, url: string)
      requires Scoped() && open != []
      requires prefix != "" && url != "" ==> url !in attrPrefix
      modifies this`defaultNS, this`attrNS, this`attrPrefix, this`prefixes
      ensures Scoped() && Preparing() == Push(old(Preparing()), prefix, url)
    {
      hide Set, NsFor, Inverse, Undoes, Since;
      PushUndoes(Now(), prefixes, open, prefix, url);
      SetKeepsInverse(Now(), prefix, url);
      prefixes := prefixes + [Undo(prefix, NsFor(Now(), prefix))];
      SetAttrPrefix(prefix, url);
    }

    method PopPrefix()
      requires Scoped() && open != []
      requires Inverse(open[|open| - 1].outer)
      modifies this`defaultNS, this`attrNS, this`attrPrefix, this`prefixes, this`open
      ensures Scoped() && Now() == old(open[|open| - 1].outer) && open == old(open[..|open| - 1])
    {
      hide Set, Inverse;
      while |prefixes| > 0
        invariant open == old(open) && open != []
        invariant Undoes(Now(), prefixes, open)
        decreases |prefixes|
      {
        var prefix := prefixes[|prefixes| - 1];
        prefixes := prefixes[..|prefixes| - 1];
        if prefix.Mark? {
          open := open[..|open| - 1];
          return;
        }
        SetAttrPrefix(prefix.prefix, prefix.url);
      }
    }

    method DefineNS(attr: Attr, ignoreNonEmptyDefault: bool) returns (ok: bool)
      requires Scoped() && open != []
      modifies this`defaultNS, this`attrNS, this`attrPrefix, this`prefixes
      ensures Scoped() && ok == Define(old(Preparing()), attr, ignoreNonEmptyDefault).Some?
      ensures ok ==> Preparing() == Define(old(Preparing()), attr, ignoreNonEmptyDefault).value
      ensures !ok ==> Preparing() == old(Preparing())
    {
      hide Push, Inverse, Undoes, Since;
      var prefix := "";
      if attr.name.local == "xmlns" {
        if attr.name.space != "" && attr.name.space != "xml" && attr.name.space != XML_URL {
          return false;
        }
      } else if attr.name.space == "xmlns" && attr.name.local != "" {
        prefix := attr.name.local;
        if attr.value == "" {
          return true;
        }
      } else {
        return true;
      }
      if prefix == "" {
        if attr.value == defaultNS || (attr.value != "" && ignoreNonEmptyDefault) {
          return true;
        }
      } else if attr.value in attrPrefix {
        return true;
      }
      PushPrefix(prefix, attr.value);
      ok := true;
    }

    /** The last part of the URL if that is a name. */
    method Hinted(url: string) returns (prefix: string)
      ensures prefix == Hint(isName, url)
    {
      prefix := TrimSlashes(url);
      prefix := AfterLastSlash(prefix);
      if prefix == "" || !isName(prefix) || ':' in prefix {
        prefix := "_";
      }
      if "xml" <= prefix {
        prefix := "_" + prefix;
      }
    }

    /** Tries one number after the other until a prefix is free. */
    method FindNumber(prefix: string) returns (id: string)
      modifies this`next
      ensures next == FreeNumber(attrNS.Keys, prefix, old(next) + 1)
      ensures id == Numbered(prefix, next) && id !in attrNS
    {
      hide Numbered;
      FreeNumberIsFree(attrNS.Keys, prefix, next + 1);
      next := next + 1;
      id := Numbered(prefix, next);
      ghost var left := attrNS.Keys;
      while id in attrNS
        invariant id == Numbered(prefix, next) && left <= attrNS.Keys
        invariant FreeNumber(left, prefix, next) == FreeNumber(attrNS.Keys, prefix, old(next) + 1)
        invariant forall k: nat :: k >= next && Numbered(prefix, k) in attrNS ==> Numbered(prefix, k) in left
        decreases |left|
      {
        forall k: nat | k > next
          ensures Numbered(prefix, k) != id
        {
          if Numbered(prefix, k) == id {
            NumberedInjective(prefix, k, next);
          }
        }
        left := left - {id};
        next := next + 1;
        id := Numbered(prefix, next);
      }
    }

    method CreateNSPrefix(url: string, isAttr: bool)
      requires Scoped() && open != []
      modifies this`defaultNS, this`attrNS, this`attrPrefix, this`prefixes, this`next
      ensures Scoped() && Preparing() == CreatePrefix(isName, old(Preparing()), url, isAttr)
    {
      hide Push, Inverse, Undoes, Since, Hint;
      if url in attrPrefix || (!isAttr && url == defaultNS) {
        return;
      }
      if url == "" {
        if defaultNS != "" {
          PushPrefix("", "");
        }
        return;
      }
      if url == XML_URL {
        return;
      }
      var prefix := Hinted(url);
      if prefix in attrNS {
        prefix := FindNumber(prefix);
      }
      PushPrefix(prefix, url);
    }

    method WriteNamespaces() returns (ds: seq<Written>)
      ensures ds == Declarations(Now(), Since(prefixes))
    {
      hide Declarations, Since, Declaration;
      ds := [];
      var i := |prefixes| - 1;
      ghost var rest := Declarations(Now(), Since(prefixes));
      assert prefixes[..i + 1] == prefixes;
      while i >= 0
        invariant -1 <= i < |prefixes|
        invariant rest == Declarations(Now(), Since(prefixes[..i + 1]))
        invariant Declarations(Now(), Since(prefixes)) == ds + rest
      {
        DeclaredFrom(Now(), prefixes, i);
        if prefixes[i].Mark? {
          return;
        }
        var d := WriteNamespace(prefixes[i].prefix);
        rest := rest[1..];
        ds := ds + [d];
        i := i - 1;
      }
      NothingDeclared(Now(), prefixes[..0]);
    }

    method WriteNamespace(prefix: string) returns (d: Written)
      ensures d == Declaration(Now(), prefix)
    {
      var value := EscapeText(NsFor(Now(), prefix), true);
      d := Written(if prefix == "" then "xmlns" else "xmlns:" + prefix, value);
    }

    method WriteAttrs(attrs: seq<Attr>) returns (ws: seq<Written>)
      ensures ws == PlainAttrs(Now(), attrs)
    {
      hide Spelled, Now, PlainAttrs;
      NoPlainAttrs(Now());
      assert attrs[0..] == attrs;
      ws := [];
      for i := 0 to |attrs|
        invariant PlainAttrs(Now(), attrs) == ws + PlainAttrs(Now(), attrs[i..])
      {
        var name := attrs[i].name;
        ghost var left := attrs[i..];
        assert left[0] == attrs[i] && left[1..] == attrs[i + 1..];
        OnePlainAttr(Now(), left);
        if name.local == "" || IsNamespace(name) {
          continue;
        }
        var value := EscapeText(attrs[i].value, true);
        ghost var before, rest := ws, PlainAttrs(Now(), attrs[i + 1..]);
        ws := ws + [Written(Spelled(Now(), name, true), value)];
        assert before + ([Written(Spelled(Now(), name, true), value)] + rest) == ws + rest;
      }
      assert attrs[|attrs|..] == [] && ws + [] == ws;
    }

    /** Both passes over the attributes, and the element's own namespace. */
    method Prepare(name: Name, attrs: seq<Attr>) returns (ok: bool)
      requires Scoped() && open != []
      modifies this`defaultNS, this`attrNS, this`attrPrefix, this`prefixes, this`next
      ensures Scoped() && ok == StartWork(isName, old(Preparing()), name, attrs).Some?
      ensures ok ==> Preparing() == StartWork(isName, old(Preparing()), name, attrs).value
      ensures !ok ==> Preparing() == DefinedBefore(old(Preparing()), attrs, name.space == "")
    {
      hide Define, CreatePrefix, Since;
      ghost var w := Preparing();
      var ignoreNonEmptyDefault := name.space == "";
      for i := 0 to |attrs|
        invariant Scoped()
        invariant DefineAll(Preparing(), attrs[i..], ignoreNonEmptyDefault)
               == DefineAll(w, attrs, ignoreNonEmptyDefault)
        invariant DefinedBefore(Preparing(), attrs[i..], ignoreNonEmptyDefault)
               == DefinedBefore(w, attrs, ignoreNonEmptyDefault)
      {
        assert attrs[i..][1..] == attrs[i + 1..];
        ok := DefineNS(attrs[i], ignoreNonEmptyDefault);
        if !ok {
          return;
        }
      }
      ghost var v := Preparing();
      for i := 0 to |attrs|
        invariant Scoped()
        invariant CreateAll(isName, Preparing(), attrs[i..]) == CreateAll(isName, v, attrs)
      {
        assert attrs[i..][1..] == attrs[i + 1..];
        var space := attrs[i].name.space;
        if space != "" && !IsNamespace(attrs[i].name) {
          CreateNSPrefix(space, true);
        }
      }
      CreateNSPrefix(name.space, false);
      ok := true;
    }

    /** If a declaration is an error nothing has been written, but the element has been opened. */
    method WriteStart(name: Name, attrs: seq<Attr>) returns (ok: bool)
      requires Valid()
      modifies this
      ensures Valid() && ok == PrintToken(isName, old(State()), StartElement(name, attrs)).Some?
      ensures ok ==> State() == PrintToken(isName, old(State()), StartElement(name, attrs)).value
      ensures !ok ==> State() == AfterError(old(State()), StartElement(name, attrs))
    {
      hide Inverse, Undoes, Since, StartWork, Declarations, PlainAttrs;
      if name.local == "" {
        return false;
      }
      MarkUndoes(Now(), prefixes, open, name);
      tags := tags + [name];
      prefixes := prefixes + [Mark];
      open := open + [Opened(name, Now())];
      ok := Prepare(name, attrs);
      if !ok {
        return;
      }
      var ds := WriteNamespaces();
      var ws := WriteAttrs(attrs);
      out := out + [StartTag(Spelled(Now(), name, false), ds + ws)];
    }

    method WriteEnd(name: Name) returns (ok: bool)
      requires Valid()
      modifies this
      ensures Valid() && ok == PrintToken(isName, old(State()), EndElement(name)).Some?
      ensures State() == if ok then PrintToken(isName, old(State()), EndElement(name)).value else old(State())
    {
      hide Inverse, Undoes, Spelled;
      if name.local == "" || |tags| == 0 || tags[|tags| - 1] != name {
        return false;
      }
      tags := tags[..|tags| - 1];
      out := out + [EndTag(Spelled(Now(), name, false))];
      PopPrefix();
      ok := true;
    }

    method WriteChars(data: string)
      requires Valid()
      modifies this`out
      ensures Valid() && State() == PrintToken(isName, old(State()), CharData(data)).value
    {
      var text := EscapeText(data, false);
      out := AddChars(out, text);
    }

    /** After an error the printer is still in order and nothing was written, but a start tag with
        a bad declaration stays open. */
    method EncodeToken(t: Printable) returns (ok: bool)
      requires Valid()
      modifies this
      ensures Valid() && ok == PrintToken(isName, old(State()), t).Some?
      ensures ok ==> State() == PrintToken(isName, old(State()), t).value
      ensures !ok ==> State() == AfterError(old(State()), t) && out == old(out)
    {
      hide PrintToken, Valid;
      match t
      case StartElement(name, attrs) => ok := WriteStart(name, attrs);
      case EndElement(name) => ok := WriteEnd(name);
      case CharData(data) =>
        assert PrintToken(isName, State(), t).Some? by { PrintsChars(isName, State(), data); }
        WriteChars(data);
        ok := true;
    }
  }

  lemma PrintsChars(isName: string -> bool, p: Printing, data: string)
    ensures PrintToken(isName, p, CharData(data)).Some?
  {
  }

  /** A fresh encoder writes a stream of tokens just as PrintAll does, up to the first error. */
  method Encode(isName: string -> bool, ts: seq<Printable>) returns (ok: bool, p: Printer)
    ensures p.Valid() && ok == PrintAll(isName, ts).Some?
    ensures ok ==> p.State() == PrintAll(isName, ts).value
  {
    hide PrintToken;
    p := new Printer(isName);
    ok := true;
    for i := 0 to |ts|
      invariant fresh(p) && p.Valid() && p.isName == isName && PrintAll(isName, ts[..i]) == Some(p.State())
    {
      assert ts[..i + 1][..i] == ts[..i];
      ok := p.EncodeToken(ts[i]);
      if !ok {
        FailedStays(isName, ts, i + 1);
        return;
      }
    }
    assert ts[..|ts|] == ts;
  }

  lemma {:induction false} FailedStays(isName: string -> bool, ts: seq<Printable>, i: nat)
    requires i <= |ts| && PrintAll(isName, ts[..i]).None?
    ensures PrintAll(isName, ts).None?
  {
    hide PrintToken;
    if i == |ts| {
      assert ts[..i] == ts;
    } else {
      assert ts[..|ts| - 1][..i] == ts[..i];
      FailedStays(isName, ts[..|ts| - 1], i);
    }
  }
}
