/** Slash-separated resource names, as the lock system sees them: the clean form a name is
    brought into, the parent of a clean name, and the walk from a name up to the root. */
module Paths {

  // ---------------------------------------------------------------- cleaning a name

  /** The pieces of s between its slashes; a name with n slashes has n + 1 pieces. */
  function Segments(s: string): (r: seq<string>)
    ensures |r| > 0
  {
    if s == "" then [""]
    else if s[0] == '/' then [""] + Segments(s[1..])
    else
      var rest := Segments(s[1..]);
      [[s[0]] + rest[0]] + rest[1..]
  }

  /** Drops empty and "." pieces and lets ".." remove the piece before it, if there is one. */
  function Resolve(segs: seq<string>, acc: seq<string>): seq<string>
    decreases |segs|
  {
    if segs == [] then acc else Resolve(segs[1..], ResolveOne(segs[0], acc))
  }

  function ResolveOne(seg: string, acc: seq<string>): seq<string> {
    if seg == "" || seg == "." then acc
    else if seg == ".." then if acc == [] then [] else acc[..|acc| - 1]
    else acc + [seg]
  }

  function Join(segs: seq<string>): string {
    if segs == [] then "" else "/" + segs[0] + Join(segs[1..])
  }

  /** path.Clean("/" + name), which is how every lock root and every confirmed name is read. */
  function SlashClean(name: string): string {
    var rooted := if name == "" || name[0] != '/' then "/" + name else name;
    var segs := Resolve(Segments(rooted), []);
    if segs == [] then "/" else Join(segs)
  }

  predicate PlainSegment(s: string) {
    s != "" && s != "." && s != ".." && '/' !in s
  }

  /** A name in clean form: the root, or plain segments each behind one slash. */
  ghost predicate Clean(name: string) {
    name == "/" ||
    exists segs: seq<string> :: segs != [] && (forall s <- segs :: PlainSegment(s)) && name == Join(segs)
  }

  lemma {:induction false} SegmentsHaveNoSlash(s: string)
    ensures forall seg <- Segments(s) :: '/' !in seg
  {
    if s == "" {
    } else {
      SegmentsHaveNoSlash(s[1..]);
    }
  }

  lemma {:induction false} ResolvePlain(segs: seq<string>, acc: seq<string>)
    requires forall s <- segs :: '/' !in s
    requires forall s <- acc :: PlainSegment(s)
    ensures forall s <- Resolve(segs, acc) :: PlainSegment(s)
    decreases |segs|
  {
    if segs == [] {
    } else {
      ResolvePlain(segs[1..], ResolveOne(segs[0], acc));
    }
  }

  lemma {:induction false} ResolveOfPlain(segs: seq<string>, acc: seq<string>)
    requires forall s <- segs :: PlainSegment(s)
    ensures Resolve(segs, acc) == acc + segs
    decreases |segs|
  {
    if segs == [] {
    } else {
      assert PlainSegment(segs[0]);
      ResolveOfPlain(segs[1..], acc + [segs[0]]);
      assert acc + [segs[0]] + segs[1..] == acc + segs;
    }
  }

  lemma {:induction false} SegmentsOfPrefix(seg: string, tail: string)
    requires '/' !in seg
    requires tail == "" || tail[0] == '/'
    ensures Segments(seg + tail) == [seg] + Segments(tail)[1..]
    ensures Segments(tail)[0] == ""
  {
    if seg != "" {
      SegmentsOfPrefix(seg[1..], tail);
      assert (seg + tail)[1..] == seg[1..] + tail;
      assert [seg[0]] + seg[1..] == seg;
    } else {
      assert seg + tail == tail;
      assert tail != "" ==> Segments(tail) == [""] + Segments(tail[1..]);
    }
  }

  lemma SegmentsOfSlash(tail: string)
    ensures Segments("/" + tail) == [""] + Segments(tail)
    ensures Segments("") == [""]
  {
    assert ("/" + tail)[1..] == tail;
  }

  lemma {:induction false} SegmentsOfJoin(segs: seq<string>)
    requires forall s <- segs :: PlainSegment(s)
    ensures Segments(Join(segs)) == [""] + segs
  {
    hide Segments;
    SegmentsOfSlash("");
    if segs == [] {
    } else {
      assert PlainSegment(segs[0]);
      SegmentsOfJoin(segs[1..]);
      var tail := Join(segs[1..]);
      SegmentsOfPrefix(segs[0], tail);
      SegmentsOfSlash(segs[0] + tail);
      assert Join(segs) == "/" + (segs[0] + tail);
      assert [segs[0]] + segs[1..] == segs;
    }
  }

  /** Every name is brought into clean form, and a clean name stays as it is. */
  lemma SlashCleanIsClean(name: string)
    ensures Clean(SlashClean(name)) && Rooted(SlashClean(name))
    ensures Clean(name) ==> SlashClean(name) == name
  {
    var rooted := if name == "" || name[0] != '/' then "/" + name else name;
    SegmentsHaveNoSlash(rooted);
    ResolvePlain(Segments(rooted), []);
    if Clean(name) && name != "/" {
      var segs: seq<string> :| segs != [] && (forall s <- segs :: PlainSegment(s)) && name == Join(segs);
      SegmentsOfJoin(segs);
      ResolveOfPlain(segs, []);
      assert rooted == name;
      assert ([""] + segs)[1..] == segs;
      assert [] + segs == segs;
    } else if name == "/" {
      assert Segments("/") == ["", ""];
      assert Resolve(["", ""], []) == Resolve([""], []) == [];
    }
  }

  // ---------------------------------------------------------------- what cleaning comes to

  lemma FirstPiece(s: string)
    requires s != ""
    ensures s[0] == '/' ==> Segments(s) == [""] + Segments(s[1..])
    ensures s[0] != '/' ==> Segments(s) == [[s[0]] + Segments(s[1..])[0]] + Segments(s[1..])[1..]
  {
  }

  lemma {:induction false} SegmentsMore(p: string, s: string)
    ensures Segments(p + "/" + s) == Segments(p) + Segments(s)
  {
    if p == "" {
      assert p + "/" + s == "/" + s;
      SegmentsOfSlash(s);
    } else {
      hide Segments;
      var all, rest, more := p + "/" + s, Segments(p[1..]), Segments(s);
      AfterFirst(p, s);
      SegmentsMore(p[1..], s);
      FirstPiece(all);
      FirstPiece(p);
      FirstGrows([p[0]], rest, more);
    }
  }

  lemma AfterFirst(p: string, s: string)
    requires p != ""
    ensures var all := p + "/" + s; all[1..] == p[1..] + "/" + s && all[0] == p[0]
  {
  }

  lemma FirstGrows(c: string, a: seq<string>, b: seq<string>)
    requires a != []
    ensures [""] + (a + b) == [""] + a + b
    ensures [c + (a + b)[0]] + (a + b)[1..] == [c + a[0]] + a[1..] + b
  {
    assert (a + b)[1..] == a[1..] + b;
  }

  lemma {:induction false} OneSegment(s: string)
    requires '/' !in s
    ensures Segments(s) == [s]
  {
    SegmentsOfPrefix(s, "");
    assert s + "" == s;
  }

  lemma {:induction false} ResolveMore(a: seq<string>, b: seq<string>, acc: seq<string>)
    ensures Resolve(a + b, acc) == Resolve(b, Resolve(a, acc))
    decreases |a|
  {
    if a == [] {
      assert a + b == b;
    } else {
      assert (a + b)[1..] == a[1..] + b;
      ResolveMore(a[1..], b, ResolveOne(a[0], acc));
    }
  }

  /** A slash before a name changes nothing. */
  lemma SlashBefore(p: string)
    ensures Resolve(Segments("/" + p), []) == Resolve(Segments(p), [])
    ensures SlashClean(p) == Joined(Resolve(Segments(p), []))
  {
    hide Segments;
    SegmentsOfSlash(p);
    assert ([""] + Segments(p))[1..] == Segments(p);
  }

  /** A piece put behind a name is resolved after the others. */
  lemma PieceBehind(p: string, s: string)
    requires '/' !in s
    ensures Resolve(Segments(p + "/" + s), []) == ResolveOne(s, Resolve(Segments(p), []))
  {
    hide Segments, ResolveOne;
    SegmentsMore(p, s);
    OneSegment(s);
    ResolveMore(Segments(p), [s], []);
    assert [s][1..] == [];
  }

  function Joined(segs: seq<string>): string {
    if segs == [] then "/" else Join(segs)
  }

  lemma {:induction false} JoinMore(segs: seq<string>, s: string)
    ensures Join(segs + [s]) == Join(segs) + "/" + s
  {
    if segs == [] {
      assert segs + [s] == [s] && [s][1..] == [];
    } else {
      assert (segs + [s])[1..] == segs[1..] + [s];
      JoinMore(segs[1..], s);
    }
  }

  lemma LastSlashOfJoin(before: string, s: string)
    requires '/' !in s
    ensures LastSlash(before + "/" + s) == |before|
  {
    var name := before + "/" + s;
    assert name[|before|] == '/';
    assert forall j :: |before| < j < |name| ==> name[j] in s;
  }

  /** What the cleaned name is, from the pieces of the name, the last one first: an empty piece and
      "." change nothing, ".." goes to the parent, if there is one, and any other piece goes behind
      a slash. With a slash before it or not, a name is the same; and the empty name is the root. */
  lemma SlashCleanLaws(p: string, s: string)
    ensures SlashClean("") == "/" && SlashClean("/" + p) == SlashClean(p)
    ensures SlashClean(p + "/") == SlashClean(p) && SlashClean(p + "/.") == SlashClean(p)
    ensures SlashClean(p + "/..") == if SlashClean(p) == "/" then "/" else Parent(SlashClean(p))
    ensures PlainSegment(s) ==>
      SlashClean(p + "/" + s) == (if SlashClean(p) == "/" then "" else SlashClean(p)) + "/" + s
  {
    hide Segments, SlashClean, Parent, Join, Joined, Resolve;
    var segs := Resolve(Segments(p), []);
    assert p + "/" + "" == p + "/" && p + "/" + "." == p + "/." && p + "/" + ".." == p + "/..";
    CleanOfPieces(p);
    SlashBefore(p);
    SlashBefore("/" + p);
    OnlyEmpty();
    PieceBehind(p, "");
    SlashBefore(p + "/");
    PieceBehind(p, ".");
    SlashBefore(p + "/.");
    PieceBehind(p, "..");
    SlashBefore(p + "/..");
    ParentOfJoined(segs);
    if PlainSegment(s) {
      PieceBehind(p, s);
      SlashBefore(p + "/" + s);
      JoinedMore(segs, s);
    }
  }

  lemma OnlyEmpty()
    ensures SlashClean("") == "/" && Joined([]) == "/"
  {
    assert Segments("/") == ["", ""] && ["", ""][1..] == [""] && [""][1..] == [];
  }

  lemma CleanOfPieces(p: string)
    ensures var segs := Resolve(Segments(p), []);
      (forall s <- segs :: PlainSegment(s)) && (Joined(segs) == "/" <==> segs == [])
  {
    SegmentsHaveNoSlash(p);
    ResolvePlain(Segments(p), []);
    var segs := Resolve(Segments(p), []);
    if segs != [] {
      assert PlainSegment(segs[0]);
      assert |Join(segs)| >= 1 + |segs[0]|;
    }
  }

  lemma JoinedMore(segs: seq<string>, s: string)
    requires forall seg <- segs :: PlainSegment(seg)
    ensures Joined(segs + [s]) == (if Joined(segs) == "/" then "" else Joined(segs)) + "/" + s
  {
    JoinMore(segs, s);
    if segs != [] {
      assert PlainSegment(segs[0]);
      assert |Join(segs)| >= 1 + |segs[0]|;
    }
  }

  lemma ParentOfJoined(segs: seq<string>)
    requires forall s <- segs :: PlainSegment(s)
    ensures segs != [] ==>
      Rooted(Joined(segs)) && Joined(segs) != "/" && Parent(Joined(segs)) == Joined(segs[..|segs| - 1])
  {
    if segs != [] {
      var before, last := segs[..|segs| - 1], segs[|segs| - 1];
      assert segs == before + [last] && PlainSegment(last);
      JoinMore(before, last);
      JoinStarts(before);
      hide Join;
      LastSlashOfJoin(Join(before), last);
      assert Join(segs)[..|Join(before)|] == Join(before);
    }
  }

  lemma JoinStarts(segs: seq<string>)
    ensures Join(segs) == "" <==> segs == []
    ensures segs != [] ==> Rooted(Join(segs))
  {
  }

  // ---------------------------------------------------------------- the walk to the root

  predicate Rooted(name: string) {
    |name| > 0 && name[0] == '/'
  }

  /** The position of the last slash, as strings.LastIndex(name, "/") gives it. */
  function LastSlash(name: string): (i: int)
    ensures -1 <= i < |name|
    ensures i >= 0 ==> name[i] == '/'
    ensures forall j :: i < j < |name| ==> name[j] != '/'
  {
    if name == "" then -1
    else if name[|name| - 1] == '/' then |name| - 1
    else LastSlash(name[..|name| - 1])
  }

  /** One step of the walk: cut at the last slash, and read the empty string as the root. */
  function Parent(name: string): (p: string)
    requires Rooted(name) && name != "/"
    ensures Rooted(p) && |p| < |name|
  {
    var cut := name[..LastSlash(name)];
    if cut == "" then "/" else cut
  }

  /** The names the walk visits, the first one included. A name that is not rooted, which no
      caller passes, is its own chain. */
  function Chain(name: string): (c: set<string>)
    ensures name in c
    ensures Rooted(name) ==> "/" in c
    ensures forall p <- c :: |p| <= |name| && (Rooted(name) ==> Rooted(p))
    ensures forall p <- c :: |p| == |name| ==> p == name
    decreases |name|
  {
    {name} + if !Rooted(name) || name == "/" then {} else Chain(Parent(name))
  }

  /** The chain of a name is its text cut at each slash: the test lookup makes on strings
      (equal, the root, or a prefix followed by a slash) is membership in the walk. */
  lemma {:induction false} PrefixTestIsChain(root: string, name: string)
    requires Rooted(root) && Rooted(name)
    ensures root in Chain(name) <==> root == name || root == "/" || root + "/" <= name
    decreases |name|
  {
    if name == "/" {
    } else {
      var i := LastSlash(name);
      var p := Parent(name);
      PrefixTestIsChain(root, p);
      if root != "/" && root != name && root + "/" <= name {
        assert name[|root|] == '/';
        assert |root| <= i;
        if |root| < i {
          assert p == name[..i];
          assert root + "/" <= p;
        } else {
          assert root == name[..i];
        }
      }
      if root != "/" && root + "/" <= p {
        assert p <= name;
        assert root + "/" <= name;
      }
      if root == p && p != "/" {
        assert p + "/" == name[..i + 1];
      }
    }
  }

  /** Ancestry is transitive. */
  lemma {:induction false} ChainTransitive(p: string, q: string, name: string)
    requires q in Chain(name) && p in Chain(q)
    ensures p in Chain(name)
    decreases |name|
  {
    if q == name {
    } else {
      ChainTransitive(p, q, Parent(name));
    }
  }

  /** Two ancestors of one name are themselves in line. */
  lemma {:induction false} ChainLinear(p: string, q: string, name: string)
    requires p in Chain(name) && q in Chain(name)
    ensures p in Chain(q) || q in Chain(p)
    decreases |name|
  {
    if p != name && q != name {
      ChainLinear(p, q, Parent(name));
    }
  }

  lemma ChainAntisymmetric(p: string, q: string)
    requires p in Chain(q) && q in Chain(p)
    ensures p == q
  {
  }
}
