/** The table of a struct's fields for XML: no path in it leads through the element of another,
    so that reading an element never has to choose between a field and a way further down. */
module FieldTable {

  datatype Flags = Flags(
    element: bool,
    attr: bool,
    charData: bool,
    innerXml: bool,
    comment: bool,
    anyElement: bool,
    omitEmpty: bool)

  /** The depth of a field is the length of its index; it grows with embedding. */
  datatype FieldInfo = FieldInfo(idx: seq<nat>, name: string, xmlns: string, flags: Flags, parents: seq<string>)

  function Mode(f: FieldInfo): Flags {
    f.flags.(omitEmpty := false)
  }

  function Path(f: FieldInfo): seq<string> {
    f.parents + [f.name]
  }

  /** The paths are the same, or one leads through the end of the other. */
  predicate Conflict(f: FieldInfo, g: FieldInfo) {
    && Mode(f) == Mode(g)
    && (f.xmlns == "" || g.xmlns == "" || f.xmlns == g.xmlns)
    && (Path(f) <= Path(g) || Path(g) <= Path(f))
  }

  predicate Apart(fields: seq<FieldInfo>) {
    forall i, j :: 0 <= i < j < |fields| ==> !Conflict(fields[i], fields[j])
  }

  // ---------------------------------------------------------------- adding a field

  /** The fields that are not in conflict with a new one, in their order. */
  function Rest(fields: seq<FieldInfo>, newf: FieldInfo): seq<FieldInfo> {
    if fields == [] then [] else (if Conflict(fields[0], newf) then [] else [fields[0]]) + Rest(fields[1..], newf)
  }

  predicate Shadowed(fields: seq<FieldInfo>, newf: FieldInfo) {
    exists f <- fields :: Conflict(f, newf) && |f.idx| < |newf.idx|
  }

  predicate Clashes(fields: seq<FieldInfo>, newf: FieldInfo) {
    exists f <- fields :: Conflict(f, newf) && |f.idx| == |newf.idx|
  }

  /** It is an error exactly if there are fields in conflict of the new field's depth and none that is
      shallower; and the new field comes in, for all in conflict with it, exactly if all of them are
      deeper. */
  ghost predicate Added(was: seq<FieldInfo>, newf: FieldInfo, now: seq<FieldInfo>, ok: bool) {
    && (ok <==>
         || (forall f <- was :: Conflict(f, newf) ==> |f.idx| != |newf.idx|)
         || (exists f <- was :: Conflict(f, newf) && |f.idx| < |newf.idx|))
    && if forall f <- was :: Conflict(f, newf) ==> |f.idx| > |newf.idx|
       then
         && now != [] && now[|now| - 1] == newf
         && forall f :: f in now <==> f == newf || (f in was && !Conflict(f, newf))
       else now == was
  }

  lemma AddedIs(was: seq<FieldInfo>, newf: FieldInfo)
    ensures Added(was, newf, if Shadowed(was, newf) || Clashes(was, newf) then was else Rest(was, newf) + [newf],
              !(Clashes(was, newf) && !Shadowed(was, newf)))
  {
    hide Conflict;
    InRest(was, newf);
  }

  lemma PathsInConflict(f: FieldInfo, g: FieldInfo)
    ensures |f.parents| == |g.parents| ==> (Path(f) <= Path(g) <==> f.parents == g.parents && f.name == g.name)
    ensures |f.parents| < |g.parents| ==>
      (Path(f) <= Path(g) <==> f.parents == g.parents[..|f.parents|] && f.name == g.parents[|f.parents|])
    ensures |f.parents| > |g.parents| ==> !(Path(f) <= Path(g))
  {
    var p, q := Path(f), Path(g);
    assert q[..|g.parents|] == g.parents && p[..|f.parents|] == f.parents;
    if |f.parents| < |g.parents| {
      assert q[..|p|] == g.parents[..|p|];
      assert g.parents[..|p|] == g.parents[..|f.parents|] + [g.parents[|f.parents|]];
    }
    if p <= q {
      assert p == q[..|p|] && q[..|p|][|f.parents|] == f.name;
      assert q[..|p|][..|f.parents|] == f.parents;
    }
  }

  class TypeInfo {
    var fields: seq<FieldInfo>

    constructor ()
      ensures fields == []
    {
      fields := [];
    }

    /** The places of the fields in conflict with a new one, found by comparing parents one by one. */
    method Conflicts(newf: FieldInfo) returns (conflicts: seq<nat>)
      ensures forall k :: 0 <= k < |conflicts| ==> conflicts[k] < |fields| && Conflict(fields[conflicts[k]], newf)
      ensures forall j, k :: 0 <= j < k < |conflicts| ==> conflicts[j] < conflicts[k]
      ensures forall i :: 0 <= i < |fields| && Conflict(fields[i], newf) ==> i in conflicts
    {
      conflicts := [];
      for i := 0 to |fields|
        invariant forall k :: 0 <= k < |conflicts| ==> conflicts[k] < i && Conflict(fields[conflicts[k]], newf)
        invariant forall j, k :: 0 <= j < k < |conflicts| ==> conflicts[j] < conflicts[k]
        invariant forall j :: 0 <= j < i && Conflict(fields[j], newf) ==> j in conflicts
      {
        var oldf := fields[i];
        var found := Compare(oldf, newf);
        if found {
          conflicts := conflicts + [i];
        }
      }
    }

    method Compare(oldf: FieldInfo, newf: FieldInfo) returns (conflict: bool)
      ensures conflict == Conflict(oldf, newf)
    {
      PathsInConflict(oldf, newf);
      PathsInConflict(newf, oldf);
      if Mode(oldf) != Mode(newf) {
        return false;
      }
      if oldf.xmlns != "" && newf.xmlns != "" && oldf.xmlns != newf.xmlns {
        return false;
      }
      var minl := if |newf.parents| <= |oldf.parents| then |newf.parents| else |oldf.parents|;
      for p := 0 to minl
        invariant oldf.parents[..p] == newf.parents[..p]
      {
        if oldf.parents[p] != newf.parents[p] {
          assert oldf.parents[..minl][p] != newf.parents[..minl][p];
          return false;
        }
      }
      assert oldf.parents[..|oldf.parents|] == oldf.parents && newf.parents[..|newf.parents|] == newf.parents;
      if |oldf.parents| > |newf.parents| {
        conflict := oldf.parents[|newf.parents|] == newf.name;
      } else if |oldf.parents| < |newf.parents| {
        conflict := newf.parents[|oldf.parents|] == oldf.name;
      } else {
        conflict := newf.name == oldf.name;
      }
    }

    /** addFieldInfo. A field in conflict with a shallower one is ignored; with one of its own
        depth it is an error; otherwise it takes the place of those in conflict with it. */
    method AddFieldInfo(newf: FieldInfo) returns (ok: bool)
      modifies this
      ensures ok == !(Clashes(old(fields), newf) && !Shadowed(old(fields), newf))
      ensures fields ==
        if Shadowed(old(fields), newf) || Clashes(old(fields), newf) then old(fields)
        else Rest(old(fields), newf) + [newf]
      ensures Apart(old(fields)) ==> Apart(fields)
      ensures Added(old(fields), newf, fields, ok)
    {
      hide Conflict, Added;
      AddedIs(fields, newf);
      var conflicts := Conflicts(newf);
      ghost var was := fields;
      forall k | 0 <= k < |conflicts|
        ensures was[conflicts[k]] in was
      {
      }
      if |conflicts| == 0 {
        NoneInConflict(fields, newf);
        RestIsApart(fields, newf);
        fields := fields + [newf];
        return true;
      }
      for k := 0 to |conflicts|
        invariant forall j :: 0 <= j < k ==> |fields[conflicts[j]].idx| >= |newf.idx|
      {
        if |fields[conflicts[k]].idx| < |newf.idx| {
          return true;
        }
      }
      assert !Shadowed(fields, newf);
      for k := 0 to |conflicts|
        invariant forall j :: 0 <= j < k ==> |fields[conflicts[j]].idx| != |newf.idx|
      {
        if |fields[conflicts[k]].idx| == |newf.idx| {
          return false;
        }
      }
      assert !Clashes(fields, newf);
      RestIsApart(fields, newf);
      DropConflicts(newf, conflicts);
      fields := fields + [newf];
      ok := true;
    }

    /** Drops the fields at these places, from the last on, by moving up those behind them. */
    method DropConflicts(newf: FieldInfo, conflicts: seq<nat>)
      requires forall k :: 0 <= k < |conflicts| ==> conflicts[k] < |fields| && Conflict(fields[conflicts[k]], newf)
      requires forall j, k :: 0 <= j < k < |conflicts| ==> conflicts[j] < conflicts[k]
      requires forall i :: 0 <= i < |fields| && Conflict(fields[i], newf) ==> i in conflicts
      modifies this
      ensures fields == Rest(old(fields), newf)
    {
      hide Conflict, Rest;
      ghost var was := fields;
      var c := |conflicts| - 1;
      ghost var limit := |fields|;
      NothingLeft(was, newf);
      while c >= 0
        invariant -1 <= c < |conflicts| && limit == (if c + 1 < |conflicts| then conflicts[c + 1] else |was|) <= |was|
        invariant fields == was[..limit] + Rest(was[limit..], newf)
      {
        var i := conflicts[c];
        forall j | i < j < limit
          ensures !Conflict(was[j], newf)
        {
          Between(conflicts, c, j, |was|);
        }
        OneDropped(was, newf, i, limit);
        fields := fields[..i] + fields[i + 1..];
        limit := i;
        c := c - 1;
      }
      forall j | 0 <= j < limit
        ensures !Conflict(was[j], newf)
      {
        Between(conflicts, -1, j, |was|);
      }
      NoneInConflict(was[..limit], newf);
      RestMore(was[..limit], was[limit..], newf);
      assert was[..limit] + was[limit..] == was;
    }
  }

  lemma NothingLeft(fields: seq<FieldInfo>, newf: FieldInfo)
    ensures fields[..|fields|] + Rest(fields[|fields|..], newf) == fields
  {
  }

  /** Between two neighbours of an ascending sequence there is nothing of it. */
  lemma Between(conflicts: seq<nat>, c: int, j: nat, n: nat)
    requires forall i, k :: 0 <= i < k < |conflicts| ==> conflicts[i] < conflicts[k]
    requires -1 <= c < |conflicts| && (c >= 0 ==> conflicts[c] < j)
    requires j < if c + 1 < |conflicts| then conflicts[c + 1] else n
    ensures j !in conflicts
  {
  }

  lemma {:induction false} NoneInConflict(fields: seq<FieldInfo>, newf: FieldInfo)
    requires forall i :: 0 <= i < |fields| ==> !Conflict(fields[i], newf)
    ensures Rest(fields, newf) == fields && !Shadowed(fields, newf) && !Clashes(fields, newf)
  {
    hide Conflict;
    if fields == [] {
    } else {
      NoneInConflict(fields[1..], newf);
    }
  }

  lemma {:induction false} RestMore(a: seq<FieldInfo>, b: seq<FieldInfo>, newf: FieldInfo)
    ensures Rest(a + b, newf) == Rest(a, newf) + Rest(b, newf)
  {
    hide Conflict;
    if a == [] {
      assert a + b == b;
    } else {
      assert (a + b)[1..] == a[1..] + b;
      RestMore(a[1..], b, newf);
    }
  }

  lemma {:induction false} InRest(fields: seq<FieldInfo>, newf: FieldInfo)
    ensures forall f :: f in Rest(fields, newf) <==> f in fields && !Conflict(f, newf)
  {
    hide Conflict;
    if fields == [] {
    } else {
      InRest(fields[1..], newf);
      assert fields == [fields[0]] + fields[1..];
    }
  }

  /** Dropping the last field in conflict before a place below which the others are dropped. */
  lemma OneDropped(was: seq<FieldInfo>, newf: FieldInfo, i: nat, limit: nat)
    requires i < limit <= |was| && Conflict(was[i], newf)
    requires forall j :: i < j < limit ==> !Conflict(was[j], newf)
    ensures var fields := was[..limit] + Rest(was[limit..], newf);
      fields[..i] + fields[i + 1..] == was[..i] + Rest(was[i..], newf)
  {
    hide Conflict, Rest;
    var middle, tail := was[i + 1..limit], was[limit..];
    NoneInConflict(middle, newf);
    RestMore(middle, tail, newf);
    assert was[..limit] == was[..i] + ([was[i]] + middle);
    var fields := was[..i] + ([was[i]] + middle) + Rest(tail, newf);
    assert fields[..i] == was[..i] && fields[i + 1..] == middle + Rest(tail, newf);
    assert was[i..] == [was[i]] + (middle + tail);
    FirstDropped(was[i], middle + tail, newf);
  }

  lemma FirstDropped(f: FieldInfo, fields: seq<FieldInfo>, newf: FieldInfo)
    requires Conflict(f, newf)
    ensures Rest([f] + fields, newf) == Rest(fields, newf)
  {
    hide Conflict;
    assert ([f] + fields)[1..] == fields;
  }

  lemma {:induction false} RestIsApart(fields: seq<FieldInfo>, newf: FieldInfo)
    ensures Apart(fields) ==> Apart(Rest(fields, newf)) && Apart(Rest(fields, newf) + [newf])
  {
    hide Conflict, Apart;
    InRest(fields, newf);
    if fields == [] {
      ApartMore([], newf);
    } else if Apart(fields) {
      var rest := fields[1..];
      assert fields == [fields[0]] + rest;
      ApartRest(fields);
      RestIsApart(rest, newf);
      InRest(rest, newf);
      ApartFirst(fields[0], Rest(rest, newf));
      var kept := Rest(rest, newf);
      assert Rest(fields, newf) == if Conflict(fields[0], newf) then kept else [fields[0]] + kept;
      ApartMore(Rest(fields, newf), newf);
    }
  }

  lemma ApartRest(fields: seq<FieldInfo>)
    requires fields != [] && Apart(fields)
    ensures Apart(fields[1..]) && forall f <- fields[1..] :: !Conflict(fields[0], f)
  {
    hide Conflict;
  }

  lemma ApartFirst(f: FieldInfo, fields: seq<FieldInfo>)
    requires Apart(fields) && forall g <- fields :: !Conflict(f, g)
    ensures Apart([f] + fields)
  {
    hide Conflict;
    assert forall k :: 0 <= k < |fields| ==> fields[k] in fields;
  }

  lemma ApartMore(fields: seq<FieldInfo>, f: FieldInfo)
    ensures Apart([]) && (Apart(fields) && (forall g <- fields :: !Conflict(g, f)) ==> Apart(fields + [f]))
  {
    hide Conflict;
    assert forall k :: 0 <= k < |fields| ==> fields[k] in fields;
  }

  // ---------------------------------------------------------------- reading an element

  datatype Step = Exact(field: nat) | Descend(parents: seq<string>) | Nothing

  /** The field is for elements, is in reach of these parents and in the element's namespace. */
  predicate Reached(f: FieldInfo, parents: seq<string>, space: string) {
    f.flags.element && parents <= f.parents && (f.xmlns == "" || f.xmlns == space)
  }

  predicate IsExact(f: FieldInfo, parents: seq<string>, space: string, local: string) {
    Reached(f, parents, space) && |f.parents| == |parents| && f.name == local
  }

  predicate LeadsOn(f: FieldInfo, parents: seq<string>, space: string, local: string) {
    Reached(f, parents, space) && |f.parents| > |parents| && f.parents[|parents|] == local
  }

  predicate NotConcerned(f: FieldInfo, parents: seq<string>, space: string, local: string) {
    !IsExact(f, parents, space, local) && !LeadsOn(f, parents, space, local)
  }

  /** The choice unmarshalPath makes for an element: the first field in the table that is either
      for the element itself or for something inside it. */
  method ChooseStep(fields: seq<FieldInfo>, parents: seq<string>, space: string, local: string) returns (s: Step)
    ensures match s
      case Exact(i) =>
        && i < |fields| && IsExact(fields[i], parents, space, local)
        && forall k :: 0 <= k < i ==> NotConcerned(fields[k], parents, space, local)
      case Descend(ps) =>
        && ps == parents + [local]
        && exists i ::
             && 0 <= i < |fields| && LeadsOn(fields[i], parents, space, local)
             && forall k :: 0 <= k < i ==> NotConcerned(fields[k], parents, space, local)
      case Nothing => forall f <- fields :: NotConcerned(f, parents, space, local)
  {
    for i := 0 to |fields|
      invariant forall k :: 0 <= k < i ==> NotConcerned(fields[k], parents, space, local)
    {
      var f := fields[i];
      if !f.flags.element || |f.parents| < |parents| || (f.xmlns != "" && f.xmlns != space) {
        continue;
      }
      var same := SameParents(f, parents);
      if !same {
        continue;
      }
      if |f.parents| == |parents| && f.name == local {
        return Exact(i);
      }
      if |f.parents| > |parents| && f.parents[|parents|] == local {
        assert LeadsOn(fields[i], parents, space, local);
        return Descend(f.parents[..|parents| + 1]);
      }
    }
    s := Nothing;
  }

  method SameParents(f: FieldInfo, parents: seq<string>) returns (same: bool)
    requires |parents| <= |f.parents|
    ensures same <==> parents <= f.parents
  {
    for j := 0 to |parents|
      invariant parents[..j] == f.parents[..j]
    {
      if parents[j] != f.parents[j] {
        return false;
      }
    }
    same := true;
  }

  /** In a table without conflicts no two fields of one mode are both concerned with an element,
      unless both lie inside it. So whichever field comes first, the choice is the same. */
  lemma OneFieldPerElement(fields: seq<FieldInfo>, i: nat, j: nat, parents: seq<string>, space: string, local: string)
    requires Apart(fields) && i < |fields| && j < |fields| && i != j && Mode(fields[i]) == Mode(fields[j])
    requires IsExact(fields[i], parents, space, local)
    ensures !IsExact(fields[j], parents, space, local) && !LeadsOn(fields[j], parents, space, local)
  {
    var f, g := fields[i], fields[j];
    assert !Conflict(f, g) && !Conflict(g, f) by {
      if i < j {
        assert !Conflict(fields[i], fields[j]);
        assert Conflict(f, g) <==> Conflict(g, f);
      } else {
        assert !Conflict(fields[j], fields[i]);
        assert Conflict(f, g) <==> Conflict(g, f);
      }
    }
    PathsInConflict(f, g);
  }

  /** Two fields for elements are in conflict exactly if they are of one mode, apart from leaving out what
      is empty, and there is an element for which one of them is and with which the other is concerned. */
  lemma ConflictIff(f: FieldInfo, g: FieldInfo)
    requires f.flags.element && g.flags.element
    ensures Conflict(f, g) <==>
      && f.flags.(omitEmpty := g.flags.omitEmpty) == g.flags
      && exists parents, space, local ::
           || (IsExact(f, parents, space, local) && !NotConcerned(g, parents, space, local))
           || (IsExact(g, parents, space, local) && !NotConcerned(f, parents, space, local))
  {
    PathsInConflict(f, g);
    PathsInConflict(g, f);
    var space := if f.xmlns != "" then f.xmlns else g.xmlns;
    if Conflict(f, g) {
      var (shorter, longer) := if |f.parents| <= |g.parents| then (f, g) else (g, f);
      assert IsExact(shorter, shorter.parents, space, shorter.name);
      assert !NotConcerned(longer, shorter.parents, space, shorter.name);
    }
    if parents, space, local :|
      || (IsExact(f, parents, space, local) && !NotConcerned(g, parents, space, local))
      || (IsExact(g, parents, space, local) && !NotConcerned(f, parents, space, local)) {
      var (exact, other) := if IsExact(f, parents, space, local) && !NotConcerned(g, parents, space, local)
                            then (f, g) else (g, f);
      assert parents <= exact.parents && parents == exact.parents;
      assert |other.parents| > |parents| ==> other.parents[..|parents|] == parents;
    }
  }

  /** For different modes that is not so: a field that takes any element also takes the one that
      has its name, and comes before or after another field's way into that element. */
  lemma ModesMayMeet(local: string)
    ensures var elementMode := Flags(true, false, false, false, false, false, false);
      var f := FieldInfo([0], local, "", elementMode.(anyElement := true), []);
      var g := FieldInfo([1], "x", "", elementMode, [local]);
      Apart([f, g]) && IsExact(f, [], "", local) && LeadsOn(g, [], "", local)
  {
  }
}
