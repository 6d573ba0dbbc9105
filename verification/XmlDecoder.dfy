/** The decoder with its stack as linked records, which are kept for reuse on a second list when
    they are popped. The two lists stay acyclic and have no record in common, and the decoder
    goes through the states XmlReading describes. */
module XmlDecoder {
  import opened Options
  import opened XmlMarkup
  import opened XmlNames
  import opened XmlReading

  datatype Kind = StkStart | StkNs | StkEOF

  class Record {
    var next: Record?
    var kind: Kind
    var name: Name
    var ok: bool

    constructor ()
    {
      next, kind, name, ok := null, StkStart, Name("", ""), false;
    }

    function Frame(): Frame
      reads this`kind, this`name, this`ok
    {
      MakeFrame(kind, name, ok)
    }
  }

  function MakeFrame(kind: Kind, name: Name, ok: bool): Frame {
    match kind
    case StkStart => StartF(name)
    case StkNs => NsF(name.local, name.space, ok)
    case StkEOF => EofF
  }

  /** The records, in this order, lead from one record to another. */
  ghost predicate Linked(from: Record?, rs: seq<Record>, to: Record?)
    reads rs`next
  {
    if rs == [] then from == to else from == rs[0] && Linked(rs[0].next, rs[1..], to)
  }

  lemma {:induction false} LinkedMore(from: Record?, rs: seq<Record>, middle: Record?, ss: seq<Record>, to: Record?)
    requires Linked(from, rs, middle) && Linked(middle, ss, to)
    ensures Linked(from, rs + ss, to)
  {
    if rs == [] {
      assert rs + ss == ss;
    } else {
      assert (rs + ss)[1..] == rs[1..] + ss;
      LinkedMore(rs[0].next, rs[1..], middle, ss, to);
    }
  }

  lemma {:induction false} LinkedParts(from: Record?, rs: seq<Record>, to: Record?, i: nat)
    requires Linked(from, rs, to) && i < |rs|
    ensures Linked(from, rs[..i], rs[i]) && Linked(rs[i].next, rs[i + 1..], to)
  {
    if i == 0 {
    } else {
      LinkedParts(rs[0].next, rs[1..], to, i - 1);
      assert rs[1..][..i - 1] == rs[..i][1..] && rs[1..][i..] == rs[i + 1..];
    }
  }

  /** No record is on a list twice or on both. */
  ghost predicate Separate(rs: seq<Record>, ss: seq<Record>) {
    && (forall i, j :: 0 <= i < j < |rs| ==> rs[i] != rs[j])
    && (forall i, j :: 0 <= i < j < |ss| ==> ss[i] != ss[j])
    && (forall r <- rs :: r !in ss)
  }

  lemma InsertSeparate(rs: seq<Record>, r: Record, ss: seq<Record>, ts: seq<Record>)
    requires Separate(rs + ss, ts) && r !in rs && r !in ss && r !in ts
    ensures Separate(rs + ([r] + ss), ts)
  {
    var n := |rs|;
    var before, after := rs + ss, rs + ([r] + ss);
    forall i, j | 0 <= i < j < |after|
      ensures after[i] != after[j]
    {
      assert i != n ==> after[i] == before[if i < n then i else i - 1];
      assert j != n ==> after[j] == before[if j < n then j else j - 1];
    }
    forall q <- after
      ensures q !in ts
    {
      assert q == r || q in before;
    }
  }

  lemma PushSeparate(r: Record, rs: seq<Record>, ss: seq<Record>)
    requires Separate(rs, ss) && r !in rs && r !in ss
    ensures Separate([r] + rs, ss) && Separate(rs, [r] + ss)
  {
  }

  lemma PopSeparate(rs: seq<Record>, ss: seq<Record>)
    requires Separate(rs, ss)
    ensures rs != [] ==> Separate(rs[1..], ss) && rs[0] !in rs[1..] && rs[0] !in ss
    ensures ss != [] ==> Separate(rs, ss[1..]) && ss[0] !in ss[1..] && ss[0] !in rs
  {
  }

  lemma MiddleSeparate(rs: seq<Record>, i: nat, ss: seq<Record>)
    requires Separate(rs, ss) && i < |rs|
    ensures rs[i] !in rs[..i] && rs[i] !in rs[i + 1..] && rs[i] !in ss
  {
  }

  ghost predicate Hold(rs: seq<Record>, fs: seq<Frame>)
    reads rs`kind, rs`name, rs`ok
  {
    if rs == [] then fs == []
    else fs != [] && rs[0].Frame() == fs[0] && Hold(rs[1..], fs[1..])
  }

  lemma {:induction false} HoldMore(rs: seq<Record>, fs: seq<Frame>, ss: seq<Record>, gs: seq<Frame>)
    requires Hold(rs, fs) && Hold(ss, gs)
    ensures Hold(rs + ss, fs + gs)
  {
    if rs == [] {
      assert rs + ss == ss && fs + gs == gs;
    } else {
      assert (rs + ss)[1..] == rs[1..] + ss && (fs + gs)[1..] == fs[1..] + gs;
      HoldMore(rs[1..], fs[1..], ss, gs);
    }
  }

  lemma {:induction false} HoldParts(rs: seq<Record>, fs: seq<Frame>, i: nat)
    requires Hold(rs, fs) && i <= |rs|
    ensures |fs| == |rs| && Hold(rs[..i], fs[..i]) && Hold(rs[i..], fs[i..])
    ensures i < |rs| ==> rs[i].Frame() == fs[i]
  {
    if i == 0 {
      assert rs[0..] == rs && fs[0..] == fs;
      if rs != [] {
        HoldParts(rs[1..], fs[1..], 0);
      }
    } else {
      HoldParts(rs[1..], fs[1..], i - 1);
      assert rs[1..][..i - 1] == rs[..i][1..] && rs[1..][i - 1..] == rs[i..];
      assert fs[1..][..i - 1] == fs[..i][1..] && fs[1..][i - 1..] == fs[i..];
    }
  }

  /** Where pushEOF puts its fence, when start is the innermost element and the records behind
      it up to end are its own. */
  lemma {:induction false} FenceAt(stack: seq<Frame>, start: nat, end: nat)
    requires start <= end < |stack| && stack[start].StartF?
    requires forall k :: 0 <= k < start ==> !stack[k].StartF?
    requires forall k :: start < k <= end ==> stack[k].NsF?
    requires end + 1 < |stack| ==> !stack[end + 1].NsF?
    ensures (exists f <- stack :: f.StartF?) && PushFence(stack) == stack[..end + 1] + [EofF] + stack[end + 1..]
  {
    assert stack[start] in stack;
    if start > 0 {
      FenceAt(stack[1..], start - 1, end - 1);
      assert [stack[0]] + (stack[1..][..end] + [EofF] + stack[1..][end..])
          == stack[..end + 1] + [EofF] + stack[end + 1..];
    } else {
      FenceBelow(stack[1..], end);
      assert [stack[0]] + (stack[1..][..end] + [EofF] + stack[1..][end..])
          == stack[..end + 1] + [EofF] + stack[end + 1..];
    }
  }

  lemma {:induction false} FenceBelow(stack: seq<Frame>, n: nat)
    requires n <= |stack| && (forall k :: 0 <= k < n ==> stack[k].NsF?) && (n < |stack| ==> !stack[n].NsF?)
    ensures FenceBelowNs(stack) == stack[..n] + [EofF] + stack[n..]
  {
    if n == 0 {
    } else {
      FenceBelow(stack[1..], n - 1);
      assert [stack[0]] + (stack[1..][..n - 1] + [EofF] + stack[1..][n - 1..]) == stack[..n] + [EofF] + stack[n..];
    }
  }

  class Decoder {
    const tables: Tables
    const defaultSpace: string
    var input: string
    var toClose: Option<Name>
    var err: Option<DecodeError>
    var ns: Namespaces
    var stk: Record?
    var free: Record?
    ghost var stack: seq<Record>
    ghost var spare: seq<Record>
    ghost var frames: seq<Frame>
    ghost var repr: set<Record>

    /** Neither list has a cycle, and no record is on both. */
    ghost predicate Lists()
      reads this`stk, this`free, this`stack, this`spare, stack`next, spare`next
    {
      Linked(stk, stack, null) && Linked(free, spare, null) && Separate(stack, spare)
    }

    ghost predicate Valid()
      reads this`stk, this`free, this`stack, this`spare, this`frames, this`repr, stack, spare`next
    {
      Lists() && Hold(stack, frames) && Owned()
    }

    ghost predicate Owned()
      reads this`stack, this`spare, this`repr
    {
      (forall r <- stack :: r in repr) && forall r <- spare :: r in repr
    }

    ghost function State(): Decoding
      reads this
    {
      Decoding(tables, input, toClose, err, ns, frames)
    }

    constructor (tables: Tables, input: string, defaultSpace: string)
      ensures Valid() && State() == Fresh(tables, input) && repr == {} && this.defaultSpace == defaultSpace
    {
      this.tables, this.defaultSpace := tables, defaultSpace;
      this.input, toClose, err, ns := input, None, None, map[];
      stk, free, stack, spare, frames, repr := null, null, [], [], [], {};
    }

    /** A record off the free list, or a new one. */
    method Take() returns (s: Record)
      requires Lists()
      modifies this`free, this`spare
      ensures Lists() && s !in stack && s !in spare
      ensures if old(spare) == [] then fresh(s) && spare == [] else s == old(spare[0]) && spare == old(spare[1..])
    {
      PopSeparate(stack, spare);
      hide Separate;
      if free != null {
        s := free;
        free := s.next;
        spare := spare[1..];
      } else {
        s := new Record();
      }
    }

    method Push(kind: Kind, name: Name, ok: bool)
      requires Valid()
      modifies this`stk, this`free, this`stack, this`spare, this`frames, this`repr, repr
      ensures Valid()
      ensures frames == [MakeFrame(kind, name, ok)] + old(frames)
      ensures fresh(repr - old(repr))
    {
      hide Separate, Linked, Hold;
      var s := Take();
      repr := repr + {s};
      PutOnTop(s, kind, name, ok);
      EnterStack(s, [MakeFrame(kind, name, ok)] + frames);
    }

    /** A record that leads to the stack becomes its top. */
    method EnterStack(s: Record, ghost fs: seq<Frame>)
      requires Owned() && Separate(stack, spare) && s !in stack && s !in spare && s in repr
      requires Linked(s, [s] + stack, null) && Linked(free, spare, null) && Hold([s] + stack, fs)
      modifies this`stk, this`stack, this`frames
      ensures Valid() && frames == fs && repr == old(repr) && stack == [s] + old(stack)
    {
      hide Linked, Hold;
      PushSeparate(s, stack, spare);
      hide Separate;
      stk := s;
      stack := [s] + stack;
      frames := fs;
    }

    method PutOnTop(s: Record, kind: Kind, name: Name, ok: bool)
      requires Linked(stk, stack, null) && Hold(stack, frames) && Linked(free, spare, null)
      requires s !in stack && s !in spare
      modifies s
      ensures Linked(s, [s] + stack, null) && Linked(free, spare, null)
      ensures Hold([s] + stack, [MakeFrame(kind, name, ok)] + frames)
    {
      s.next := stk;
      s.kind := kind;
      s.name := name;
      s.ok := ok;
      assert ([s] + stack)[1..] == stack && ([MakeFrame(kind, name, ok)] + frames)[1..] == frames;
    }

    method Pop()
      requires Valid() && stack != []
      modifies this`stk, this`free, this`stack, this`spare, this`frames, repr`next
      ensures Valid() && frames == old(frames[1..])
      ensures repr == old(repr)
    {
      PopSeparate(stack, spare);
      PushSeparate(stack[0], stack[1..], spare);
      hide Separate;
      var s := stk;
      stk := s.next;
      Discard(s, stack[1..]);
      free := s;
      spare := [s] + spare;
      stack := stack[1..];
      frames := frames[1..];
    }

    method Discard(s: Record, ghost rest: seq<Record>)
      requires Linked(stk, rest, null) && Linked(free, spare, null) && s !in rest && s !in spare
      modifies s`next
      ensures Linked(stk, rest, null) && Linked(s, [s] + spare, null)
    {
      s.next := free;
      assert ([s] + spare)[1..] == spare;
    }

    /** Walks down to the innermost element and over the records that belong to it. */
    method EndOfElement() returns (start: Record, ghost i: nat)
      requires Valid() && exists f <- frames :: f.StartF?
      ensures i < |stack| == |frames| && start == stack[i]
      ensures PushFence(frames) == frames[..i] + ([frames[i], EofF] + frames[i + 1..])
    {
      hide Valid, PushFence;
      ghost var found :| 0 <= found < |frames| && frames[found].StartF?;
      OnStack(0);
      start, i := stk, 0;
      while start.kind != StkStart
        invariant 0 <= i <= found < |stack| == |frames| && start == stack[i]
        invariant forall k :: 0 <= k < i ==> !frames[k].StartF?
        decreases |stack| - i
      {
        OnStack(i);
        start, i := start.next, i + 1;
      }
      OnStack(i);
      ghost var first := i;
      while start.next != null && start.next.kind == StkNs
        invariant first <= i < |stack| && start == stack[i]
        invariant forall k :: first < k <= i ==> frames[k].NsF?
        decreases |stack| - i
      {
        OnStack(i);
        OnStack(i + 1);
        start, i := start.next, i + 1;
      }
      OnStack(i);
      if i + 1 < |stack| {
        OnStack(i + 1);
      }
      FenceAt(frames, first, i);
      assert frames[..i + 1] + [EofF] + frames[i + 1..] == frames[..i] + ([frames[i], EofF] + frames[i + 1..]);
    }

    /** A record on the stack, its frame and the record behind it. */
    lemma OnStack(i: nat)
      requires Valid() && (i < |stack| || i < |frames|)
      ensures i < |stack| == |frames| && stk == stack[0]
      ensures stack[i].Frame() == frames[i]
      ensures stack[i].next == if i + 1 < |stack| then stack[i + 1] else null
    {
      HoldParts(stack, frames, 0);
      LinkedParts(stk, stack, null, i);
      HoldParts(stack, frames, i);
    }

    method PushEOF()
      requires Valid() && exists f <- frames :: f.StartF?
      modifies this`free, this`stack, this`spare, this`frames, this`repr, repr
      ensures Valid() && fresh(repr - old(repr)) && frames == PushFence(old(frames))
    {
      var start, i := EndOfElement();
      hide Separate, PushFence, Hold, Linked;
      var s := Take();
      repr := repr + {s};
      Insert(s, start, i);
    }

    method Insert(s: Record, start: Record, ghost i: nat)
      requires Valid() && i < |stack| == |frames| && start == stack[i]
      requires s !in stack && s !in spare && s in repr
      modifies this`stack, this`frames, s, start`next
      ensures Valid() && frames == old(frames[..i] + ([frames[i], EofF] + frames[i + 1..]))
    {
      FenceSeparate(s, i);
      hide Separate, Hold, Linked;
      PutBehind(s, start, i);
      stack := stack[..i] + ([start, s] + stack[i + 1..]);
      frames := frames[..i] + ([frames[i], EofF] + frames[i + 1..]);
    }

    lemma FenceSeparate(s: Record, i: nat)
      requires Separate(stack, spare) && i < |stack| && s !in stack && s !in spare
      ensures Separate(stack[..i] + ([stack[i], s] + stack[i + 1..]), spare)
      ensures stack[i] !in stack[..i] && stack[i] !in stack[i + 1..] && stack[i] !in spare
      ensures forall r <- stack[..i] + ([stack[i], s] + stack[i + 1..]) :: r in stack || r == s
    {
      MiddleSeparate(stack, i, spare);
      var above, below := stack[..i], stack[i + 1..];
      assert stack == (above + [stack[i]]) + below;
      InsertSeparate(above + [stack[i]], s, below, spare);
      assert (above + [stack[i]]) + ([s] + below) == above + ([stack[i], s] + below);
    }

    method PutBehind(s: Record, start: Record, ghost i: nat)
      requires Linked(stk, stack, null) && Linked(free, spare, null) && Hold(stack, frames)
      requires i < |stack| == |frames| && start == stack[i] && s !in stack && s !in spare
      requires start !in stack[..i] && start !in stack[i + 1..] && start !in spare
      modifies s, start`next
      ensures Linked(stk, stack[..i] + ([start, s] + stack[i + 1..]), null) && Linked(free, spare, null)
      ensures Hold(stack[..i] + ([start, s] + stack[i + 1..]), frames[..i] + ([frames[i], EofF] + frames[i + 1..]))
    {
      hide Linked, Hold;
      ghost var above, below := stack[..i], stack[i + 1..];
      LinkedParts(stk, stack, null, i);
      HoldParts(stack, frames, i);
      HoldParts(stack, frames, i + 1);
      assert s !in above && s !in below && s != start;
      s.kind := StkEOF;
      s.next := start.next;
      start.next := s;
      LinkTwo(start, s, below);
      HoldTwo(start, s, below, frames[i], frames[i + 1..]);
      LinkedMore(stk, above, start, [start, s] + below, null);
      HoldMore(above, frames[..i], [start, s] + below, [frames[i], EofF] + frames[i + 1..]);
    }

    method PopEOF() returns (ended: bool)
      requires Valid()
      modifies this`stk, this`free, this`stack, this`spare, this`frames, repr`next
      ensures Valid() && fresh(repr - old(repr)) && (State(), ended) == PopFence(old(State()))
    {
      TopOfStack();
      if stk == null || stk.kind != StkEOF {
        return false;
      }
      Pop();
      ended := true;
    }

    lemma TopOfStack()
      requires Valid()
      ensures frames == [] <==> stk == null
      ensures frames != [] ==> stk.Frame() == frames[0] && stack != []
    {
    }

    method PushElement(name: Name)
      requires Valid()
      modifies this`stk, this`free, this`stack, this`spare, this`frames, this`repr, repr
      ensures Valid() && fresh(repr - old(repr)) && frames == [StartF(name)] + old(frames)
    {
      Push(StkStart, name, false);
    }

    method PushNs(local: string, url: string, ok: bool)
      requires Valid()
      modifies this`stk, this`free, this`stack, this`spare, this`frames, this`repr, repr
      ensures Valid() && fresh(repr - old(repr)) && frames == [NsF(local, url, ok)] + old(frames)
    {
      Push(StkNs, Name(url, local), ok);
    }

    /** Pops the element and then the translations it had replaced. */
    method PopElement(name: Name) returns (ok: bool)
      requires Valid()
      modifies this`err, this`ns, this`stk, this`free, this`stack, this`spare, this`frames, repr`next
      ensures Valid() && fresh(repr - old(repr)) && (State(), ok) == CloseElement(old(State()), name)
    {
      hide Valid;
      TopOfStack();
      if stk == null {
        err := Some(SyntaxError);
        return false;
      }
      var s := stk;
      Pop();
      if s.kind != StkStart || s.name != name {
        err := Some(SyntaxError);
        return false;
      }
      TopOfStack();
      while stk != null && stk.kind != StkStart && stk.kind != StkEOF
        invariant Valid() && fresh(repr - old(repr))
        invariant Unbind(ns, frames) == Unbind(old(ns), old(frames[1..]))
        invariant frames == [] <==> stk == null
        invariant frames != [] ==> stk.Frame() == frames[0] && stack != []
        invariant input == old(input) && toClose == old(toClose) && err == old(err)
        decreases |frames|
      {
        s := stk;
        Pop();
        if s.ok {
          ns := ns[s.name.local := s.name.space];
        } else {
          ns := ns - {s.name.local};
        }
        TopOfStack();
      }
      ok := true;
    }

    method RawToken() returns (t: Option<Token>)
      modifies this`input, this`toClose, this`err
      ensures (State(), t) == XmlReading.RawToken(old(State()))
    {
      if err.Some? {
        return None;
      }
      if toClose.Some? {
        t := Some(EndElement(toClose.value));
        toClose := None;
        return;
      }
      if input == "" {
        err := Some(EndOfInput);
        return None;
      }
      var scanned := ReadMarkup(tables, input);
      if scanned.None? {
        err := Some(SyntaxError);
        return None;
      }
      input := scanned.value.rest;
      if scanned.value.empty {
        toClose := Some(scanned.value.token.name);
      }
      t := Some(scanned.value.token);
    }

    /** A declaration among the attributes replaces what its prefix stood for. */
    method Declare(local: string, url: string)
      requires Valid()
      modifies this`ns, this`stk, this`free, this`stack, this`spare, this`frames, this`repr, repr
      ensures Valid() && fresh(repr - old(repr)) && State() == Bind(old(State()), local, url)
    {
      PushNs(local, Lookup(ns, local), local in ns);
      ns := ns[local := url];
    }

    method DeclareAll(attrs: seq<Attr>)
      requires Valid()
      modifies this`ns, this`stk, this`free, this`stack, this`spare, this`frames, this`repr, repr
      ensures Valid() && fresh(repr - old(repr)) && State() == BindAll(old(State()), attrs)
    {
      hide Valid, Bind;
      for i := 0 to |attrs|
        invariant Valid() && fresh(repr - old(repr))
        invariant BindAll(State(), attrs[i..]) == BindAll(old(State()), attrs)
      {
        var name := attrs[i].name;
        assert attrs[i..][1..] == attrs[i + 1..];
        if name.space == "xmlns" {
          Declare(name.local, attrs[i].value);
        }
        if name.space == "" && name.local == "xmlns" {
          Declare("", attrs[i].value);
        }
      }
    }

    method TranslateAttrs(attrs: seq<Attr>) returns (r: seq<Attr>)
      ensures r == TranslateAll(ns, defaultSpace, attrs)
    {
      hide Translate;
      r := [];
      for i := 0 to |attrs|
        invariant TranslateAll(ns, defaultSpace, attrs) == r + TranslateAll(ns, defaultSpace, attrs[i..])
      {
        assert attrs[i..][1..] == attrs[i + 1..];
        r := r + [attrs[i].(name := Translate(ns, defaultSpace, attrs[i].name, false))];
      }
    }

    method Token() returns (t: Option<Token>)
      requires Valid()
      modifies this, repr
      ensures Valid() && fresh(repr - old(repr)) && (State(), t) == NextToken(old(State()), defaultSpace)
    {
      hide Valid, ScanToken, Translate, TranslateAll, BindAll, XmlReading.RawToken;
      TopOfStack();
      if stk != null && stk.kind == StkEOF {
        return None;
      }
      t := RawToken();
      if t.None? {
        return;
      }
      match t.value
      case StartElement(name, attrs) =>
        DeclareAll(attrs);
        var element := Translate(ns, defaultSpace, name, true);
        var translated := TranslateAttrs(attrs);
        PushElement(element);
        t := Some(StartElement(element, translated));
      case EndElement(name) =>
        var element := Translate(ns, defaultSpace, name, true);
        var ok := PopElement(element);
        t := if ok then Some(EndElement(element)) else None;
      case _ =>
    }

    /** Skip calls itself for the elements inside. */
    method Skip() returns (ok: bool)
      requires Valid()
      modifies this, repr
      ensures Valid() && fresh(repr - old(repr))
      ensures State() == SkipElement(old(State()), defaultSpace).after
      ensures ok == SkipElement(old(State()), defaultSpace).ok
      decreases Left(State())
    {
      hide Valid, NextToken;
      while true
        invariant Valid() && fresh(repr - old(repr)) && Left(State()) <= Left(old(State()))
        invariant SkipElement(State(), defaultSpace).after == SkipElement(old(State()), defaultSpace).after
        invariant SkipElement(State(), defaultSpace).ok == SkipElement(old(State()), defaultSpace).ok
        decreases Left(State())
      {
        TokenTakesInput(State(), defaultSpace);
        var t := Token();
        if t.None? {
          return false;
        }
        match t.value
        case EndElement(_) => return true;
        case StartElement(_, _) =>
          ok := Skip();
          if !ok {
            return;
          }
        case _ =>
      }
    }

    /** unmarshalInterface, around the calls its method makes. */
    method UnmarshalInterface(uses: seq<Use>, fails: bool) returns (ok: bool)
      requires Valid() && frames != [] && frames[0].StartF?
      modifies this, repr
      ensures Valid() && fresh(repr - old(repr))
      ensures State() == UnmarshalElement(old(State()), defaultSpace, uses, fails).after
      ensures ok == UnmarshalElement(old(State()), defaultSpace, uses, fails).ok
      decreases uses, 1
    {
      hide Valid, PushFence;
      PushEOF();
      ok := MakeCalls(uses);
      var ended := PopEOF();
      ok := ok && !fails && ended;
    }

    method MakeCalls(uses: seq<Use>) returns (ok: bool)
      requires Valid()
      modifies this, repr
      ensures Valid() && fresh(repr - old(repr))
      ensures State() == UseAll(old(State()), defaultSpace, uses).after
      ensures ok == UseAll(old(State()), defaultSpace, uses).ok
      decreases uses, 0
    {
      hide Valid, UnmarshalElement, SkipElement, NextToken;
      ok := true;
      for i := 0 to |uses|
        invariant Valid() && fresh(repr - old(repr))
        invariant UseAll(State(), defaultSpace, uses[i..]).after == UseAll(old(State()), defaultSpace, uses).after
        invariant UseAll(State(), defaultSpace, uses[i..]).ok == UseAll(old(State()), defaultSpace, uses).ok
      {
        assert uses[i..][1..] == uses[i + 1..];
        match uses[i]
        case ReadToken(heed) =>
          var t := Token();
          ok := t.Some? || !heed;
          if !ok {
            return;
          }
        case SkipRest(heed) =>
          var skipped := Skip();
          ok := skipped || !heed;
          if !ok {
            return;
          }
        case Unmarshal(inner, fails) =>
          TopOfStack();
          if stk != null && stk.kind == StkStart {
            ok := UnmarshalInterface(inner, fails);
            if !ok {
              return;
            }
          }
      }
    }
  }

  lemma LinkTwo(start: Record, s: Record, below: seq<Record>)
    requires start.next == s && Linked(s.next, below, null)
    ensures Linked(start, [start, s] + below, null)
  {
    assert ([start, s] + below)[1..] == [s] + below && ([s] + below)[1..] == below;
  }

  lemma HoldTwo(start: Record, s: Record, below: seq<Record>, f: Frame, fs: seq<Frame>)
    requires Hold(below, fs) && start.Frame() == f && s.kind == StkEOF
    ensures Hold([start, s] + below, [f, EofF] + fs)
  {
    assert ([start, s] + below)[1..] == [s] + below && ([s] + below)[1..] == below;
    assert ([f, EofF] + fs)[1..] == [EofF] + fs && ([EofF] + fs)[1..] == fs;
  }
}
