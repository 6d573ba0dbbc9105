/** The server side of a chunked upload: a request for a chunk is checked and its body appended
    to a local file. Whatever requests arrive, in whatever order and however often, and wherever
    they break off, the file is a beginning of the source. */
module ChunkStore {
  import opened ChunkGroup
  import opened ChunkPlan
  import opened Options

  /** What happens to one request: whether the file can be opened, truncated and opened again,
      how many bytes of the body arrive, and whether the steps after the upload fail. */
  datatype Fate = Fate(opens: bool, truncates: bool, reopens: bool, arrives: nat, hooksFail: bool)

  type Stored = Option<seq<byte>>

  datatype Mode = Mode(overwrite: bool, append: bool)

  function Zeros(n: nat): seq<byte> {
    seq(n, _ => 0)
  }

  // ---------------------------------------------------------------- the local file

  /** Truncating to more than the size fills up with zeros. */
  function Truncated(stored: Stored, size: nat, fate: Fate): (Stored, bool) {
    if stored.None? || !fate.truncates then (stored, false)
    else
      var s := stored.value;
      (Some(if size <= |s| then s[..size] else s + Zeros(size - |s|)), true)
  }

  /** Put. Where the file reaches beyond the place of the chunk it is cut back, but then the
      body is copied to the handle that was closed before, so only an empty body succeeds. */
  function PutResult(stored: Stored, mode: Mode, start: nat, body: seq<byte>, fate: Fate): (Stored, bool) {
    if (!mode.overwrite && stored.Some?) || !fate.opens then (stored, false)
    else
      var was := if stored.None? || !mode.append then [] else stored.value;
      var arrived := if fate.arrives < |body| then body[..fate.arrives] else body;
      if mode.append && |was| < start then (Some(was), false)
      else if mode.append && |was| > start then
        var (cut, ok) := Truncated(Some(was), start, fate);
        (cut, ok && fate.reopens && body == [])
      else (Some(was + arrived), fate.arrives >= |body|)
  }

  /** What truncating promises: the size asked for, the bytes up to there that there were, and zeros
      behind them; or nothing is changed. */
  predicate Cut(was: Stored, size: nat, fate: Fate, now: Stored, ok: bool) {
    && (ok <==> was.Some? && fate.truncates)
    && (ok ==>
          && now.Some? && |now.value| == size
          && forall i :: 0 <= i < size ==> now.value[i] == if i < |was.value| then was.value[i] else 0)
    && (!ok ==> now == was)
  }

  /** What putting promises. A file that must not be replaced, or cannot be opened, stays as it is.
      Without append it is then what arrived of the body, and nothing of what it was. */
  predicate Replaced(was: Stored, mode: Mode, body: seq<byte>, fate: Fate, now: Stored, ok: bool) {
    var writes := (mode.overwrite || was.None?) && fate.opens;
    && (ok <==> writes && fate.arrives >= |body|)
    && (ok ==> now == Some(body))
    && (!writes ==> now == was)
    && (writes && !ok ==> now == Some(body[..fate.arrives]))
  }

  /** With append the body goes behind the bytes that there were, if these end where it begins. If they
      end before, nothing is written; if they go beyond, they are cut back to there and only an empty
      body succeeds. */
  predicate Appended(was: Stored, mode: Mode, start: nat, body: seq<byte>, fate: Fate, now: Stored, ok: bool) {
    var writes := (mode.overwrite || was.None?) && fate.opens;
    var bytes := if was.Some? then was.value else [];
    && (ok <==>
          && writes
          && if |bytes| > start then fate.truncates && fate.reopens && body == []
             else |bytes| == start && fate.arrives >= |body|)
    && (!writes ==> now == was)
    && (writes && |bytes| < start ==> now == Some(bytes))
    && (writes && |bytes| == start ==>
          && now.Some? && |now.value| == start + Min(fate.arrives, |body|)
          && bytes <= now.value && now.value <= bytes + body)
    && (writes && |bytes| > start ==> now == Some(if fate.truncates then bytes[..start] else bytes))
  }

  function Min(a: nat, b: nat): nat {
    if a < b then a else b
  }

  lemma TruncateLaw(stored: Stored, size: nat, fate: Fate)
    ensures var (now, ok) := Truncated(stored, size, fate); Cut(stored, size, fate, now, ok)
  {
  }

  lemma PutLaw(stored: Stored, mode: Mode, start: nat, body: seq<byte>, fate: Fate)
    ensures var (now, ok) := PutResult(stored, mode, start, body, fate);
      if mode.append then Appended(stored, mode, start, body, fate, now, ok)
      else Replaced(stored, mode, body, fate, now, ok)
  {
    var bytes := if stored.Some? then stored.value else [];
    var arrived := if fate.arrives < |body| then body[..fate.arrives] else body;
    assert [] + arrived == arrived && bytes + arrived <= bytes + body;
    if stored.None? {
      assert bytes == [];
    }
  }

  class LocalFile {
    var stored: Stored

    constructor ()
      ensures stored == None
    {
      stored := None;
    }

    method Truncate(size: nat, fate: Fate) returns (ok: bool)
      modifies this
      ensures (stored, ok) == Truncated(old(stored), size, fate)
      ensures Cut(old(stored), size, fate, stored, ok)
    {
      TruncateLaw(stored, size, fate);
      if stored.None? || !fate.truncates {
        return false;
      }
      var s := stored.value;
      stored := Some(if size <= |s| then s[..size] else s + Zeros(size - |s|));
      ok := true;
    }

    method Put(mode: Mode, start: nat, body: seq<byte>, fate: Fate) returns (ok: bool)
      modifies this
      ensures (stored, ok) == PutResult(old(stored), mode, start, body, fate)
      ensures if mode.append then Appended(old(stored), mode, start, body, fate, stored, ok)
              else Replaced(old(stored), mode, body, fate, stored, ok)
    {
      PutLaw(stored, mode, start, body, fate);
      if !mode.overwrite && stored.Some? {
        return false;
      }
      if !fate.opens {
        return false;
      }
      if stored.None? || !mode.append {
        stored := Some([]);
      }
      var closed := false;
      if mode.append {
        if |stored.value| < start {
          return false;
        } else if |stored.value| > start {
          closed := true;
          var cut := Truncate(start, fate);
          if !cut || !fate.reopens {
            return false;
          }
        }
      }
      if closed {
        return body == [];
      }
      var arrived := if fate.arrives < |body| then body[..fate.arrives] else body;
      stored := Some(stored.value + arrived);
      ok := fate.arrives >= |body|;
    }
  }

  // ---------------------------------------------------------------- one request

  /** What a session fixes. Without overwriting, a file that exists is an error to the first chunk. */
  datatype Session = Session(size: uint64, chunkSize: uint64, overwrite: bool)

  datatype Request = Request(index: int, body: seq<byte>, fate: Fate)

  function Handled(session: Session, stored: Stored, r: Request): (Stored, bool) {
    if |r.body| != ServerLength(r.index, session.size, session.chunkSize) then (stored, false)
    else
      var start := ServerStart(r.index, session.chunkSize);
      var (put, ok) := PutResult(stored, Mode(session.overwrite || r.index > 0, true), start, r.body, r.fate);
      if ok && r.fate.hooksFail then (Truncated(put, start, r.fate).0, false) else (put, ok)
  }

  /** processChunkUpload, with the checks and the hooks that concern the stored file. */
  method HandleChunk(session: Session, file: LocalFile, r: Request) returns (ok: bool)
    modifies file
    ensures (file.stored, ok) == Handled(session, old(file.stored), r)
  {
    var isLastChunk := session.chunkSize == 0 || Unsigned(Unsigned(r.index + 1) * session.chunkSize) >= session.size;
    var expectedLength := session.chunkSize;
    if isLastChunk {
      expectedLength := Unsigned(session.size - Unsigned(Unsigned(r.index) * session.chunkSize));
    }
    if expectedLength != |r.body| {
      return false;
    }
    var mode := Mode(session.overwrite || r.index > 0, true);
    var start := Unsigned(session.chunkSize * Unsigned(r.index));
    ok := file.Put(mode, start, r.body, r.fate);
    if ok && r.fate.hooksFail {
      var _ := file.Truncate(start, r.fate);
      ok := false;
    }
  }

  // ---------------------------------------------------------------- what requests keep

  /** The request is for a chunk of the source and has its bytes. */
  predicate RightBytes(source: seq<byte>, chunkSize: uint64, r: Request)
    requires Sendable(source, chunkSize)
  {
    0 <= r.index < Chunks(source, chunkSize) && r.body == Part(source, chunkSize, r.index)
  }

  predicate AllRight(source: seq<byte>, chunkSize: uint64, rs: seq<Request>)
    requires Sendable(source, chunkSize)
  {
    forall i :: 0 <= i < |rs| ==> RightBytes(source, chunkSize, rs[i])
  }

  /** The file ends where this chunk ends. */
  predicate Reaches(stored: Stored, source: seq<byte>, chunkSize: uint64, index: int)
    requires Sendable(source, chunkSize)
  {
    0 <= index < Chunks(source, chunkSize) && stored == Some(source[..Covered(source, chunkSize, index + 1)])
  }

  predicate Beginning(stored: Stored, source: seq<byte>) {
    stored.Some? ==> stored.value <= source
  }

  function Size(stored: Stored): nat {
    if stored.Some? then |stored.value| else 0
  }

  lemma ServerKnows(source: seq<byte>, chunkSize: uint64, index: nat)
    requires Sendable(source, chunkSize) && index < Chunks(source, chunkSize)
    ensures var part := Part(source, chunkSize, index);
      var from, to := Covered(source, chunkSize, index), Covered(source, chunkSize, index + 1);
      && ServerStart(index, chunkSize) == from && ServerLength(index, |source|, chunkSize) == |part|
      && from <= to <= |source| && part == source[from..to] && (from < |source| ==> from < to)
  {
    ServerAgrees(|source|, chunkSize, index);
    ChunksTile(|source|, chunkSize, index);
    PartExtends(source, chunkSize, index);
    hide Num, Start, Length;
  }

  lemma BeginningsJoin(source: seq<byte>, was: seq<byte>, from: nat, to: nat, part: seq<byte>)
    requires was <= source && |was| == from <= to <= |source| && part <= source[from..to]
    ensures was + part <= source && (part == source[from..to] ==> was + part == source[..to])
  {
  }

  /** One request: the file stays a beginning of the source. It is accepted exactly if the file
      ends where the chunk begins, the first chunk is allowed to find a file, nothing fails and
      the whole body arrives; then the file ends where the chunk ends. */
  lemma RequestKeepsBeginning(session: Session, source: seq<byte>, stored: Stored, r: Request)
    requires Sendable(source, session.chunkSize) && session.size == |source|
    requires RightBytes(source, session.chunkSize, r) && Beginning(stored, source)
    ensures var (after, ok) := Handled(session, stored, r);
      var from, to := Covered(source, session.chunkSize, r.index), Covered(source, session.chunkSize, r.index + 1);
      && Beginning(after, source)
      && (ok <==>
            && (stored.None? || session.overwrite || r.index > 0) && Size(stored) == from
            && r.fate.opens && r.fate.arrives >= |r.body| && !r.fate.hooksFail)
      && (ok ==> Reaches(after, source, session.chunkSize, r.index) && Size(after) == to)
  {
    hide Part, Covered, Chunks, ServerStart, ServerLength, Zeros;
    ServerKnows(source, session.chunkSize, r.index);
    var from, to := Covered(source, session.chunkSize, r.index), Covered(source, session.chunkSize, r.index + 1);
    var was := if stored.None? then [] else stored.value;
    if |was| == from {
      var arrived := if r.fate.arrives < |r.body| then r.body[..r.fate.arrives] else r.body;
      BeginningsJoin(source, was, from, to, arrived);
    }
  }

  /** A request that is not accepted changes the file only if it writes: then a file that is too long
      is cut back to the place of the chunk, one that ends there keeps what arrived, and if a later
      step fails, what arrived is cut off again. */
  lemma RefusedRequest(session: Session, source: seq<byte>, stored: Stored, r: Request)
    requires Sendable(source, session.chunkSize) && session.size == |source|
    requires RightBytes(source, session.chunkSize, r) && Beginning(stored, source)
    requires !Handled(session, stored, r).1
    ensures var after := Handled(session, stored, r).0;
      var from, to := Covered(source, session.chunkSize, r.index), Covered(source, session.chunkSize, r.index + 1);
      var writes := (stored.None? || session.overwrite || r.index > 0) && r.fate.opens;
      && (!writes ==> after == stored)
      && (writes && Size(stored) < from ==> Size(after) == Size(stored))
      && (writes && Size(stored) > from ==> after == if r.fate.truncates then Some(source[..from]) else stored)
      && (writes && Size(stored) == from && r.fate.arrives < |r.body| ==> Size(after) == from + r.fate.arrives)
      && (writes && Size(stored) == from && r.fate.arrives >= |r.body| ==>
            after == Some(if r.fate.truncates then source[..from] else source[..to]))
  {
    hide Part, Covered, Chunks, ServerStart, ServerLength, Zeros, Sendable;
    ServerKnows(source, session.chunkSize, r.index);
    var from, to := Covered(source, session.chunkSize, r.index), Covered(source, session.chunkSize, r.index + 1);
    var was := if stored.None? then [] else stored.value;
    assert |was| >= from ==> was[..from] == source[..from];
    assert source[..to][..from] == source[..from];
    if |was| == from {
      assert was + r.body == source[..to];
    }
  }

  /** A request whose body is not as long as its chunk is refused, whatever it asks for. */
  lemma WrongLengthIsRefused(session: Session, source: seq<byte>, stored: Stored, r: Request)
    requires Sendable(source, session.chunkSize) && session.size == |source|
    requires 0 <= r.index < Chunks(source, session.chunkSize)
    requires |r.body| != |Part(source, session.chunkSize, r.index)|
    ensures Handled(session, stored, r) == (stored, false)
  {
    ServerKnows(source, session.chunkSize, r.index);
    hide Part, Chunks, Sendable, ServerLength;
  }

  /** An interrupted chunk takes two more requests: the first cuts off what had arrived, and
      fails, and the second is accepted. */
  lemma InterruptedChunk(session: Session, source: seq<byte>, stored: Stored, r: Request, retry: Request,
                         again: Request)
    requires Sendable(source, session.chunkSize) && session.size == |source| && Beginning(stored, source)
    requires RightBytes(source, session.chunkSize, r) && retry.index == again.index == r.index
    requires retry.body == again.body == r.body && (session.overwrite || r.index > 0)
    requires Size(stored) == Covered(source, session.chunkSize, r.index)
    requires r.fate.opens && 0 < r.fate.arrives < |r.body|
    requires retry.fate.opens && retry.fate.truncates
    requires again.fate.opens && again.fate.arrives >= |again.body| && !again.fate.hooksFail
    ensures var (one, ok1) := Handled(session, stored, r);
      var (two, ok2) := Handled(session, one, retry);
      var (three, ok3) := Handled(session, two, again);
      && !ok1 && !ok2 && ok3
      && two == Some(source[..Covered(source, session.chunkSize, r.index)])
      && Reaches(three, source, session.chunkSize, r.index)
  {
    hide Part, Covered, Chunks, ServerStart, ServerLength, Zeros;
    ServerKnows(source, session.chunkSize, r.index);
    var from := Covered(source, session.chunkSize, r.index);
    RequestKeepsBeginning(session, source, stored, r);
    var one := Handled(session, stored, r).0;
    assert one.Some? && |one.value| == from + r.fate.arrives;
    RequestKeepsBeginning(session, source, one, retry);
    var two := Handled(session, one, retry).0;
    assert two == Some(one.value[..from]) && one.value[..from] == source[..from];
    RequestKeepsBeginning(session, source, two, again);
  }

  /** Without overwriting, the first chunk of a file is never accepted once there is a file. */
  lemma FirstChunkIsNotRetried(session: Session, stored: Stored, r: Request)
    requires !session.overwrite && r.index <= 0 && stored.Some?
    ensures Handled(session, stored, r) == (stored, false)
  {
  }

  // ---------------------------------------------------------------- any requests

  /** The file after some requests, and which were accepted. */
  function HandledAll(session: Session, stored: Stored, rs: seq<Request>): (r: (Stored, seq<bool>))
    ensures |r.1| == |rs|
  {
    if rs == [] then (stored, [])
    else
      var (before, oks) := HandledAll(session, stored, rs[..|rs| - 1]);
      var (after, ok) := Handled(session, before, rs[|rs| - 1]);
      (after, oks + [ok])
  }

  method HandleAll(session: Session, file: LocalFile, rs: seq<Request>) returns (oks: seq<bool>)
    modifies file
    ensures (file.stored, oks) == HandledAll(session, old(file.stored), rs)
  {
    hide Handled;
    oks := [];
    for i := 0 to |rs|
      invariant (file.stored, oks) == HandledAll(session, old(file.stored), rs[..i])
    {
      assert rs[..i + 1][..i] == rs[..i];
      var ok := HandleChunk(session, file, rs[i]);
      oks := oks + [ok];
    }
    assert rs[..|rs|] == rs;
  }

  /** Whatever requests with the right bytes are made, in any order and number: the file is a
      beginning of the source, and all of it right after its last chunk is accepted. */
  lemma {:induction false} RequestsKeepBeginning(session: Session, source: seq<byte>, stored: Stored, rs: seq<Request>)
    requires Sendable(source, session.chunkSize) && session.size == |source| && Beginning(stored, source)
    requires AllRight(source, session.chunkSize, rs)
    ensures var (after, oks) := HandledAll(session, stored, rs);
      && Beginning(after, source)
      && (rs != [] && oks[|rs| - 1] ==> Reaches(after, source, session.chunkSize, rs[|rs| - 1].index))
      && (rs != [] && oks[|rs| - 1] && rs[|rs| - 1].index == Chunks(source, session.chunkSize) - 1 ==>
            after == Some(source))
  {
    hide Part, Covered, Chunks, Sendable, Handled;
    CoveredEnds(source, session.chunkSize);
    if rs == [] {
    } else {
      var last := |rs| - 1;
      RequestsKeepBeginning(session, source, stored, rs[..last]);
      RequestKeepsBeginning(session, source, HandledAll(session, stored, rs[..last]).0, rs[last]);
    }
  }

  // ---------------------------------------------------------------- from end to end

  /** The requests are the calls the client's processor got; what the client saw accepted was
      accepted, while an answer that got lost makes a failure of a chunk that was stored. */
  predicate Answers(calls: seq<Call>, rs: seq<Request>, oks: seq<bool>) {
    && |calls| == |rs| == |oks|
    && forall i :: 0 <= i < |calls| ==>
         rs[i].index == calls[i].index && rs[i].body == calls[i].content && (calls[i].accepted ==> oks[i])
  }

  lemma {:induction false} LastCall(data: seq<byte>, chunkSize: uint64, tries: seq<nat>, ok: bool)
    requires Sendable(data, chunkSize) && 0 < |tries| <= Chunks(data, chunkSize) && AllTried(tries)
    ensures var calls := AllAttempts(data, chunkSize, tries, ok);
      calls != [] && calls[|calls| - 1].accepted == ok && calls[|calls| - 1].index == |tries| - 1
  {
    hide Part, Chunks, Sendable;
    var last := |tries| - 1;
    LastAttempt(last, Part(data, chunkSize, last), tries[last], ok);
  }

  lemma {:induction false} LastAttempt(index: int, content: seq<byte>, tries: nat, ok: bool)
    requires tries > 0
    ensures var calls := Attempts(index, content, tries, ok);
      calls != [] && calls[|calls| - 1].accepted == ok && calls[|calls| - 1].index == index
  {
    if tries <= 1 {
    } else {
      LastAttempt(index, content, tries - 1, ok);
    }
  }

  /** If the client's upload succeeds, the server has the source, whatever was retried on the
      way; and if it does not, the server has a beginning of it. */
  lemma UploadDelivers(session: Session, source: seq<byte>, stored: Stored, tries: seq<nat>, ok: bool, rs: seq<Request>)
    requires Sendable(source, session.chunkSize) && session.size == |source| && Beginning(stored, source)
    requires 0 < |tries| <= Chunks(source, session.chunkSize) && AllTried(tries)
    requires ok ==> |tries| == Chunks(source, session.chunkSize)
    requires Answers(AllAttempts(source, session.chunkSize, tries, ok), rs, HandledAll(session, stored, rs).1)
    ensures var after := HandledAll(session, stored, rs).0;
      Beginning(after, source) && (ok ==> after == Some(source))
  {
    hide Part, Covered, Chunks, Sendable, Handled, HandledAll;
    var calls := AllAttempts(source, session.chunkSize, tries, ok);
    CallsOfferParts(source, session.chunkSize, tries, ok);
    forall i | 0 <= i < |rs|
      ensures RightBytes(source, session.chunkSize, rs[i])
    {
      assert calls[i] in calls;
    }
    RequestsKeepBeginning(session, source, stored, rs);
    LastCall(source, session.chunkSize, tries, ok);
  }
}
