/** The client side of a chunked upload: a file is read chunk by chunk, each chunk is given to a
    processor, and a chunk that failed is tried again, by seeking back or out of a buffer that
    copied what was read. */
module ChunkGroup {
  import opened ChunkPlan
  import opened Options

  newtype byte = n: int | 0 <= n < 256

  /** What a call of the processor comes to. One that accepts a chunk has read all of it. One
      that fails or is canceled has read as much as it likes. */
  datatype Outcome = Accepted | Failed(read: nat) | Canceled(read: nat)

  datatype Call = Call(index: int, content: seq<byte>, accepted: bool)

  datatype ProcessError = ProcessFailed | ProcessCanceled | SeekFailed

  // ---------------------------------------------------------------- parts of the source

  /** The bytes of a chunk. */
  function Part(data: seq<byte>, chunkSize: uint64, index: nat): seq<byte>
    requires Sendable(data, chunkSize) && index < Chunks(data, chunkSize)
  {
    ChunksTile(|data|, chunkSize, index);
    var chunk := Chunk(|data|, chunkSize);
    var start := Start(index, chunk);
    data[start..start + Length(index, |data|, chunk, Num(|data|, chunk))]
  }

  predicate Sendable(data: seq<byte>, chunkSize: uint64) {
    |data| < TWO_64 && Fits(|data|, chunkSize)
  }

  function Chunks(data: seq<byte>, chunkSize: uint64): nat
    requires Sendable(data, chunkSize)
  {
    NumIsExact(|data|, chunkSize);
    Num(|data|, Chunk(|data|, chunkSize))
  }

  /** The end of the data the first chunks cover. */
  function Covered(data: seq<byte>, chunkSize: uint64, chunks: nat): (end: nat)
    requires Sendable(data, chunkSize) && chunks <= Chunks(data, chunkSize)
    ensures end <= |data|
  {
    if chunks < Chunks(data, chunkSize) then
      ChunksTile(|data|, chunkSize, chunks);
      Start(chunks, Chunk(|data|, chunkSize))
    else |data|
  }

  lemma PartExtends(data: seq<byte>, chunkSize: uint64, index: nat)
    requires Sendable(data, chunkSize) && index < Chunks(data, chunkSize)
    ensures var from, to := Covered(data, chunkSize, index), Covered(data, chunkSize, index + 1);
      && from <= to && Part(data, chunkSize, index) == data[from..to]
      && to - from <= Chunk(|data|, chunkSize)
      && to == (if from + Chunk(|data|, chunkSize) <= |data| then from + Chunk(|data|, chunkSize) else |data|)
    ensures Covered(data, chunkSize, 0) == 0 && Covered(data, chunkSize, Chunks(data, chunkSize)) == |data|
  {
    NumIsExact(|data|, chunkSize);
    ChunksTile(|data|, chunkSize, index);
    ChunksTile(|data|, chunkSize, 0);
    ChunkIsExact(|data|, chunkSize, index);
    Successor(index, Chunk(|data|, chunkSize));
    hide Num, Start, Length;
  }

  // ---------------------------------------------------------------- what calls are made

  /** The calls for one chunk: all but the last fail. */
  function Attempts(index: int, content: seq<byte>, tries: nat, ok: bool): (r: seq<Call>)
    ensures |r| == tries
  {
    if tries == 0 then []
    else if tries == 1 then [Call(index, content, ok)]
    else [Call(index, content, false)] + Attempts(index, content, tries - 1, ok)
  }

  predicate AllTried(tries: seq<nat>) {
    forall i :: 0 <= i < |tries| ==> tries[i] > 0
  }

  /** The calls for the first chunks, in order; all chunks but the last are accepted. */
  function AllAttempts(data: seq<byte>, chunkSize: uint64, tries: seq<nat>, ok: bool): seq<Call>
    requires Sendable(data, chunkSize) && |tries| <= Chunks(data, chunkSize)
  {
    if tries == [] then []
    else
      var last := |tries| - 1;
      AllAttempts(data, chunkSize, tries[..last], true) + Attempts(last, Part(data, chunkSize, last), tries[last], ok)
  }

  /** Everything that was accepted, in order. */
  function Delivered(calls: seq<Call>): seq<byte> {
    if calls == [] then []
    else (if calls[0].accepted then calls[0].content else []) + Delivered(calls[1..])
  }

  lemma {:induction false} DeliveredMore(a: seq<Call>, b: seq<Call>)
    ensures Delivered(a + b) == Delivered(a) + Delivered(b)
  {
    if a == [] {
      assert a + b == b;
    } else {
      assert (a + b)[1..] == a[1..] + b;
      DeliveredMore(a[1..], b);
    }
  }

  lemma {:induction false} AttemptsDeliver(index: int, content: seq<byte>, tries: nat, ok: bool)
    requires tries > 0
    ensures Delivered(Attempts(index, content, tries, ok)) == if ok then content else []
    ensures forall c <- Attempts(index, content, tries, ok) :: c.index == index && c.content == content
  {
    var calls := Attempts(index, content, tries, ok);
    if tries > 1 {
      AttemptsDeliver(index, content, tries - 1, ok);
      assert calls[1..] == Attempts(index, content, tries - 1, ok);
    } else {
      assert calls[1..] == [];
    }
  }

  lemma CoveredEnds(data: seq<byte>, chunkSize: uint64)
    requires Sendable(data, chunkSize)
    ensures Covered(data, chunkSize, 0) == 0 && Covered(data, chunkSize, Chunks(data, chunkSize)) == |data|
    ensures Chunks(data, chunkSize) > 0 && data[..|data|] == data && Delivered([]) == data[..0]
  {
    NumIsExact(|data|, chunkSize);
    PartExtends(data, chunkSize, 0);
  }

  /** What was accepted is the beginning of the source, up to the chunk that was given up; all
      of it when every chunk was accepted. */
  lemma {:induction false} DeliveredIsSource(data: seq<byte>, chunkSize: uint64, tries: seq<nat>, ok: bool)
    requires Sendable(data, chunkSize) && |tries| <= Chunks(data, chunkSize) && AllTried(tries)
    ensures tries != [] || ok ==>
      Delivered(AllAttempts(data, chunkSize, tries, ok))
        == data[..Covered(data, chunkSize, if ok then |tries| else |tries| - 1)]
    ensures ok && |tries| == Chunks(data, chunkSize) ==> Delivered(AllAttempts(data, chunkSize, tries, ok)) == data
  {
    hide Part, Covered, Chunks, Delivered, Sendable;
    CoveredEnds(data, chunkSize);
    if tries == [] {
    } else {
      var last := |tries| - 1;
      DeliveredIsSource(data, chunkSize, tries[..last], true);
      AttemptsDeliver(last, Part(data, chunkSize, last), tries[last], ok);
      DeliveredMore(AllAttempts(data, chunkSize, tries[..last], true),
        Attempts(last, Part(data, chunkSize, last), tries[last], ok));
      PartExtends(data, chunkSize, last);
      assert data[..Covered(data, chunkSize, last)] + Part(data, chunkSize, last)
             == data[..Covered(data, chunkSize, last + 1)];
    }
  }

  /** Every call is for a chunk of the source and offers exactly its bytes. */
  lemma {:induction false} CallsOfferParts(data: seq<byte>, chunkSize: uint64, tries: seq<nat>, ok: bool)
    requires Sendable(data, chunkSize) && |tries| <= Chunks(data, chunkSize) && AllTried(tries)
    ensures forall c <- AllAttempts(data, chunkSize, tries, ok) ::
      0 <= c.index < |tries| && c.content == Part(data, chunkSize, c.index)
  {
    hide Part, Chunks, Sendable;
    if tries == [] {
    } else {
      var last := |tries| - 1;
      CallsOfferParts(data, chunkSize, tries[..last], true);
      AttemptsDeliver(last, Part(data, chunkSize, last), tries[last], ok);
    }
  }

  // ---------------------------------------------------------------- the group

  /** A limited number of retries. */
  class ConstantBackoff {
    const max: int
    var tried: int

    constructor (max: int)
      ensures this.max == max && tried == 0
    {
      this.max := max;
      tried := 0;
    }

    method Next() returns (again: bool)
      modifies this
      ensures tried == old(tried) + 1 && again == (tried <= max)
    {
      tried := tried + 1;
      again := tried <= max;
    }

    method Reset()
      modifies this
      ensures tried == 0
    {
      tried := 0;
    }
  }

  /** The file that is sent. Some files cannot be read twice; and seeking may fail. */
  class FileHeader {
    const data: seq<byte>
    const seekable: bool
    const seekFails: nat -> bool
    var seeks: nat
    var pos: nat

    constructor (data: seq<byte>, seekable: bool, seekFails: nat -> bool)
      ensures this.data == data && this.seekable == seekable && pos == 0
    {
      this.data, this.seekable, this.seekFails := data, seekable, seekFails;
      seeks, pos := 0, 0;
    }

    /** What a reader limited to this many bytes would read. */
    function Limited(limit: int): seq<byte>
      reads this`pos
    {
      if pos >= |data| || limit <= 0 then [] else if pos + limit <= |data| then data[pos..pos + limit] else data[pos..]
    }

    method Seek(start: nat) returns (ok: bool)
      modifies this
      ensures pos == if ok then start else old(pos)
      ensures ok == !seekFails(old(seeks)) && seeks == old(seeks) + 1
    {
      ok := !seekFails(seeks);
      seeks := seeks + 1;
      if ok {
        pos := start;
      }
    }
  }

  /** The processor, and a log of its calls. */
  class Processor {
    const outcome: nat -> Outcome
    var calls: seq<Call>

    constructor (outcome: nat -> Outcome)
      ensures this.outcome == outcome && calls == []
    {
      this.outcome := outcome;
      calls := [];
    }

    method Send(index: int, content: seq<byte>) returns (outcome: Outcome)
      modifies this
      ensures calls == old(calls) + [Call(index, content, outcome.Accepted?)]
      ensures outcome == this.outcome(|old(calls)|)
    {
      outcome := this.outcome(|calls|);
      calls := calls + [Call(index, content, outcome.Accepted?)];
    }
  }

  /** The answers of the processor from its next call on, the outcomes of seeking, how many retries
      are left, and whether the bytes can be had again if the first try fails. */
  datatype Course = Course(
    outcome: nat -> Outcome,
    call: nat,
    seekable: bool,
    seekFails: nat -> bool,
    seek: nat,
    left: int,
    rereadable: bool)
  {
    /** The chunk is tried again as long as it fails, the bytes can be had again, retries are left and
        seeking works; and that decides how it ends. */
    ghost predicate Ends(err: Option<ProcessError>, tries: nat) {
      && 1 <= tries && (tries > 1 ==> rereadable && tries <= left + 1)
      && (forall q :: call <= q < call + tries - 1 ==> outcome(q).Failed?)
      && (seekable ==> forall q :: seek <= q < seek + tries - 1 ==> !seekFails(q))
      && var last := outcome(call + tries - 1);
         match err
         case None => last.Accepted?
         case Some(ProcessCanceled) => last.Canceled?
         case Some(SeekFailed) =>
           last.Failed? && rereadable && seekable && seekFails(seek + tries - 1) && tries <= left
         case Some(ProcessFailed) => last.Failed? && (tries > left || (tries == 1 && !rereadable))
    }

    /** After a try that failed. */
    function Later(): Course {
      this.(call := call + 1, seek := if seekable then seek + 1 else seek, left := left - 1, rereadable := true)
    }

    /** It may end with the first try. */
    lemma EndsAtOnce(o: Outcome)
      requires o == outcome(call)
      ensures o.Accepted? ==> Ends(None, 1)
      ensures o.Canceled? ==> Ends(Some(ProcessCanceled), 1)
      ensures o.Failed? && (left < 1 || !rereadable) ==> Ends(Some(ProcessFailed), 1)
      ensures o.Failed? && left >= 1 && rereadable && seekable && seekFails(seek) ==> Ends(Some(SeekFailed), 1)
    {
    }

    lemma EndsLater(err: Option<ProcessError>, tries: nat)
      requires outcome(call).Failed? && rereadable && left >= 1 && (seekable ==> !seekFails(seek))
      requires Later().Ends(err, tries)
      ensures Ends(err, tries + 1)
    {
      var later := Later();
      assert forall q :: call < q < call + tries ==> later.outcome(q).Failed?;
      assert seekable ==> forall q :: seek < q < seek + tries ==> !later.seekFails(q);
    }

    /** There is only one way it can end. */
    lemma OneEnd(err: Option<ProcessError>, tries: nat, other: Option<ProcessError>, more: nat)
      requires Ends(err, tries) && Ends(other, more)
      ensures err == other && tries == more
    {
      var last, otherLast := outcome(call + tries - 1), outcome(call + more - 1);
      var sought, otherSought := seekFails(seek + tries - 1), seekFails(seek + more - 1);
    }
  }

  class Group {
    const file: FileHeader
    const size: uint64
    const chunkSize: uint64
    const backoff: ConstantBackoff
    const enableRetryBuffer: bool
    const chunkNum: uint64
    var currentIndex: int
    var bufferTemp: Option<seq<byte>>
    /** The chunk size that was asked for. */
    ghost const wanted: uint64

    constructor (file: FileHeader, chunkSize: uint64, backoff: ConstantBackoff, useBuffer: bool)
      requires Sendable(file.data, chunkSize)
      ensures InOrder() && currentIndex == -1 && bufferTemp == None
      ensures this.file == file && this.backoff == backoff && wanted == chunkSize && enableRetryBuffer == useBuffer
    {
      NumIsExact(|file.data|, chunkSize);
      this.file, this.backoff, enableRetryBuffer := file, backoff, useBuffer;
      size := |file.data|;
      wanted := chunkSize;
      this.chunkSize := Chunk(|file.data|, chunkSize);
      chunkNum := Num(|file.data|, Chunk(|file.data|, chunkSize));
      currentIndex := -1;
      bufferTemp := None;
    }

    ghost predicate InOrder() {
      && Sendable(file.data, wanted)
      && size == |file.data| && chunkSize == Chunk(size, wanted) && chunkNum == Chunks(file.data, wanted)
    }

    ghost predicate AtChunk()
      reads this`currentIndex
    {
      InOrder() && 0 <= currentIndex < chunkNum
    }

    /** The bytes of the current chunk. */
    ghost function Current(): seq<byte>
      requires AtChunk()
      reads this`currentIndex
    {
      Part(file.data, wanted, currentIndex)
    }

    ghost function From(): nat
      requires AtChunk()
      reads this`currentIndex
    {
      Covered(file.data, wanted, currentIndex)
    }

    ghost function To(): nat
      requires AtChunk()
      reads this`currentIndex
    {
      Covered(file.data, wanted, currentIndex + 1)
    }

    /** The chunk is about to be read from the file, or again from the buffer. */
    ghost predicate Ready()
      reads this, file
    {
      && AtChunk()
      && if bufferTemp.None? then file.pos == From()
         else !file.seekable && bufferTemp.value == Current() && file.pos == To()
    }

    function Start(): int
      reads this`currentIndex
    {
      ChunkPlan.Start(currentIndex, chunkSize)
    }

    function Length(): int
      requires chunkNum > 0
      reads this`currentIndex
    {
      ChunkPlan.Length(currentIndex, size, chunkSize, chunkNum)
    }

    function IsLast(): bool
      requires chunkNum > 0
      reads this`currentIndex
    {
      ChunkPlan.IsLast(currentIndex, chunkNum)
    }

    predicate TempAvailable()
      requires chunkNum > 0
      reads this`currentIndex, this`bufferTemp
    {
      bufferTemp.Some? && |bufferTemp.value| == Length()
    }

    method Next() returns (more: bool)
      requires InOrder() && -1 <= currentIndex < chunkNum
      modifies this`currentIndex, backoff
      ensures currentIndex == old(currentIndex) + 1 && backoff.tried == 0 && more == (currentIndex < chunkNum)
    {
      NumIsExact(size, wanted);
      currentIndex := currentIndex + 1;
      backoff.Reset();
      more := currentIndex < Signed(chunkNum);
    }

    lemma CurrentChunk()
      requires AtChunk()
      ensures From() <= To() <= |file.data| && Current() == file.data[From()..To()]
      ensures Start() == From() && Length() == |Current()| && |Current()| <= chunkSize == Signed(chunkSize)
      ensures file.pos == From() ==> file.Limited(Signed(chunkSize)) == Current()
    {
      PartExtends(file.data, wanted, currentIndex);
      ChunkIsExact(size, wanted, currentIndex);
      ChunksTile(size, wanted, currentIndex);
      NumIsExact(size, wanted);
      assert size > 0 ==> chunkSize > 0;
      hide Num, Chunks, ChunkPlan.Start, ChunkPlan.Length;
    }

    /** After such an outcome of the first try the bytes can be had again. */
    ghost predicate Rereadable(o: Outcome)
      requires AtChunk()
      reads this`currentIndex, this`bufferTemp
    {
      file.seekable || bufferTemp.Some? || (enableRetryBuffer && (o.Accepted? || o.read >= |Current()|))
    }

    /** What decides how a chunk fares, if this processor is given it now. */
    ghost function CourseWith(p: Processor): Course
      requires AtChunk()
      reads this, file, backoff, p
    {
      Course(p.outcome, |p.calls|, file.seekable, file.seekFails, file.seeks, backoff.max - backoff.tried,
        Rereadable(p.outcome(|p.calls|)))
    }

    /** One call of the processor. The bytes come from the file or the buffer, and if they cannot
        be read twice they are put into the buffer as they are read. */
    method Try(p: Processor) returns (outcome: Outcome)
      requires Ready()
      modifies this`bufferTemp, file`pos, p
      ensures p.calls == old(p.calls) + [Call(currentIndex, Current(), outcome.Accepted?)]
      ensures outcome == p.outcome(|old(p.calls)|) && (outcome.Accepted? ==> file.pos == To())
      ensures !outcome.Accepted? ==> (file.seekable || TempAvailable() <==> old(Rereadable(outcome)))
      ensures if file.seekable then bufferTemp.None? else TempAvailable() && !outcome.Accepted? ==> Ready()
    {
      hide Part, Covered, FileHeader.Limited, ChunkPlan.Start, ChunkPlan.Length;
      CurrentChunk();
      var available := file.Limited(Signed(chunkSize));
      var tee := enableRetryBuffer && bufferTemp.None? && !file.seekable;
      if tee {
        bufferTemp := Some([]);
      }
      var again := TempAvailable();
      if again {
        available := bufferTemp.value;
      }
      assert available == Current();
      outcome := p.Send(currentIndex, available);
      var count := if outcome.Accepted? || outcome.read > |available| then |available| else outcome.read;
      if !again {
        file.pos := file.pos + count;
        if tee {
          bufferTemp := Some(available[..count]);
        }
      }
    }

    /** Gives the chunk to the processor until it is accepted, the retries are used up or it
        cannot be read again. Each call is offered exactly the bytes of the chunk. What the
        processor answers and whether seeking fails decide how often that is, and how it ends. */
    method Process(p: Processor) returns (err: Option<ProcessError>, ghost tries: nat)
      requires Ready()
      modifies this`bufferTemp, file, backoff, p
      ensures p.calls == old(p.calls) + Attempts(currentIndex, Current(), tries, err.None?)
      ensures 1 <= tries && (tries == 1 || tries <= backoff.max - old(backoff.tried) + 1)
      ensures old(CourseWith(p)).Ends(err, tries)
      ensures err.None? ==> file.seeks == old(file.seeks) + if file.seekable then tries - 1 else 0
      ensures bufferTemp == None && (err.None? ==> file.pos == To())
      decreases backoff.max - backoff.tried
    {
      hide Attempts, Part, Covered, FileHeader.Limited, ChunkPlan.Start, ChunkPlan.Length, Course.Ends;
      CurrentChunk();
      ghost var course := CourseWith(p);
      var outcome := Try(p);
      OneAttempt(currentIndex, Current(), outcome.Accepted?);
      course.EndsAtOnce(outcome);
      tries := 1;
      if outcome.Accepted? {
        bufferTemp := None;
        return None, 1;
      }
      err := Some(if outcome.Canceled? then ProcessCanceled else ProcessFailed);
      if !outcome.Canceled? && (file.seekable || TempAvailable()) {
        var retry := backoff.Next();
        if retry {
          if file.seekable {
            var ok := file.Seek(Start());
            if !ok {
              bufferTemp := None;
              return Some(SeekFailed), 1;
            }
          }
          assert CourseWith(p) == course.Later();
          err, tries := Process(p);
          course.EndsLater(err, tries);
          OneMoreAttempt(currentIndex, Current(), tries, err.None?);
          tries := tries + 1;
        }
      }
      bufferTemp := None;
    }
  }

  lemma OneAttempt(index: int, content: seq<byte>, ok: bool)
    ensures Attempts(index, content, 1, ok) == [Call(index, content, ok)]
  {
  }

  lemma OneMoreAttempt(index: int, content: seq<byte>, tries: nat, ok: bool)
    requires tries > 0
    ensures Attempts(index, content, tries + 1, ok)
         == [Call(index, content, false)] + Attempts(index, content, tries, ok)
  {
  }

  // ---------------------------------------------------------------- the upload

  predicate WithinRetries(tries: seq<nat>, max: int) {
    forall i :: 0 <= i < |tries| ==> tries[i] == 1 || 1 <= tries[i] <= max + 1
  }

  function Total(tries: seq<nat>): nat {
    if tries == [] then 0 else Total(tries[..|tries| - 1]) + tries[|tries| - 1]
  }

  /** What decides how the i-th chunk fares, when those before it were tried so often. */
  ghost function CourseOf(file: FileHeader, chunkSize: uint64, max: int, useBuffer: bool, outcome: nat -> Outcome,
                          call: nat, seek: nat, before: seq<nat>): Course
    requires Sendable(file.data, chunkSize) && |before| < Chunks(file.data, chunkSize) && AllTried(before)
  {
    var next := call + Total(before);
    var o := outcome(next);
    Course(outcome, next, file.seekable, file.seekFails, seek + if file.seekable then Extra(before) else 0, max,
      file.seekable || (useBuffer && (o.Accepted? || o.read >= |Part(file.data, chunkSize, |before|)|)))
  }

  /** The tries that were not the first of their chunk. */
  function Extra(tries: seq<nat>): nat
    requires AllTried(tries)
  {
    if tries == [] then 0 else Extra(tries[..|tries| - 1]) + tries[|tries| - 1] - 1
  }

  /** Each chunk fares as its course says; those before the last are accepted. */
  ghost predicate AllEnd(file: FileHeader, chunkSize: uint64, max: int, useBuffer: bool, outcome: nat -> Outcome,
                         call: nat, seek: nat, tries: seq<nat>, err: Option<ProcessError>) {
    && Sendable(file.data, chunkSize) && |tries| <= Chunks(file.data, chunkSize) && AllTried(tries)
    && forall i :: 0 <= i < |tries| ==>
         CourseOf(file, chunkSize, max, useBuffer, outcome, call, seek, tries[..i])
         .Ends(if i == |tries| - 1 then err else None, tries[i])
  }

  lemma NothingTried(file: FileHeader, chunkSize: uint64, max: int, useBuffer: bool, outcome: nat -> Outcome,
                     call: nat, seek: nat)
    requires Sendable(file.data, chunkSize)
    ensures AllEnd(file, chunkSize, max, useBuffer, outcome, call, seek, [], None)
    ensures Total([]) == 0 && Extra([]) == 0
    ensures WithinRetries([], max) && AllAttempts(file.data, chunkSize, [], true) == []
  {
  }

  lemma OneMoreTried(data: seq<byte>, chunkSize: uint64, max: int, tries: seq<nat>, n: nat, ok: bool)
    requires Sendable(data, chunkSize) && |tries| < Chunks(data, chunkSize)
    requires AllTried(tries) && WithinRetries(tries, max) && (n == 1 || 1 <= n <= max + 1)
    ensures var longer := tries + [n];
      && AllTried(longer) && WithinRetries(longer, max)
      && AllAttempts(data, chunkSize, longer, ok)
         == AllAttempts(data, chunkSize, tries, true) + Attempts(|tries|, Part(data, chunkSize, |tries|), n, ok)
  {
    hide Attempts, Part, Chunks, Sendable;
    assert (tries + [n])[..|tries|] == tries;
  }

  lemma OneMoreEnds(file: FileHeader, chunkSize: uint64, max: int, useBuffer: bool, outcome: nat -> Outcome,
                    call: nat, seek: nat, tries: seq<nat>, n: nat, err: Option<ProcessError>)
    requires AllEnd(file, chunkSize, max, useBuffer, outcome, call, seek, tries, None)
    requires |tries| < Chunks(file.data, chunkSize) && n > 0
    requires CourseOf(file, chunkSize, max, useBuffer, outcome, call, seek, tries).Ends(err, n)
    ensures AllEnd(file, chunkSize, max, useBuffer, outcome, call, seek, tries + [n], err)
    ensures Total(tries + [n]) == Total(tries) + n && Extra(tries + [n]) == Extra(tries) + n - 1
  {
    hide Course.Ends, CourseOf, Chunks, Sendable, Total, Extra;
    var longer := tries + [n];
    OneMoreCounted(tries, n);
    assert longer[..|tries|] == tries;
    assert forall i :: 0 <= i < |tries| ==> longer[..i] == tries[..i];
  }

  lemma OneMoreCounted(tries: seq<nat>, n: nat)
    requires AllTried(tries) && n > 0
    ensures Total(tries + [n]) == Total(tries) + n
    ensures AllTried(tries + [n]) && Extra(tries + [n]) == Extra(tries) + n - 1
  {
    assert (tries + [n])[..|tries|] == tries;
  }

  /** A group that has come to a chunk sends it as CourseOf says. */
  lemma CourseIs(chunks: Group, p: Processor, call: nat, seek: nat, tries: seq<nat>)
    requires chunks.Ready() && chunks.bufferTemp.None? && chunks.backoff.tried == 0 && chunks.currentIndex == |tries|
    requires AllTried(tries) && |p.calls| == call + Total(tries)
    requires chunks.file.seeks == seek + if chunks.file.seekable then Extra(tries) else 0
    ensures chunks.CourseWith(p) == CourseOf(chunks.file, chunks.wanted, chunks.backoff.max, chunks.enableRetryBuffer,
                                             p.outcome, call, seek, tries)
  {
  }

  /** Sends a file chunk by chunk. Each chunk gets one try and at most max more; it is tried again
      as long as it can be, and the upload goes on as long as chunks are accepted. */
  method Upload(file: FileHeader, chunkSize: uint64, max: int, useBuffer: bool, p: Processor)
    returns (err: Option<ProcessError>, ghost tries: seq<nat>)
    requires Sendable(file.data, chunkSize) && file.pos == 0
    modifies file, p
    ensures |tries| <= Chunks(file.data, chunkSize) && (err.None? ==> |tries| == Chunks(file.data, chunkSize))
    ensures p.calls == old(p.calls) + AllAttempts(file.data, chunkSize, tries, err.None?)
    ensures tries != [] && AllTried(tries) && WithinRetries(tries, max)
    ensures AllEnd(file, chunkSize, max, useBuffer, p.outcome, |old(p.calls)|, old(file.seeks), tries, err)
  {
    hide Part, Covered, Chunks, Sendable, Course.Ends, CourseOf, AllEnd, Total, Extra;
    hide AllTried, WithinRetries, Attempts, AllAttempts;
    NothingTried(file, chunkSize, max, useBuffer, p.outcome, |p.calls|, file.seeks);
    CoveredEnds(file.data, chunkSize);
    var backoff := new ConstantBackoff(max);
    var chunks := new Group(file, chunkSize, backoff, useBuffer);
    tries := [];
    ghost var before := p.calls;
    var more := chunks.Next();
    while more
      invariant chunks.InOrder() && chunks.currentIndex == |tries| <= chunks.chunkNum
      invariant more == (|tries| < chunks.chunkNum)
      invariant chunks.bufferTemp == None && backoff.tried == 0
      invariant file.pos == Covered(file.data, chunkSize, |tries|)
      invariant AllTried(tries) && WithinRetries(tries, max)
      invariant |p.calls| == |before| + Total(tries)
      invariant file.seeks == old(file.seeks) + if file.seekable then Extra(tries) else 0
      invariant AllEnd(file, chunkSize, max, useBuffer, p.outcome, |before|, old(file.seeks), tries, None)
      invariant p.calls == before + AllAttempts(file.data, chunkSize, tries, true)
      decreases chunks.chunkNum - chunks.currentIndex
    {
      ghost var n, course := 0, chunks.CourseWith(p);
      CourseIs(chunks, p, |before|, old(file.seeks), tries);
      err, n := chunks.Process(p);
      OneMoreEnds(file, chunkSize, max, useBuffer, p.outcome, |before|, old(file.seeks), tries, n, err);
      OneMoreTried(file.data, chunkSize, max, tries, n, err.None?);
      tries := tries + [n];
      if err.Some? {
        return;
      }
      more := chunks.Next();
    }
    err := None;
  }
}
