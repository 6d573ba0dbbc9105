/** How a file is cut into chunks, by the client that sends them and, separately, by the server
    that receives them; in 64-bit machine arithmetic. */
module ChunkPlan {
  const TWO_64: nat := 0x1_0000_0000_0000_0000
  const TWO_63: nat := 0x8000_0000_0000_0000

  type uint64 = n: nat | n < TWO_64

  function Unsigned(n: int): uint64 {
    n % TWO_64
  }

  /** A conversion to int or int64. */
  function Signed(n: uint64): int {
    if n < TWO_63 then n else n - TWO_64
  }

  // ---------------------------------------------------------------- the client

  /** NewGroup: without a chunk size the file is one chunk. */
  function Chunk(size: uint64, chunkSize: uint64): uint64 {
    if chunkSize == 0 then size else chunkSize
  }

  function Num(size: uint64, chunkSize: uint64): uint64
    requires size > 0 ==> chunkSize > 0
  {
    if size == 0 then 1
    else Unsigned(size / chunkSize + if size % chunkSize != 0 then 1 else 0)
  }

  function Start(index: int, chunk: uint64): int {
    Signed(Unsigned(Unsigned(index) * chunk))
  }

  predicate IsLast(index: int, num: uint64) {
    index == Signed(Unsigned(num - 1))
  }

  function Length(index: int, size: uint64, chunk: uint64, num: uint64): int {
    Signed(if IsLast(index, num) then Unsigned(size - Unsigned(chunk * Unsigned(num - 1))) else chunk)
  }

  // ---------------------------------------------------------------- the server

  function ServerStart(index: int, chunkSize: uint64): uint64 {
    Unsigned(chunkSize * Unsigned(index))
  }

  predicate ServerIsLast(index: int, size: uint64, chunkSize: uint64) {
    chunkSize == 0 || Unsigned(Unsigned(index + 1) * chunkSize) >= size
  }

  function ServerLength(index: int, size: uint64, chunkSize: uint64): uint64 {
    if ServerIsLast(index, size, chunkSize) then Unsigned(size - Unsigned(Unsigned(index) * chunkSize)) else chunkSize
  }

  // ---------------------------------------------------------------- exact values

  /** Sizes for which nothing wraps around. Some others do no harm either: InRange is exact. */
  predicate Fits(size: uint64, chunkSize: uint64) {
    size + chunkSize < TWO_63
  }

  lemma Small(n: int)
    requires 0 <= n < TWO_63
    ensures Unsigned(n) == n && Signed(n) == n
  {
  }

  lemma Quotient(size: nat, chunk: nat)
    requires size > 0 && chunk > 0
    ensures var q := size / chunk;
      0 <= q * chunk <= size && size - q * chunk == size % chunk < chunk && q <= size
  {
    var q := size / chunk;
    assert size == q * chunk + size % chunk;
    if q > size {
      Product(1, chunk, q, chunk * q);
    }
  }

  lemma Successor(i: int, chunk: int)
    ensures (i + 1) * chunk == i * chunk + chunk && (i - 1) * chunk == i * chunk - chunk
  {
  }

  /** The number of chunks as it should be, whatever the sizes are: the last one ends where the
      file ends. */
  lemma NumIsCeiling(size: uint64, chunkSize: uint64)
    ensures var chunk := Chunk(size, chunkSize);
      && (size > 0 ==> chunk > 0)
      && var num := Num(size, chunk);
         && 1 <= num && 0 <= (num - 1) * chunk <= size <= num * chunk && num * chunk <= size + chunk
         && (size > 0 ==> (num - 1) * chunk < size)
         && (chunkSize == 0 ==> num == 1)
  {
    hide Unsigned;
    var chunk := Chunk(size, chunkSize);
    if size > 0 {
      Ceiling(size, chunk);
      if chunkSize == 0 {
        OneChunk(size);
      }
      NotWrapped(size / chunk + if size % chunk != 0 then 1 else 0);
    }
  }

  lemma Ceiling(size: nat, chunk: nat)
    requires size > 0 && chunk > 0
    ensures var num := size / chunk + if size % chunk != 0 then 1 else 0;
      && 1 <= num <= size && 0 <= (num - 1) * chunk < size
      && size <= num * chunk <= size + chunk
  {
    Quotient(size, chunk);
    var q, r := size / chunk, size % chunk;
    Successor(q, chunk);
    AtLeastOne(size, chunk, q, r);
    OneMore(size, chunk, q, r);
    if r == 0 {
      Product(0, q - 1, chunk, q * chunk);
    }
  }

  lemma OneMore(size: nat, chunk: nat, q: nat, r: nat)
    requires size == q * chunk + r && r < chunk && q <= size
    ensures r != 0 ==> q + 1 <= size
  {
    if r != 0 && q == size && size > 0 {
      Product(2, chunk, size, chunk * size);
    }
  }

  /** If the sizes fit, it is a signed number too. */
  lemma NumIsExact(size: uint64, chunkSize: uint64)
    requires Fits(size, chunkSize)
    ensures var chunk := Chunk(size, chunkSize);
      && (size > 0 ==> chunk > 0)
      && var num := Num(size, chunk);
         && 1 <= num < TWO_63
         && (num - 1) * chunk <= size <= num * chunk
         && (size > 0 ==> (num - 1) * chunk < size)
         && (chunkSize == 0 ==> num == 1)
  {
    NumIsCeiling(size, chunkSize);
    var chunk := Chunk(size, chunkSize);
    hide Num;
    if chunk > 0 {
      Grows(Num(size, chunk), chunk);
    }
  }

  lemma OneChunk(size: nat)
    requires size > 0
    ensures size / size == 1 && size % size == 0
  {
  }

  lemma AtLeastOne(size: nat, chunk: nat, q: nat, r: nat)
    requires size == q * chunk + r && size > 0
    ensures q >= 1 || r != 0
  {
    if q == 0 {
      assert q * chunk == 0;
    }
  }

  lemma Product(i: nat, j: nat, chunk: nat, bound: nat)
    requires i <= j && j * chunk <= bound
    ensures 0 <= i * chunk <= j * chunk <= bound && chunk * i == i * chunk && chunk * j == j * chunk
  {
    assert j * chunk == i * chunk + (j - i) * chunk;
  }

  /** Start and Length of the chunks that exist, with nothing wrapped around. */
  lemma ChunkIsExact(size: uint64, chunkSize: uint64, index: nat)
    requires Fits(size, chunkSize)
    requires index < Num(size, Chunk(size, chunkSize))
    ensures var chunk := Chunk(size, chunkSize);
      var num := Num(size, chunk);
      && Start(index, chunk) == index * chunk <= size
      && (IsLast(index, num) <==> index == num - 1)
      && Length(index, size, chunk, num) == if index == num - 1 then size - index * chunk else chunk
  {
    var chunk := Chunk(size, chunkSize);
    var num := Num(size, chunk);
    NumIsExact(size, chunkSize);
    Product(index, num - 1, chunk, size);
    Small(index);
    Small(num - 1);
    Small(index * chunk);
    Small((num - 1) * chunk);
    Small(size - (num - 1) * chunk);
    Small(chunk);
    hide Unsigned, Signed, Num;
  }

  /** The chunks tile the file: the first starts at its beginning, each starts where the one
      before ends, the last ends at its end, and none is empty unless the file is. */
  lemma ChunksTile(size: uint64, chunkSize: uint64, index: nat)
    requires Fits(size, chunkSize)
    requires index < Num(size, Chunk(size, chunkSize))
    ensures var chunk := Chunk(size, chunkSize);
      var num := Num(size, chunk);
      var start, end := Start(index, chunk), Start(index, chunk) + Length(index, size, chunk, num);
      && 0 <= start <= end <= size
      && (index == 0 ==> start == 0)
      && end == (if index + 1 < num then Start(index + 1, chunk) else size)
      && (size > 0 ==> start < end)
  {
    var chunk := Chunk(size, chunkSize);
    var num := Num(size, chunk);
    NumIsExact(size, chunkSize);
    ChunkIsExact(size, chunkSize, index);
    Successor(index, chunk);
    if index + 1 < num {
      ChunkIsExact(size, chunkSize, index + 1);
    }
    hide Num, Start, Length, IsLast;
  }

  /** Client and server say the same of a chunk: where it starts, how long it is and whether it is
      the last. */
  ghost predicate Agree(size: uint64, chunkSize: uint64, index: nat)
    requires size > 0 ==> Chunk(size, chunkSize) > 0
  {
    var chunk := Chunk(size, chunkSize);
    var num := Num(size, chunk);
    && ServerStart(index, chunkSize) == Start(index, chunk)
    && ServerLength(index, size, chunkSize) == Length(index, size, chunk, num)
    && (ServerIsLast(index, size, chunkSize) <==> IsLast(index, num))
  }

  /** The last chunk's start and length are signed numbers, and its nominal end does not wrap. */
  predicate InRange(size: uint64, chunkSize: uint64)
    requires size > 0 ==> Chunk(size, chunkSize) > 0
  {
    var chunk := Chunk(size, chunkSize);
    var num := Num(size, chunk);
    var last := (num - 1) * chunk;
    0 <= last < TWO_63 && size - last < TWO_63 && (chunkSize > 0 ==> num * chunk < TWO_64)
  }

  lemma NotWrapped(n: int)
    requires 0 <= n < TWO_64
    ensures Unsigned(n) == n && (Signed(n) == n <==> n < TWO_63)
  {
  }

  /** Server and client agree about every chunk exactly if the sizes are in range. */
  lemma ServerAgreesIff(size: uint64, chunkSize: uint64)
    ensures size > 0 ==> Chunk(size, chunkSize) > 0
    ensures (forall index: nat :: index < Num(size, Chunk(size, chunkSize)) ==> Agree(size, chunkSize, index))
            <==> InRange(size, chunkSize)
  {
    NumIsCeiling(size, chunkSize);
    var chunk := Chunk(size, chunkSize);
    var num := Num(size, chunk);
    if InRange(size, chunkSize) {
      forall index: nat | index < num
        ensures Agree(size, chunkSize, index)
      {
        AgreesInRange(size, chunkSize, index);
      }
    } else {
      DisagreesAtLast(size, chunkSize);
    }
  }

  lemma Grows(n: nat, chunk: nat)
    requires chunk > 0
    ensures n <= n * chunk
  {
    Product(1, chunk, n, chunk * n);
  }

  /** What the server makes of a chunk that exists. */
  lemma ServerValues(size: uint64, chunk: uint64, index: nat, num: uint64)
    requires 0 < chunk && index < num && (num - 1) * chunk <= size && (size > 0 ==> (num - 1) * chunk < size)
    requires size <= num * chunk <= size + chunk
    ensures ServerStart(index, chunk) == index * chunk
    ensures ServerIsLast(index, size, chunk) <==> index == num - 1 && num * chunk < TWO_64
    ensures ServerIsLast(index, size, chunk) ==> ServerLength(index, size, chunk) == size - index * chunk
    ensures !ServerIsLast(index, size, chunk) ==> ServerLength(index, size, chunk) == chunk
  {
    Product(index, num - 1, chunk, size);
    Successor(index, chunk);
    NotWrapped(index);
    NotWrapped(index * chunk);
    NotWrapped(size - index * chunk);
    Grows(num - 1, chunk);
    if index + 1 < num {
      Product(index + 1, num - 1, chunk, size);
      NotWrapped(index + 1);
      NotWrapped((index + 1) * chunk);
      hide Unsigned;
    } else {
      WrapsBelow(size, chunk, index);
      hide Unsigned;
    }
  }

  lemma WrapsBelow(size: uint64, chunk: uint64, index: nat)
    requires index < TWO_64 - 1 && 0 < chunk
    requires index * chunk <= size <= (index + 1) * chunk <= size + chunk
    ensures Unsigned(Unsigned(index + 1) * chunk) >= size <==> (index + 1) * chunk < TWO_64
  {
    NotWrapped(index + 1);
    Wraps((index + 1) * chunk, size, chunk);
    hide Unsigned;
  }

  lemma Wraps(end: nat, size: uint64, chunk: uint64)
    requires size <= end <= size + chunk
    ensures Unsigned(end) >= size <==> end < TWO_64
  {
  }

  /** What the client makes of it. */
  lemma ClientValues(size: uint64, chunk: uint64, index: nat, num: uint64)
    requires index < num && (num - 1) * chunk <= size && (chunk == 0 ==> num == 1)
    ensures Start(index, chunk) == index * chunk <==> index * chunk < TWO_63
    ensures (num - 1) * chunk < TWO_63 ==>
      && (IsLast(index, num) <==> index == num - 1)
      && (index == num - 1 ==>
            (Length(index, size, chunk, num) == size - index * chunk <==> size - index * chunk < TWO_63))
      && (index < num - 1 ==> index * chunk < TWO_63 && Length(index, size, chunk, num) == chunk)
  {
    Product(index, num - 1, chunk, size);
    if chunk > 0 {
      Grows(num - 1, chunk);
    }
    if index < num - 1 {
      Product(1, num - 1, chunk, (num - 1) * chunk);
    }
    NotWrapped(index);
    NotWrapped(num - 1);
    NotWrapped(chunk);
    NotWrapped((num - 1) * chunk);
    NotWrapped(index * chunk);
    NotWrapped(size - (num - 1) * chunk);
    hide Unsigned, Signed;
  }

  lemma AgreesInRange(size: uint64, chunkSize: uint64, index: nat)
    requires size > 0 ==> Chunk(size, chunkSize) > 0
    requires InRange(size, chunkSize) && index < Num(size, Chunk(size, chunkSize))
    ensures Agree(size, chunkSize, index)
  {
    NumIsCeiling(size, chunkSize);
    var chunk := Chunk(size, chunkSize);
    var num := Num(size, chunk);
    Product(index, num - 1, chunk, size);
    ClientValues(size, chunk, index, num);
    if chunkSize > 0 {
      ServerValues(size, chunk, index, num);
      hide ServerStart, ServerLength, ServerIsLast, Start, Length, IsLast, Num;
    } else {
      WholeFile(size);
      hide Start, Length, IsLast, Num;
    }
  }

  lemma WholeFile(size: uint64)
    ensures ServerStart(0, 0) == 0 && ServerLength(0, size, 0) == size
  {
    NotWrapped(size);
  }

  lemma DisagreesAtLast(size: uint64, chunkSize: uint64)
    requires size > 0 ==> Chunk(size, chunkSize) > 0
    requires !InRange(size, chunkSize)
    ensures Num(size, Chunk(size, chunkSize)) >= 1 && !Agree(size, chunkSize, Num(size, Chunk(size, chunkSize)) - 1)
  {
    NumIsCeiling(size, chunkSize);
    var chunk := Chunk(size, chunkSize);
    var num := Num(size, chunk);
    ClientValues(size, chunk, num - 1, num);
    if chunkSize > 0 {
      ServerValues(size, chunk, num - 1, num);
      hide ServerStart, ServerLength, ServerIsLast, Start, Length, IsLast, Num;
    } else {
      WholeFile(size);
      hide Start, Length, IsLast, Num;
    }
  }

  /** Sizes that fit are in range. */
  lemma ServerAgrees(size: uint64, chunkSize: uint64, index: nat)
    requires Fits(size, chunkSize)
    requires index < Num(size, Chunk(size, chunkSize))
    ensures InRange(size, chunkSize) && Agree(size, chunkSize, index)
  {
    NumIsCeiling(size, chunkSize);
    hide Num, Agree;
    AgreesInRange(size, chunkSize, index);
  }

  /** Out of range: here the server does not take the last chunk for the last. A size that does
      not fit may be in range. */
  lemma LargeSizesWrap()
    ensures var size, chunkSize := TWO_63 + 1, TWO_63;
      var num := Num(size, Chunk(size, chunkSize));
      !InRange(size, chunkSize) && num == 2 && IsLast(1, num) && !ServerIsLast(1, size, chunkSize)
    ensures !Fits(TWO_63, 1) && InRange(TWO_63, 1)
  {
  }
}
