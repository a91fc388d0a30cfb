/** The pool allocator: blocks cut from the head of a list of chunks, over every history of calls. */
module Allocator {
  import opened Base

  /** The chunk header, already a multiple of the alignment. */
  const HEADER: nat := 24
  const ALIGNMENT: nat := 8

  predicate Aligned(n: int) { n % ALIGNMENT == 0 }

  function Align(n: nat): (r: nat)
    ensures Aligned(r) && n <= r < n + ALIGNMENT
  {
    (n + 7) / 8 * 8
  }

  lemma AlignedSum(a: int, b: int)
    requires Aligned(a) && Aligned(b)
    ensures Aligned(a + b) && Aligned(a - b)
  {
  }

  datatype Chunk = Chunk(base: nat, capacity: nat, size: nat)

  /** Chunks, newest first; memory; and the blocks callers hold, with their sizes. */
  datatype Pool = Pool(chunks: seq<Chunk>, chunkCapacity: nat, user: Option<nat>, memory: nat -> byte, live: map<nat, nat>)

  function Contents(memory: nat -> byte, a: nat, n: nat): (r: bytes)
    ensures |r| == n
  {
    seq(n, i requires 0 <= i < n => memory(a + i))
  }

  function Start(c: Chunk): nat { c.base + HEADER }

  /** Two stretches of addresses have nothing in common. */
  predicate Apart(a: nat, n: nat, b: nat, m: nat) { a + n <= b || b + m <= a }

  predicate ChunksApart(c: Chunk, d: Chunk) {
    Apart(c.base, HEADER + c.capacity, d.base, HEADER + d.capacity)
  }

  /** The base allocator's answer: nothing, or memory that overlaps no chunk. */
  predicate FreshRegion(p: Pool, base: Option<nat>, capacity: nat) {
    base.Some? ==> forall c | c in p.chunks :: ChunksApart(Chunk(base.value, capacity, 0), c)
  }

  function NewCapacity(p: Pool, n: nat): nat {
    if p.chunkCapacity > n then p.chunkCapacity else n
  }

  predicate NeedsChunk(p: Pool, n: nat) {
    p.chunks == [] || p.chunks[0].size + n > p.chunks[0].capacity
  }

  datatype Result = Result(pool: Pool, block: Option<nat>)

  function SetHead(p: Pool, size: nat): Pool
    requires p.chunks != []
  {
    p.(chunks := p.chunks[0 := p.chunks[0].(size := size)])
  }

  /** Cut n bytes, already aligned, from the head chunk, after adding a chunk if they do not fit. */
  function Cut(p: Pool, n: nat, base: Option<nat>): Result {
    if NeedsChunk(p, n) && base.None? then Result(p, None)
    else
      var q := if NeedsChunk(p, n) then p.(chunks := [Chunk(base.value, NewCapacity(p, n), 0)] + p.chunks) else p;
      var head := q.chunks[0];
      var a := Start(head) + head.size;
      Result(SetHead(q, head.size + n).(live := q.live[a := n]), Some(a))
  }

  function Malloc(p: Pool, size: nat, base: Option<nat>): Result {
    if size == 0 then Result(p, None) else Cut(p, Align(size), base)
  }

  /** Copy a stretch of memory to another place. */
  function Copied(memory: nat -> byte, from: nat, to: nat, n: nat): nat -> byte {
    (a: nat) => if to <= a < to + n then memory(from + (a - to)) else memory(a)
  }

  function Stored(memory: nat -> byte, at: nat, value: byte): nat -> byte {
    (a: nat) => if a == at then value else memory(a)
  }

  /** The block ends where the head chunk's used part ends. */
  predicate IsLast(p: Pool, a: nat, n: nat) {
    p.chunks != [] && a + n == Start(p.chunks[0]) + p.chunks[0].size
  }

  /** Resize a block a caller holds; its size is known correctly. */
  function Realloc(p: Pool, block: Option<nat>, newSize: nat, base: Option<nat>): Result
    requires block.Some? ==> block.value in p.live
  {
    if block.None? then Malloc(p, newSize, base)
    else
      var a := block.value;
      var was, now := p.live[a], Align(newSize);
      if newSize == 0 then Result(p.(live := p.live - {a}), None)
      else if was >= now then Result(p.(live := p.live[a := now]), Some(a))
      else if IsLast(p, a, was) && p.chunks[0].size + (now - was) <= p.chunks[0].capacity then
        Result(SetHead(p, p.chunks[0].size + (now - was)).(live := p.live[a := now]), Some(a))
      else
        var r := Cut(p, now, base);
        if r.block.None? then r
        else
          Result(r.pool.(memory := Copied(r.pool.memory, a, r.block.value, was), live := r.pool.live - {a}), r.block)
  }

  /** All chunks but a user's buffer are freed; no block survives. */
  function Cleared(p: Pool): Pool {
    var keep := if p.user.Some? && p.chunks != [] then [p.chunks[|p.chunks| - 1].(size := 0)] else [];
    p.(chunks := keep, live := map[])
  }

  // ---- the invariant ----

  predicate GoodChunk(c: Chunk) { c.size <= c.capacity && Aligned(c.size) }

  predicate GoodChunks(chunks: seq<Chunk>) {
    && (forall c | c in chunks :: GoodChunk(c))
    && (forall i, j | 0 <= i < j < |chunks| :: ChunksApart(chunks[i], chunks[j]))
  }

  /** A block inside the used part of a chunk, aligned with the chunk. */
  predicate Within(c: Chunk, a: nat, n: nat) {
    && Start(c) <= a && a + n <= Start(c) + c.size
    && Aligned(a - Start(c))
  }

  predicate Placed(chunks: seq<Chunk>, a: nat, n: nat) {
    exists i | 0 <= i < |chunks| :: Within(chunks[i], a, n)
  }

  /** A user's buffer is the oldest chunk. */
  predicate UserIsLast(p: Pool) {
    p.user.Some? ==> p.chunks != [] && p.chunks[|p.chunks| - 1].base == p.user.value
  }

  ghost predicate Inv(p: Pool) {
    && GoodChunks(p.chunks)
    && UserIsLast(p)
    && (forall a | a in p.live :: p.live[a] > 0 && Aligned(p.live[a]) && Placed(p.chunks, a, p.live[a]))
    && (forall a, b | a in p.live && b in p.live && a != b :: Apart(a, p.live[a], b, p.live[b]))
  }

  /** Once a chunk is at the head, the memory behind its used part is in no block. */
  lemma HeadIsFree(p: Pool, a: nat, n: nat)
    requires Inv(p) && p.chunks != [] && a in p.live
    requires n <= p.chunks[0].capacity - p.chunks[0].size
    ensures Apart(a, p.live[a], Start(p.chunks[0]) + p.chunks[0].size, n)
  {
    hide Aligned;
    var i :| 0 <= i < |p.chunks| && Within(p.chunks[i], a, p.live[a]);
    assert GoodChunk(p.chunks[i]) by { assert p.chunks[i] in p.chunks; }
    assert GoodChunk(p.chunks[0]) by { assert p.chunks[0] in p.chunks; }
    if i > 0 {
      assert ChunksApart(p.chunks[0], p.chunks[i]);
    }
  }

  lemma AddChunkKeeps(p: Pool, base: nat, capacity: nat)
    requires Inv(p) && FreshRegion(p, Some(base), capacity)
    ensures Inv(p.(chunks := [Chunk(base, capacity, 0)] + p.chunks))
  {
    var c := Chunk(base, capacity, 0);
    var all := [c] + p.chunks;
    forall i, j | 0 <= i < j < |all| ensures ChunksApart(all[i], all[j]) {
      assert all[j] == p.chunks[j - 1];
      if i > 0 {
        assert all[i] == p.chunks[i - 1];
      } else {
        assert p.chunks[j - 1] in p.chunks;
      }
    }
    forall a | a in p.live ensures Placed(all, a, p.live[a]) {
      var i :| 0 <= i < |p.chunks| && Within(p.chunks[i], a, p.live[a]);
      assert all[i + 1] == p.chunks[i];
    }
  }

  lemma GrowHead(p: Pool, size: nat)
    requires Inv(p) && p.chunks != [] && p.chunks[0].size <= size <= p.chunks[0].capacity && Aligned(size)
    ensures Inv(SetHead(p, size))
  {
    hide Aligned;
    var q := SetHead(p, size);
    forall c | c in q.chunks ensures GoodChunk(c) {
      assert c == q.chunks[0] || c in p.chunks;
    }
    forall i, j | 0 <= i < j < |q.chunks| ensures ChunksApart(q.chunks[i], q.chunks[j]) {
      assert ChunksApart(p.chunks[i], p.chunks[j]);
    }
    forall a | a in p.live ensures Placed(q.chunks, a, p.live[a]) {
      var i :| 0 <= i < |p.chunks| && Within(p.chunks[i], a, p.live[a]);
      assert Within(q.chunks[i], a, p.live[a]);
    }
  }

  /** Taking the next n bytes of the head chunk. */
  lemma TakeFromHead(p: Pool, n: nat)
    requires Inv(p) && p.chunks != [] && n > 0 && Aligned(n) && p.chunks[0].size + n <= p.chunks[0].capacity
    ensures var a := Start(p.chunks[0]) + p.chunks[0].size;
            && Inv(SetHead(p, p.chunks[0].size + n).(live := p.live[a := n]))
            && a !in p.live
            && forall b | b in p.live :: Apart(b, p.live[b], a, n)
  {
    hide Inv, Aligned, GoodChunk, Placed;
    var head := p.chunks[0];
    GoodHead(p);
    AlignedSum(head.size, n);
    var a := Start(head) + head.size;
    AllApart(p, n);
    GrowHead(p, head.size + n);
    var q := SetHead(p, head.size + n);
    InHead(q.chunks, a, n);
    Resized(q, a, n);
  }

  lemma GoodHead(p: Pool)
    requires Inv(p) && p.chunks != []
    ensures Aligned(p.chunks[0].size)
  {
    hide Aligned;
    assert p.chunks[0] in p.chunks && GoodChunk(p.chunks[0]);
  }

  lemma InHead(chunks: seq<Chunk>, a: nat, n: nat)
    requires chunks != [] && Within(chunks[0], a, n)
    ensures Placed(chunks, a, n)
  {
  }

  lemma AllApart(p: Pool, n: nat)
    requires Inv(p) && p.chunks != [] && n > 0 && p.chunks[0].size + n <= p.chunks[0].capacity
    ensures var a := Start(p.chunks[0]) + p.chunks[0].size;
            a !in p.live && forall b | b in p.live :: Apart(b, p.live[b], a, n)
  {
    forall b | b in p.live ensures Apart(b, p.live[b], Start(p.chunks[0]) + p.chunks[0].size, n) {
      HeadIsFree(p, b, n);
    }
  }

  lemma CutKeeps(p: Pool, n: nat, base: Option<nat>)
    requires Inv(p) && n > 0 && Aligned(n) && FreshRegion(p, base, NewCapacity(p, n))
    ensures Inv(Cut(p, n, base).pool)
    ensures var r := Cut(p, n, base);
            && r.pool.memory == p.memory
            && (r.block.None? ==> r.pool == p)
            && (r.block.Some? ==>
                  && r.block.value !in p.live && r.pool.live == p.live[r.block.value := n]
                  && forall b | b in p.live :: Apart(b, p.live[b], r.block.value, n))
  {
    hide Inv;
    if !(NeedsChunk(p, n) && base.None?) {
      if NeedsChunk(p, n) {
        AddChunkKeeps(p, base.value, NewCapacity(p, n));
        TakeFromHead(p.(chunks := [Chunk(base.value, NewCapacity(p, n), 0)] + p.chunks), n);
      } else {
        TakeFromHead(p, n);
      }
    }
  }

  /**
   * A block is refused exactly if it is empty, or if there is no room in the head chunk and the base allocator has none
   * either. It comes behind the used part of the head chunk if there is room, and else at the start of a new chunk,
   * which holds at least what was asked for and at least the usual capacity.
   */
  lemma MallocExactly(p: Pool, size: nat, base: Option<nat>)
    ensures var r := Malloc(p, size, base);
            var room := p.chunks != [] && p.chunks[0].capacity - p.chunks[0].size >= Align(size);
            && (r.block.Some? <==> size > 0 && (room || base.Some?))
            && (r.block.Some? && room ==> r.block.value == Start(p.chunks[0]) + p.chunks[0].size && |r.pool.chunks| == |p.chunks|)
            && (r.block.Some? && !room ==>
                  && r.block.value == base.value + HEADER && r.pool.chunks[1..] == p.chunks
                  && r.pool.chunks[0].base == base.value && r.pool.chunks[0].size == Align(size)
                  && r.pool.chunks[0].capacity >= Align(size) && r.pool.chunks[0].capacity >= p.chunkCapacity
                  && (r.pool.chunks[0].capacity == Align(size) || r.pool.chunks[0].capacity == p.chunkCapacity))
  {
  }

  /** A block that is resized keeps its place exactly if it does not grow, or if it is the last one and there is room behind it. */
  lemma ReallocExactly(p: Pool, a: nat, newSize: nat, base: Option<nat>)
    requires Inv(p) && a in p.live && newSize > 0 && FreshRegion(p, base, NewCapacity(p, Align(newSize)))
    ensures var r := Realloc(p, Some(a), newSize, base);
            var was, now := p.live[a], Align(newSize);
            var inPlace := now <= was || (IsLast(p, a, was) && p.chunks[0].capacity - p.chunks[0].size >= now - was);
            && (inPlace ==> r.block == Some(a) && r.pool.memory == p.memory && |r.pool.chunks| == |p.chunks|)
            && (!inPlace ==> r.block == Malloc(p, newSize, base).block && r.block != Some(a))
  {
    hide Cut;
    CutKeeps(p, Align(newSize), base);
  }

  /** A new block is aligned with its chunk, inside it and apart from every block a caller holds. */
  lemma MallocKeeps(p: Pool, size: nat, base: Option<nat>)
    requires Inv(p) && FreshRegion(p, base, NewCapacity(p, Align(size)))
    ensures Inv(Malloc(p, size, base).pool) && Malloc(p, size, base).pool.memory == p.memory
    ensures var r := Malloc(p, size, base);
            && (r.block.None? ==> r.pool == p)
            && (r.block.Some? ==>
                  && r.block.value !in p.live && r.pool.live == p.live[r.block.value := Align(size)]
                  && forall b | b in p.live :: Apart(b, p.live[b], r.block.value, Align(size)))
  {
    hide Inv, Cut;
    if size > 0 {
      CutKeeps(p, Align(size), base);
    }
  }

  lemma ShrinkKeeps(p: Pool, a: nat, n: nat)
    requires Inv(p) && a in p.live && 0 < n <= p.live[a] && Aligned(n)
    ensures Inv(p.(live := p.live[a := n]))
  {
    var i :| 0 <= i < |p.chunks| && Within(p.chunks[i], a, p.live[a]);
    assert Within(p.chunks[i], a, n);
  }

  lemma DropKeeps(p: Pool, a: nat)
    requires Inv(p)
    ensures Inv(p.(live := p.live - {a}))
  {
  }

  /** The end of a block is the end of the head chunk's used part only for a block of that chunk. */
  lemma LastIsInHead(p: Pool, a: nat)
    requires Inv(p) && a in p.live && IsLast(p, a, p.live[a])
    ensures Within(p.chunks[0], a, p.live[a])
  {
    hide Aligned;
    var i :| 0 <= i < |p.chunks| && Within(p.chunks[i], a, p.live[a]);
    assert p.chunks[0] in p.chunks && p.chunks[i] in p.chunks;
    assert i == 0;
  }

  lemma ExtendedIsApart(p: Pool, a: nat, n: nat, b: nat)
    requires Inv(p) && a in p.live && b in p.live && a != b && IsLast(p, a, p.live[a]) && p.live[a] < n
    requires p.chunks[0].size + (n - p.live[a]) <= p.chunks[0].capacity
    ensures Apart(b, p.live[b], a, n)
  {
    HeadIsFree(p, b, n - p.live[a]);
    assert Apart(a, p.live[a], b, p.live[b]);
  }

  lemma ExtendKeeps(p: Pool, a: nat, n: nat)
    requires Inv(p) && a in p.live && IsLast(p, a, p.live[a]) && p.live[a] < n && Aligned(n)
    requires p.chunks[0].size + (n - p.live[a]) <= p.chunks[0].capacity
    ensures Inv(SetHead(p, p.chunks[0].size + (n - p.live[a])).(live := p.live[a := n]))
  {
    assert Aligned(p.live[a]);
    hide Inv, Aligned, GoodChunk, Placed;
    var head := p.chunks[0];
    GoodHead(p);
    AlignedSum(n, p.live[a]);
    AlignedSum(head.size, n - p.live[a]);
    var size := head.size + (n - p.live[a]);
    LastIsInHead(p, a);
    GrowHead(p, size);
    var q := SetHead(p, size);
    InHead(q.chunks, a, n);
    AllExtendedApart(p, a, n);
    Resized(q, a, n);
  }

  lemma AllExtendedApart(p: Pool, a: nat, n: nat)
    requires Inv(p) && a in p.live && IsLast(p, a, p.live[a]) && p.live[a] < n
    requires p.chunks[0].size + (n - p.live[a]) <= p.chunks[0].capacity
    ensures forall b | b in p.live && b != a :: Apart(b, p.live[b], a, n)
  {
    hide Inv;
    forall b | b in p.live && b != a ensures Apart(b, p.live[b], a, n) {
      ExtendedIsApart(p, a, n, b);
    }
  }

  /** Giving one block another size keeps the invariant if the block still has its place to itself. */
  lemma Resized(p: Pool, a: nat, n: nat)
    requires Inv(p) && n > 0 && Aligned(n) && Placed(p.chunks, a, n)
    requires forall b | b in p.live && b != a :: Apart(b, p.live[b], a, n)
    ensures Inv(p.(live := p.live[a := n]))
  {
    hide Aligned, GoodChunks, Placed;
  }

  predicate ReallocEnabled(p: Pool, block: Option<nat>, newSize: nat, base: Option<nat>) {
    && (block.Some? ==> block.value in p.live)
    && FreshRegion(p, base, NewCapacity(p, Align(newSize)))
  }

  lemma ReallocKeeps(p: Pool, block: Option<nat>, newSize: nat, base: Option<nat>)
    requires Inv(p) && ReallocEnabled(p, block, newSize, base)
    ensures Inv(Realloc(p, block, newSize, base).pool)
  {
    hide Inv, Cut, SetHead, FreshRegion;
    if block.None? {
      MallocKeeps(p, newSize, base);
    } else {
      var a := block.value;
      var was, now := p.live[a], Align(newSize);
      if newSize == 0 {
        DropKeeps(p, a);
      } else if was >= now {
        ShrinkKeeps(p, a, now);
      } else if IsLast(p, a, was) && p.chunks[0].size + (now - was) <= p.chunks[0].capacity {
        ExtendKeeps(p, a, now);
      } else {
        CutKeeps(p, now, base);
        var r := Cut(p, now, base);
        DropKeeps(r.pool, a);
        MemoryIsFree(r.pool.(live := r.pool.live - {a}), Copied(r.pool.memory, a, if r.block.Some? then r.block.value else 0, was));
      }
    }
  }

  lemma MemoryIsFree(p: Pool, memory: nat -> byte)
    requires Inv(p)
    ensures Inv(p.(memory := memory))
  {
  }

  lemma CopiedContents(memory: nat -> byte, from: nat, to: nat, n: nat)
    requires Apart(from, n, to, n)
    ensures Contents(Copied(memory, from, to, n), to, n) == Contents(memory, from, n)
  {
  }

  lemma CopiedElsewhere(memory: nat -> byte, from: nat, to: nat, n: nat, b: nat, m: nat)
    requires Apart(b, m, to, n)
    ensures Contents(Copied(memory, from, to, n), b, m) == Contents(memory, b, m)
  {
  }

  /** A resized block starts with the old contents, and no other block's contents change. */
  lemma ReallocKeepsContents(p: Pool, a: nat, newSize: nat, base: Option<nat>)
    requires Inv(p) && a in p.live && ReallocEnabled(p, Some(a), newSize, base)
    ensures var r := Realloc(p, Some(a), newSize, base);
            && (r.block.Some? ==>
                  var kept := if p.live[a] < Align(newSize) then p.live[a] else Align(newSize);
                  && r.block.value in r.pool.live && r.pool.live[r.block.value] == Align(newSize)
                  && Contents(r.pool.memory, r.block.value, kept) == Contents(p.memory, a, kept))
            && (forall b | b in p.live && b != a ::
                  b in r.pool.live && r.pool.live[b] == p.live[b]
                  && Contents(r.pool.memory, b, p.live[b]) == Contents(p.memory, b, p.live[b]))
  {
    hide Inv, Cut, Copied, Contents, FreshRegion;
    var was, now := p.live[a], Align(newSize);
    if newSize == 0 || was >= now {
    } else if IsLast(p, a, was) && p.chunks[0].size + (now - was) <= p.chunks[0].capacity {
    } else {
      CutKeeps(p, now, base);
      var r := Cut(p, now, base);
      if r.block.Some? {
        var to := r.block.value;
        CopiedContents(p.memory, a, to, was);
        forall b | b in p.live ensures Contents(Copied(p.memory, a, to, was), b, p.live[b]) == Contents(p.memory, b, p.live[b]) {
          CopiedElsewhere(p.memory, a, to, was, b, p.live[b]);
        }
      }
    }
  }

  lemma ClearKeeps(p: Pool)
    requires Inv(p)
    ensures Inv(Cleared(p))
  {
  }

  // ---- histories ----

  datatype Call =
    | CallMalloc(size: nat, base: Option<nat>)
    | CallRealloc(block: Option<nat>, newSize: nat, base: Option<nat>)
    | CallClear
    | Write(at: nat, offset: nat, value: byte)

  predicate Enabled(p: Pool, call: Call) {
    match call
    case CallMalloc(size, base) => FreshRegion(p, base, NewCapacity(p, Align(size)))
    case CallRealloc(block, newSize, base) => ReallocEnabled(p, block, newSize, base)
    case CallClear => true
    case Write(block, offset, _) => block in p.live && offset < p.live[block]
  }

  function Apply(p: Pool, call: Call): Pool
    requires Enabled(p, call)
  {
    match call
    case CallMalloc(size, base) => Malloc(p, size, base).pool
    case CallRealloc(block, newSize, base) => Realloc(p, block, newSize, base).pool
    case CallClear => Cleared(p)
    case Write(block, offset, value) => p.(memory := Stored(p.memory, block + offset, value))
  }

  /** A new pool: no chunk, or a user's buffer as the first one. */
  predicate Init(p: Pool) {
    && p.live == map[]
    && ((p.chunks == [] && p.user.None?) || (|p.chunks| == 1 && p.chunks[0].size == 0 && p.user == Some(p.chunks[0].base)))
  }

  ghost predicate IsHistory(pools: seq<Pool>, calls: seq<Call>) {
    && |pools| == |calls| + 1
    && Init(pools[0])
    && forall i | 0 <= i < |calls| :: Enabled(pools[i], calls[i]) && pools[i + 1] == Apply(pools[i], calls[i])
  }

  lemma CallKeepsInv(p: Pool, call: Call)
    requires Inv(p) && Enabled(p, call)
    ensures Inv(Apply(p, call))
  {
    hide Inv, Malloc, Realloc, Cleared;
    match call
    case CallMalloc(size, base) => MallocKeeps(p, size, base);
    case CallRealloc(block, newSize, base) => ReallocKeeps(p, block, newSize, base);
    case CallClear => ClearKeeps(p);
    case Write(block, offset, value) => MemoryIsFree(p, Stored(p.memory, block + offset, value));
  }

  /** In every history the blocks are aligned, apart and inside the used part of a chunk. */
  lemma {:induction false} HistoriesAreGood(pools: seq<Pool>, calls: seq<Call>, n: nat)
    requires IsHistory(pools, calls) && n < |pools|
    ensures Inv(pools[n])
    decreases n
  {
    hide Apply, Enabled;
    if n > 0 {
      hide Inv;
      HistoriesAreGood(pools, calls, n - 1);
      CallKeepsInv(pools[n - 1], calls[n - 1]);
    }
  }

  /** The settings of a pool, and the base and capacity of the oldest chunk if it is a user's buffer. */
  predicate SameOwner(p: Pool, q: Pool) {
    && q.user == p.user && q.chunkCapacity == p.chunkCapacity
    && (p.user.Some? ==>
          && p.chunks != [] && q.chunks != []
          && q.chunks[|q.chunks| - 1].base == p.chunks[|p.chunks| - 1].base
          && q.chunks[|q.chunks| - 1].capacity == p.chunks[|p.chunks| - 1].capacity)
  }

  lemma CutKeepsOwner(p: Pool, n: nat, base: Option<nat>)
    requires p.user.Some? ==> p.chunks != []
    ensures SameOwner(p, Cut(p, n, base).pool)
  {
    hide Start, NewCapacity;
  }

  lemma ReallocKeepsOwner(p: Pool, block: Option<nat>, newSize: nat, base: Option<nat>)
    requires (p.user.Some? ==> p.chunks != []) && (block.Some? ==> block.value in p.live)
    ensures SameOwner(p, Realloc(p, block, newSize, base).pool)
  {
    hide Cut, Copied;
    CutKeepsOwner(p, Align(newSize), base);
  }

  lemma CallKeepsOwner(p: Pool, call: Call)
    requires UserIsLast(p) && Enabled(p, call)
    ensures SameOwner(p, Apply(p, call))
  {
    hide Cut, Realloc, Stored, FreshRegion;
    match call
    case CallMalloc(size, base) => CutKeepsOwner(p, Align(size), base);
    case CallRealloc(block, newSize, base) => ReallocKeepsOwner(p, block, newSize, base);
    case _ =>
  }

  lemma {:induction false} HistoryKeepsOwner(pools: seq<Pool>, calls: seq<Call>, n: nat)
    requires IsHistory(pools, calls) && n < |pools|
    ensures SameOwner(pools[0], pools[n])
    decreases n
  {
    hide Enabled, Apply;
    if n > 0 {
      HistoryKeepsOwner(pools, calls, n - 1);
      HistoriesAreGood(pools, calls, n - 1);
      HistoryGoesOn(pools, calls, n - 1);
      CallKeepsOwner(pools[n - 1], calls[n - 1]);
    }
  }

  /** In every history Clear leads back to the pool at the start, but for what was written into memory. */
  lemma ClearStartsOver(pools: seq<Pool>, calls: seq<Call>, n: nat)
    requires IsHistory(pools, calls) && n < |calls| && calls[n].CallClear?
    ensures pools[n + 1] == pools[0].(memory := pools[n].memory)
  {
    HistoryKeepsOwner(pools, calls, n);
    HistoryGoesOn(pools, calls, n);
    hide Enabled;
    var first := pools[0];
    assert first.user.Some? ==> first.chunks == [first.chunks[0]];
  }

  /** In chunks that start at aligned addresses, so do the blocks. */
  lemma BlocksAreAligned(p: Pool, a: nat)
    requires Inv(p) && a in p.live && forall c | c in p.chunks :: Aligned(c.base)
    ensures Aligned(a)
  {
    hide Aligned;
    var i :| 0 <= i < |p.chunks| && Within(p.chunks[i], a, p.live[a]);
    var c := p.chunks[i];
    assert c in p.chunks;
    AlignedSum(c.base, a - Start(c));
    assert Aligned(HEADER) by { HeaderIsAligned(); }
    AlignedSum(a - HEADER, HEADER);
  }

  lemma HeaderIsAligned()
    ensures Aligned(HEADER)
  {
  }

  function TotalSize(chunks: seq<Chunk>): nat {
    if chunks == [] then 0 else chunks[0].size + TotalSize(chunks[1..])
  }

  function TotalCapacity(chunks: seq<Chunk>): nat {
    if chunks == [] then 0 else chunks[0].capacity + TotalCapacity(chunks[1..])
  }

  /** The used size never exceeds the capacity. */
  lemma {:induction false} SizeWithinCapacity(chunks: seq<Chunk>)
    requires forall c | c in chunks :: GoodChunk(c)
    ensures TotalSize(chunks) <= TotalCapacity(chunks)
    decreases |chunks|
  {
    if chunks != [] {
      assert chunks[0] in chunks;
      SizeWithinCapacity(chunks[1..]);
    }
  }

  /** In every history the used size is within the capacity. */
  lemma UsedWithinCapacity(pools: seq<Pool>, calls: seq<Call>, n: nat)
    requires IsHistory(pools, calls) && n < |pools|
    ensures TotalSize(pools[n].chunks) <= TotalCapacity(pools[n].chunks)
  {
    HistoriesAreGood(pools, calls, n);
    SizeWithinCapacity(pools[n].chunks);
  }

  /** The calls that are about a block: writes to it, a Realloc of it, and Clear. */
  predicate Concerns(call: Call, a: nat) {
    call.CallClear? || (call.CallRealloc? && call.block == Some(a)) || (call.Write? && call.at == a)
  }

  predicate SameBlock(p: Pool, q: Pool, a: nat) {
    && a in p.live && a in q.live && q.live[a] == p.live[a]
    && Contents(q.memory, a, p.live[a]) == Contents(p.memory, a, p.live[a])
  }

  lemma StoredElsewhere(memory: nat -> byte, at: nat, value: byte, a: nat, n: nat)
    requires Apart(a, n, at, 1)
    ensures Contents(Stored(memory, at, value), a, n) == Contents(memory, a, n)
  {
  }

  lemma OtherCallsKeepBlock(p: Pool, call: Call, a: nat)
    requires Inv(p) && Enabled(p, call) && a in p.live && !Concerns(call, a)
    ensures SameBlock(p, Apply(p, call), a)
  {
    hide Contents, Malloc, Realloc, Stored, FreshRegion;
    match call
    case CallMalloc(size, base) =>
      hide Inv;
      MallocKeeps(p, size, base);
    case CallRealloc(block, newSize, base) =>
      hide Inv;
      if block.None? {
        MallocKeeps(p, newSize, base);
        ReallocOfNothing(p, newSize, base);
      } else {
        ReallocKeepsContents(p, block.value, newSize, base);
      }
    case Write(b, offset, value) =>
      assert Apart(a, p.live[a], b, p.live[b]);
      StoredElsewhere(p.memory, b + offset, value, a, p.live[a]);
  }

  lemma ReallocOfNothing(p: Pool, newSize: nat, base: Option<nat>)
    ensures Realloc(p, None, newSize, base) == Malloc(p, newSize, base)
  {
  }

  /** In every history: a block keeps its place, its size and its contents until a call is about it. */
  lemma {:induction false} BlocksAreKept(pools: seq<Pool>, calls: seq<Call>, i: nat, n: nat, a: nat)
    requires IsHistory(pools, calls) && i <= n < |pools| && a in pools[i].live
    requires forall j | i <= j < n :: !Concerns(calls[j], a)
    ensures SameBlock(pools[i], pools[n], a)
    decreases n
  {
    hide Inv, Apply, Enabled, Concerns, Contents;
    if n > i {
      HistoryGoesOn(pools, calls, n - 1);
      HistoriesAreGood(pools, calls, n - 1);
      BlocksAreKept(pools, calls, i, n - 1, a);
      OtherCallsKeepBlock(pools[n - 1], calls[n - 1], a);
      hide IsHistory, SameBlock;
      StillSame(pools[i], pools[n - 1], pools[n], a);
    }
  }

  lemma HistoryGoesOn(pools: seq<Pool>, calls: seq<Call>, n: nat)
    requires IsHistory(pools, calls) && n < |calls|
    ensures Enabled(pools[n], calls[n]) && pools[n + 1] == Apply(pools[n], calls[n])
  {
    hide Apply, Enabled;
  }

  lemma StillSame(p: Pool, q: Pool, r: Pool, a: nat)
    requires SameBlock(p, q, a) && SameBlock(q, r, a)
    ensures SameBlock(p, r, a)
  {
    hide Contents;
  }

  // ---- the object ----

  class MemoryPoolAllocator {
    var pool: Pool

    constructor (chunkCapacity: nat)
      ensures Init(pool) && Inv(pool) && pool.chunkCapacity == chunkCapacity
    {
      pool := Pool([], chunkCapacity, None, (_: nat) => 0, map[]);
    }

    /** With a user's buffer as the first chunk. */
    constructor WithBuffer(buffer: nat, size: nat, chunkCapacity: nat)
      requires size > HEADER
      ensures Init(pool) && Inv(pool) && pool.chunkCapacity == chunkCapacity && pool.user == Some(buffer)
    {
      pool := Pool([Chunk(buffer, size - HEADER, 0)], chunkCapacity, Some(buffer), (_: nat) => 0, map[]);
    }

    method AddChunk(base: Option<nat>, capacity: nat) returns (ok: bool)
      requires Inv(pool) && FreshRegion(pool, base, capacity)
      modifies this
      ensures ok == base.Some? && Inv(pool)
      ensures pool == if ok then old(pool).(chunks := [Chunk(base.value, capacity, 0)] + old(pool).chunks) else old(pool)
    {
      if base.None? {
        return false;
      }
      AddChunkKeeps(pool, base.value, capacity);
      pool := pool.(chunks := [Chunk(base.value, capacity, 0)] + pool.chunks);
      return true;
    }

    /** `base` is what the base allocator answers if a chunk is needed. */
    method Allocate(size: nat, base: Option<nat>) returns (block: Option<nat>)
      requires Inv(pool) && FreshRegion(pool, base, NewCapacity(pool, Align(size)))
      modifies this
      ensures Result(pool, block) == Malloc(old(pool), size, base) && Inv(pool)
    {
      hide Inv;
      MallocKeeps(pool, size, base);
      if size == 0 {
        return None;
      }
      var n := Align(size);
      if NeedsChunk(pool, n) {
        var ok := AddChunk(base, NewCapacity(pool, n));
        if !ok {
          return None;
        }
      }
      var head := pool.chunks[0];
      var a := Start(head) + head.size;
      pool := SetHead(pool, head.size + n).(live := pool.live[a := n]);
      return Some(a);
    }

    method Reallocate(block: Option<nat>, newSize: nat, base: Option<nat>) returns (r: Option<nat>)
      requires Inv(pool) && ReallocEnabled(pool, block, newSize, base)
      modifies this
      ensures Result(pool, r) == Realloc(old(pool), block, newSize, base) && Inv(pool)
    {
      hide Inv, Copied;
      ReallocKeeps(pool, block, newSize, base);
      if block.None? {
        r := Allocate(newSize, base);
        return;
      }
      var a := block.value;
      var oldSize, n := pool.live[a], Align(newSize);
      if newSize == 0 {
        pool := pool.(live := pool.live - {a});
        return None;
      }
      if oldSize >= n {
        pool := pool.(live := pool.live[a := n]);
        return Some(a);
      }
      if pool.chunks != [] && a + oldSize == Start(pool.chunks[0]) + pool.chunks[0].size {
        var increment := n - oldSize;
        if pool.chunks[0].size + increment <= pool.chunks[0].capacity {
          pool := SetHead(pool, pool.chunks[0].size + increment).(live := pool.live[a := n]);
          return Some(a);
        }
      }
      assert Align(n) == n;
      r := Allocate(n, base);
      if r.Some? {
        pool := pool.(memory := Copied(pool.memory, a, r.value, oldSize), live := pool.live - {a});
      }
    }

    method Clear()
      requires Inv(pool)
      modifies this
      ensures pool == Cleared(old(pool)) && Inv(pool)
    {
      ClearKeeps(pool);
      var all, chunks := pool.chunks, pool.chunks;
      while chunks != [] && pool.user != Some(chunks[0].base)
        invariant |chunks| <= |all| && chunks == all[|all| - |chunks|..] && pool == old(pool) && all == pool.chunks
        invariant pool.user.Some? ==> chunks != []
        decreases |chunks|
      {
        assert |chunks| == 1 ==> chunks[0] == all[|all| - 1];
        chunks := chunks[1..];
      }
      if chunks != [] {
        assert |chunks| == 1;
        chunks := [chunks[0].(size := 0)];
      }
      pool := pool.(chunks := chunks, live := map[]);
    }

    method Size() returns (size: nat)
      ensures size == TotalSize(pool.chunks)
    {
      size := 0;
      var c := pool.chunks;
      while c != []
        invariant size + TotalSize(c) == TotalSize(pool.chunks)
        decreases |c|
      {
        size := size + c[0].size;
        c := c[1..];
      }
    }

    method Capacity() returns (capacity: nat)
      ensures capacity == TotalCapacity(pool.chunks)
    {
      capacity := 0;
      var c := pool.chunks;
      while c != []
        invariant capacity + TotalCapacity(c) == TotalCapacity(pool.chunks)
        decreases |c|
      {
        capacity := capacity + c[0].capacity;
        c := c[1..];
      }
    }
  }
}
