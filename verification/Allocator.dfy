/** `MemoryPoolAllocator` (allocators.h): blocks are cut from the head chunk and never
    given back one by one. */
module Allocation {
  import opened Bytes

  /** `RAPIDJSON_ALIGN`: up to the next multiple of 8. */
  function Align(n: nat): (r: nat)
    ensures n <= r < n + 8 && r % 8 == 0
  {
    (n + 7) / 8 * 8
  }

  /** A chunk without its header, which is itself a multiple of 8. */
  datatype Chunk = Chunk(capacity: nat, size: nat, data: seq<Byte>)

  /** A pointer: a chunk, counted from the bottom of the list, and an offset in it. */
  datatype Ptr = Ptr(chunk: nat, offset: nat)

  /** A block that a caller holds, with its aligned size. */
  datatype Block = Block(p: Ptr, size: nat)

  predicate Apart(a: Block, b: Block) {
    || a.p.chunk != b.p.chunk
    || a.p.offset + a.size <= b.p.offset
    || b.p.offset + b.size <= a.p.offset
  }

  predicate Inside(chunks: seq<Chunk>, b: Block) {
    b.p.chunk < |chunks| && b.p.offset % 8 == 0 && b.p.offset + b.size <= chunks[b.p.chunk].size
  }

  predicate WellFormed(c: Chunk) {
    c.size <= c.capacity == |c.data| && c.size % 8 == 0
  }

  ghost predicate Pool(chunks: seq<Chunk>, live: set<Block>) {
    && (forall k :: 0 <= k < |chunks| ==> WellFormed(chunks[k]))
    && (forall b :: b in live ==> Inside(chunks, b) && b.size > 0 && b.size % 8 == 0)
    && (forall a, b :: a in live && b in live && a != b ==> Apart(a, b))
  }

  /** The bytes of a block. */
  function BytesAt(chunks: seq<Chunk>, b: Block): Text
    requires Inside(chunks, b) && forall k :: 0 <= k < |chunks| ==> WellFormed(chunks[k])
  {
    assert WellFormed(chunks[b.p.chunk]);
    chunks[b.p.chunk].data[b.p.offset..b.p.offset + b.size]
  }

  function CapacityOf(chunks: seq<Chunk>): nat {
    if chunks == [] then 0 else CapacityOf(chunks[..|chunks| - 1]) + chunks[|chunks| - 1].capacity
  }

  function SizeOf(chunks: seq<Chunk>): nat {
    if chunks == [] then 0 else SizeOf(chunks[..|chunks| - 1]) + chunks[|chunks| - 1].size
  }

  lemma {:induction false} SizeWithinCapacity(chunks: seq<Chunk>)
    requires forall k :: 0 <= k < |chunks| ==> WellFormed(chunks[k])
    ensures SizeOf(chunks) <= CapacityOf(chunks)
    decreases |chunks|
  {
    if chunks != [] {
      SizeWithinCapacity(chunks[..|chunks| - 1]);
      assert WellFormed(chunks[|chunks| - 1]);
    }
  }

  /** Has the head chunk room for `n` more bytes? */
  predicate HasRoom(chunks: seq<Chunk>, n: nat) {
    chunks != [] && chunks[|chunks| - 1].size + n <= chunks[|chunks| - 1].capacity
  }

  /** A block of `n` bytes has been served at `p`: behind the others in the head chunk if
      there is room, or else at the beginning of one new chunk of the usual capacity or, if
      that is too small, of `n` bytes. Nothing else about the chunks has changed. */
  predicate Served(before: seq<Chunk>, after: seq<Chunk>, p: Ptr, n: nat, chunkCapacity: nat) {
    var h := |before|;
    if HasRoom(before, n) then
      && p == Ptr(h - 1, before[h - 1].size)
      && after == before[..h - 1] + [Chunk(before[h - 1].capacity, p.offset + n, before[h - 1].data)]
    else
      && p == Ptr(h, 0) && |after| == h + 1 && after[..h] == before && after[h].size == n
      && n <= after[h].capacity && chunkCapacity <= after[h].capacity
      && (after[h].capacity == n || after[h].capacity == chunkCapacity)
  }

  /** Serving a block adds its size to the bytes in use. */
  lemma ServedSize(before: seq<Chunk>, after: seq<Chunk>, p: Ptr, n: nat, chunkCapacity: nat)
    requires Served(before, after, p, n, chunkCapacity)
    ensures SizeOf(after) == SizeOf(before) + n
  {
    var h := |before|;
    if HasRoom(before, n) {
      assert after[..h - 1] == before[..h - 1];
    } else {
      assert after[..h] == before;
    }
  }

  /** Nothing that a block covers has changed between two pools. */
  ghost predicate Kept(before: seq<Chunk>, after: seq<Chunk>, b: Block) {
    && Inside(before, b) && Inside(after, b)
    && (forall k :: 0 <= k < |before| ==> WellFormed(before[k]))
    && (forall k :: 0 <= k < |after| ==> WellFormed(after[k]))
    && BytesAt(before, b) == BytesAt(after, b)
  }

  /** The pool after the head chunk has grown by a block of `n` bytes at its end. */
  lemma HeadGrown(chunks: seq<Chunk>, live: set<Block>, n: nat)
    requires Pool(chunks, live) && chunks != [] && n > 0 && n % 8 == 0
    requires var head := chunks[|chunks| - 1]; head.size + n <= head.capacity
    ensures var k := |chunks| - 1;
            var head := chunks[k];
            var after := chunks[k := head.(size := head.size + n)];
            var new_ := Block(Ptr(k, head.size), n);
            && Pool(after, live + {new_}) && new_ !in live
            && forall b :: b in live ==> Kept(chunks, after, b)
  {
    var k := |chunks| - 1;
    var head := chunks[k];
    var after := chunks[k := head.(size := head.size + n)];
    var new_ := Block(Ptr(k, head.size), n);
    assert WellFormed(head);
    forall b | b in live ensures Inside(after, b) && Apart(b, new_) && Apart(new_, b) && b != new_ {
      assert Inside(chunks, b);
    }
  }

  lemma ChunkAdded(chunks: seq<Chunk>, live: set<Block>, c: Chunk)
    requires Pool(chunks, live) && WellFormed(c)
    ensures Pool(chunks + [c], live) && forall b :: b in live ==> Kept(chunks, chunks + [c], b)
  {
    forall b | b in live ensures Kept(chunks, chunks + [c], b) {
      assert Inside(chunks, b);
    }
  }

  lemma KeptOn(a: seq<Chunk>, b: seq<Chunk>, c: seq<Chunk>, x: Block)
    requires Kept(a, b, x) && Kept(b, c, x)
    ensures Kept(a, c, x)
  {
  }

  /** Adding a chunk where there is no room, and a block at the end of the head. */
  lemma ServedHere(before: seq<Chunk>, between: seq<Chunk>, after: seq<Chunk>, n: nat, chunkCapacity: nat)
    requires if HasRoom(before, n) then between == before else
               && |between| == |before| + 1 && between[..|before|] == before && between[|before|].size == 0
               && between[|before|].capacity == if chunkCapacity > n then chunkCapacity else n
    requires var k := |between| - 1; after == between[k := between[k].(size := between[k].size + n)]
    ensures var k := |between| - 1; Served(before, after, Ptr(k, between[k].size), n, chunkCapacity)
  {
    var k := |between| - 1;
    assert after[..k] == between[..k];
    assert after == between[..k] + [after[k]];
  }

  /** Is this block the last one of the head chunk? */
  predicate IsLast(chunks: seq<Chunk>, b: Block) {
    chunks != [] && b.p.chunk == |chunks| - 1 && b.p.offset + b.size == chunks[|chunks| - 1].size
  }

  /** Do two pools differ in the bytes of their chunks only? */
  predicate SameLayout(a: seq<Chunk>, b: seq<Chunk>) {
    |a| == |b| && forall k :: 0 <= k < |a| ==> a[k].capacity == b[k].capacity && a[k].size == b[k].size
  }

  lemma {:induction false} SameSize(a: seq<Chunk>, b: seq<Chunk>)
    requires SameLayout(a, b)
    ensures SizeOf(a) == SizeOf(b)
    decreases |a|
  {
    if a != [] { SameSize(a[..|a| - 1], b[..|b| - 1]); }
  }

  /** What `Realloc` does to a block of `m` bytes that is to have `n`: it stays as it is if
      it does not grow, grows in place if it is the last one and there is room, and is
      otherwise served anew; the old bytes are not given back. */
  ghost predicate Resized(before: seq<Chunk>, after: seq<Chunk>, p: Ptr, q: Ptr, m: nat, n: nat, chunkCapacity: nat) {
    if n <= m then q == p && after == before
    else if IsLast(before, Block(p, m)) && HasRoom(before, n - m) then
      var k := |before| - 1;
      q == p && after == before[k := before[k].(size := before[k].size + (n - m))]
    else
      exists served :: Served(before, served, q, n, chunkCapacity) && SameLayout(served, after)
  }

  /** The bytes in use after `Realloc`. */
  lemma ResizedSize(before: seq<Chunk>, after: seq<Chunk>, p: Ptr, q: Ptr, m: nat, n: nat, chunkCapacity: nat)
    requires Resized(before, after, p, q, m, n, chunkCapacity)
    ensures SizeOf(after) == SizeOf(before)
              + (if n <= m then 0 else if IsLast(before, Block(p, m)) && HasRoom(before, n - m) then n - m else n)
  {
    hide Served, SameLayout;
    if n > m {
      if IsLast(before, Block(p, m)) && HasRoom(before, n - m) {
        var k := |before| - 1;
        assert after[..k] == before[..k];
      } else {
        var served :| Served(before, served, q, n, chunkCapacity) && SameLayout(served, after);
        ServedSize(before, served, q, n, chunkCapacity);
        SameSize(served, after);
      }
    }
  }

  class MemoryPoolAllocator {
    /** The list of chunks; the head, which serves allocations, is last. */
    var chunks: seq<Chunk>
    const chunkCapacity: nat
    /** Does the bottom chunk lie in a buffer of the user? */
    const userBuffer: bool
    /** The blocks that callers hold. */
    ghost var live: set<Block>

    ghost predicate Valid()
      reads this
    {
      Pool(chunks, live) && (userBuffer ==> chunks != [])
    }

    constructor (chunkSize: nat)
      ensures Valid() && live == {} && chunks == [] && !userBuffer && chunkCapacity == chunkSize
    {
      chunks, chunkCapacity, userBuffer, live := [], chunkSize, false, {};
    }

    constructor WithBuffer(buffer: seq<Byte>, chunkSize: nat)
      ensures Valid() && live == {} && userBuffer && |chunks| == 1 && chunks[0].capacity == |buffer|
    {
      chunks, chunkCapacity, userBuffer, live := [Chunk(|buffer|, 0, buffer)], chunkSize, true, {};
    }

    method Capacity() returns (capacity: nat)
      requires Valid()
      ensures capacity == CapacityOf(chunks)
    {
      capacity := 0;
      var c := |chunks|;
      assert chunks[..c] == chunks;
      while c > 0
        invariant c <= |chunks| && capacity + CapacityOf(chunks[..c]) == CapacityOf(chunks)
      {
        assert chunks[..c][..c - 1] == chunks[..c - 1];
        c := c - 1;
        capacity := capacity + chunks[c].capacity;
      }
    }

    /** The bytes in use, never more than the capacity. */
    method Size() returns (size: nat)
      requires Valid()
      ensures size == SizeOf(chunks) <= CapacityOf(chunks)
    {
      size := 0;
      var c := |chunks|;
      assert chunks[..c] == chunks;
      while c > 0
        invariant c <= |chunks| && size + SizeOf(chunks[..c]) == SizeOf(chunks)
      {
        assert chunks[..c][..c - 1] == chunks[..c - 1];
        c := c - 1;
        size := size + chunks[c].size;
      }
      SizeWithinCapacity(chunks);
    }

    /** All chunks but a buffer of the user's are freed; nobody holds a block any more. */
    method Clear()
      requires Valid()
      modifies this
      ensures Valid() && live == {} && SizeOf(chunks) == 0
      ensures if userBuffer then chunks == [old(chunks)[0].(size := 0)] else chunks == []
    {
      live := {};
      while |chunks| > (if userBuffer then 1 else 0)
        invariant Valid() && live == {} && |chunks| <= |old(chunks)| && chunks == old(chunks)[..|chunks|]
      {
        chunks := chunks[..|chunks| - 1];
      }
      if |chunks| > 0 {
        assert WellFormed(chunks[0]);
        chunks := chunks[0 := chunks[0].(size := 0)];
        assert chunks[..0] == [] && SizeOf(chunks) == SizeOf(chunks[..0]);
      }
    }

    method AddChunk(capacity: nat)
      requires Valid()
      modifies this`chunks
      ensures Valid() && |chunks| == |old(chunks)| + 1 && chunks[..|chunks| - 1] == old(chunks)
      ensures chunks[|chunks| - 1].size == 0 && chunks[|chunks| - 1].capacity == capacity
      ensures forall b :: b in live ==> Kept(old(chunks), chunks, b)
    {
      assert |seq(capacity, i => 0 as Byte)| == capacity;
      var data: seq<Byte> :| |data| == capacity;
      ChunkAdded(chunks, live, Chunk(capacity, 0, data));
      chunks := chunks + [Chunk(capacity, 0, data)];
    }

    /** A new aligned block, apart from all that are live, none of which changes. */
    method Malloc(size: nat) returns (p: Option<Ptr>)
      requires Valid()
      modifies this
      ensures Valid() && p.Some? == (size > 0)
      ensures size == 0 ==> chunks == old(chunks) && live == old(live)
      ensures size > 0 ==>
                && live == old(live) + {Block(p.value, Align(size))} && Block(p.value, Align(size)) !in old(live)
                && forall b :: b in old(live) ==> Kept(old(chunks), chunks, b)
      ensures size > 0 ==>
                Served(old(chunks), chunks, p.value, Align(size), chunkCapacity)
    {
      hide Pool, Kept, Align, Served;
      if size == 0 { return None; }
      var aligned := Align(size);
      ghost var before := chunks;
      AllKept(chunks, live);
      if |chunks| == 0 || chunks[|chunks| - 1].size + aligned > chunks[|chunks| - 1].capacity {
        AddChunk(if chunkCapacity > aligned then chunkCapacity else aligned);
      }
      ghost var between := chunks;
      var k := |chunks| - 1;
      var head := chunks[k];
      HeadGrown(chunks, live, aligned);
      p := Some(Ptr(k, head.size));
      chunks := chunks[k := head.(size := head.size + aligned)];
      forall b | b in live ensures Kept(before, chunks, b) {
        KeptOn(before, between, chunks, b);
      }
      live := live + {Block(p.value, aligned)};
      ServedHere(before, between, chunks, aligned, chunkCapacity);
    }

    /** Change one byte of a live block; no other live block changes. */
    method Write(b: Block, i: nat, c: Byte)
      requires Valid() && b in live && i < b.size
      modifies this`chunks
      ensures Valid() && BytesAt(chunks, b) == old(BytesAt(chunks, b))[i := c]
      ensures forall a :: a in live && a != b ==> Kept(old(chunks), chunks, a)
      ensures SameLayout(old(chunks), chunks)
    {
      var k := b.p.chunk;
      var chunk := chunks[k];
      assert Inside(chunks, b) && WellFormed(chunk);
      chunks := chunks[k := chunk.(data := chunk.data[b.p.offset + i := c])];
      assert forall a :: a in live ==> Inside(old(chunks), a) && Inside(chunks, a);
      forall a | a in live && a != b ensures Kept(old(chunks), chunks, a) {
        assert Apart(a, b);
      }
    }

    /** The block at `originalPtr` becomes one of `newSize` bytes with the same contents,
        where it stands or elsewhere; no other live block changes. Shrinking keeps it in
        place, and a new size of 0 gives no pointer and leaves the block as it was. */
    method Realloc(originalPtr: Option<Ptr>, originalSize: nat, newSize: nat) returns (p: Option<Ptr>)
      requires Valid()
      requires originalPtr.Some? ==> originalSize > 0 && Block(originalPtr.value, Align(originalSize)) in live
      modifies this
      ensures Valid() && p.Some? == (newSize > 0)
      ensures newSize == 0 ==> chunks == old(chunks) && live == old(live)
      ensures originalPtr.None? && newSize > 0 ==>
                live == old(live) + {Block(p.value, Align(newSize))} && Block(p.value, Align(newSize)) !in old(live)
      ensures originalPtr.Some? && newSize > 0 ==>
                var old_ := Block(originalPtr.value, Align(originalSize));
                var new_ := Block(p.value, Align(newSize));
                var n := if old_.size < new_.size then old_.size else new_.size;
                && live == old(live) - {old_} + {new_}
                && Inside(chunks, new_) && BytesAt(chunks, new_)[..n] == old(BytesAt(chunks, old_))[..n]
      ensures originalPtr.None? && newSize > 0 ==>
                Served(old(chunks), chunks, p.value, Align(newSize), chunkCapacity)
      ensures originalPtr.Some? && newSize > 0 ==>
                Resized(old(chunks), chunks, originalPtr.value, p.value, Align(originalSize), Align(newSize), chunkCapacity)
      ensures forall b :: b in old(live)
                          && (originalPtr.Some? ==> b != Block(originalPtr.value, Align(originalSize))) ==>
                Kept(old(chunks), chunks, b)
    {
      hide Kept, Served, SameLayout;
      AllKept(chunks, live);
      if originalPtr.None? {
        p := Malloc(newSize);
        return;
      }
      if newSize == 0 { return None; }
      var original, enlarged := Align(originalSize), Align(newSize);
      ghost var block := Block(originalPtr.value, original);
      if original >= enlarged {
        Shrunk(chunks, live, block, enlarged);
        live := live - {block} + {Block(originalPtr.value, enlarged)};
        return originalPtr;
      }
      var k := |chunks| - 1;
      if originalPtr.value.chunk == k && originalPtr.value.offset + original == chunks[k].size {
        var increment := enlarged - original;
        if chunks[k].size + increment <= chunks[k].capacity {
          Expanded(chunks, live, block, enlarged);
          chunks := chunks[k := chunks[k].(size := chunks[k].size + increment)];
          live := live - {block} + {Block(originalPtr.value, enlarged)};
          return originalPtr;
        }
      }
      p := Move(originalPtr.value, original, enlarged);
    }

    /** The last part of `Realloc`: a new block, and the old contents copied to it. */
    method Move(old_: Ptr, originalSize: nat, newSize: nat) returns (p: Option<Ptr>)
      requires Valid() && Block(old_, originalSize) in live && originalSize < newSize && newSize % 8 == 0
      modifies this
      ensures Valid() && p.Some?
      ensures var from, to := Block(old_, originalSize), Block(p.value, newSize);
              && live == old(live) - {from} + {to}
              && Inside(chunks, to) && BytesAt(chunks, to)[..originalSize] == old(BytesAt(chunks, from))
      ensures forall b :: b in old(live) && b != Block(old_, originalSize) ==> Kept(old(chunks), chunks, b)
      ensures exists served ::
                Served(old(chunks), served, p.value, newSize, chunkCapacity) && SameLayout(served, chunks)
    {
      hide Kept, Served;
      assert Align(newSize) == newSize;
      var from := Block(old_, originalSize);
      ghost var before, held := chunks, live;
      p := Malloc(newSize);
      var to := Block(p.value, newSize);
      ghost var between := chunks;
      assert Kept(before, chunks, from);
      KeptBytes(before, chunks, from);
      CopyBytes(from, to);
      forall b | b in held && b != from ensures Kept(before, chunks, b) {
        KeptOn(before, between, chunks, b);
      }
      Released(chunks, live, from);
      live := live - {from};
      assert Served(before, between, p.value, newSize, chunkCapacity) && SameLayout(between, chunks);
    }

    /** `memcpy` from one live block to the beginning of another. */
    method CopyBytes(from: Block, to: Block)
      requires Valid() && from in live && to in live && from != to && from.size <= to.size
      modifies this`chunks
      ensures Valid() && BytesAt(chunks, to)[..from.size] == old(BytesAt(chunks, from))
      ensures forall a :: a in live && a != to ==> Kept(old(chunks), chunks, a)
      ensures SameLayout(old(chunks), chunks)
    {
      ghost var bytes := BytesAt(chunks, from);
      AllKept(chunks, live);
      for i := 0 to from.size
        invariant Valid() && live == old(live)
        invariant forall a :: a in live && a != to ==> Kept(old(chunks), chunks, a)
        invariant BytesAt(chunks, to)[..i] == bytes[..i]
        invariant SameLayout(old(chunks), chunks)
      {
        ghost var before := chunks;
        assert Kept(old(chunks), chunks, from);
        var c := chunks[from.p.chunk].data[from.p.offset + i];
        assert c == BytesAt(chunks, from)[i];
        Write(to, i, c);
        forall a | a in live && a != to ensures Kept(old(chunks), chunks, a) {
          KeptOn(old(chunks), before, chunks, a);
        }
      }
    }
  }

  lemma KeptBytes(a: seq<Chunk>, b: seq<Chunk>, x: Block)
    requires Kept(a, b, x)
    ensures Inside(a, x) && Inside(b, x) && (forall k :: 0 <= k < |a| ==> WellFormed(a[k]))
    ensures (forall k :: 0 <= k < |b| ==> WellFormed(b[k])) && BytesAt(a, x) == BytesAt(b, x)
  {
  }

  lemma Released(chunks: seq<Chunk>, live: set<Block>, b: Block)
    requires Pool(chunks, live)
    ensures Pool(chunks, live - {b})
  {
  }

  lemma Shrunk(chunks: seq<Chunk>, live: set<Block>, b: Block, n: nat)
    requires Pool(chunks, live) && b in live && 0 < n <= b.size && n % 8 == 0
    ensures var small := Block(b.p, n);
            && Pool(chunks, live - {b} + {small}) && Inside(chunks, small) && Inside(chunks, b)
            && BytesAt(chunks, small) == BytesAt(chunks, b)[..n]
            && forall a :: a in live ==> Kept(chunks, chunks, a)
  {
    var small := Block(b.p, n);
    assert Inside(chunks, b);
    var chunk := chunks[b.p.chunk];
    assert WellFormed(chunk);
    assert chunk.data[b.p.offset..b.p.offset + b.size][..n] == chunk.data[b.p.offset..b.p.offset + n];
    AllKept(chunks, live);
    forall a | a in live && a != b ensures Apart(a, small) && Apart(small, a) {
      assert Apart(a, b);
    }
  }

  lemma Expanded(chunks: seq<Chunk>, live: set<Block>, b: Block, n: nat)
    requires Pool(chunks, live) && b in live && b.size < n && n % 8 == 0 && chunks != []
    requires var head := chunks[|chunks| - 1];
             b.p.chunk == |chunks| - 1 && b.p.offset + b.size == head.size && b.p.offset + n <= head.capacity
    ensures var k := |chunks| - 1;
            var after := chunks[k := chunks[k].(size := b.p.offset + n)];
            var large := Block(b.p, n);
            && Pool(after, live - {b} + {large}) && Inside(after, large) && Inside(chunks, b)
            && BytesAt(after, large)[..b.size] == BytesAt(chunks, b)
            && forall a :: a in live ==> Kept(chunks, after, a)
  {
    var k := |chunks| - 1;
    var after := chunks[k := chunks[k].(size := b.p.offset + n)];
    var large := Block(b.p, n);
    assert Inside(chunks, b) && WellFormed(chunks[k]);
    forall a | a in live && a != b ensures Inside(after, a) && Apart(a, large) && Apart(large, a) {
      assert Inside(chunks, a) && Apart(a, b);
    }
    forall a | a in live ensures Kept(chunks, after, a) {
      assert Inside(chunks, a);
    }
  }

  lemma AllKept(chunks: seq<Chunk>, live: set<Block>)
    requires Pool(chunks, live)
    ensures forall b :: b in live ==> Kept(chunks, chunks, b)
  {
  }
}
