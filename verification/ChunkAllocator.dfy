/**
 The bump allocator under the JSON trees: a list of chunks, of which the first serves all
 requests.  Addresses are numbers; sizes are 64 bits wide and wrap.  The base allocator is a
 parameter: what it returns for a request, if anything.
 */
module ChunkAllocator {
  import opened ByteStrings

  const SIZES: nat := 0x1_0000_0000_0000_0000
  const HEADER: nat := 24

  function Wrap(x: int): nat { x % SIZES }

  /** RAPIDJSON_ALIGN. */
  function Align(x: nat): nat { Wrap(x + 7) / 8 * 8 }

  /** `length` is what the base allocator gave: header and data. */
  datatype Chunk = Chunk(base: nat, length: nat, capacity: nat, size: nat)

  function Data(c: Chunk): nat { c.base + HEADER }
  function Top(c: Chunk): nat { Data(c) + c.size }

  /** The newest chunk comes first; a user buffer, if there is one, is the last. */
  datatype Arena = Arena(chunks: seq<Chunk>, chunkCapacity: nat, userBuffer: bool)

  /** A block that was handed out. */
  datatype Block = Block(at: nat, length: nat)

  // ---- The operations ----

  function AddChunk(a: Arena, capacity: nat, given: Option<nat>): Option<Arena>
  {
    match given
    case None => None
    case Some(base) => Some(a.(chunks := [Chunk(base, Wrap(HEADER + capacity), capacity, 0)] + a.chunks))
  }

  function Bump(a: Arena, size: nat): Arena
    requires a.chunks != []
  {
    a.(chunks := [a.chunks[0].(size := Wrap(a.chunks[0].size + size))] + a.chunks[1..])
  }

  datatype Result = Result(arena: Arena, at: Option<nat>)

  /** The chunk that a new request asks for. */
  function ChunkFor(a: Arena, aligned: nat): nat { if a.chunkCapacity > aligned then a.chunkCapacity else aligned }

  predicate NeedsChunk(a: Arena, aligned: nat)
  {
    a.chunks == [] || Wrap(a.chunks[0].size + aligned) > a.chunks[0].capacity
  }

  function Malloc(a: Arena, size: nat, given: Option<nat>): Result
  {
    var aligned := Align(size);
    if size == 0 then Result(a, None)
    else
      match if NeedsChunk(a, aligned) then AddChunk(a, ChunkFor(a, aligned), given) else Some(a)
      case None => Result(a, None)
      case Some(b) => if b.chunks == [] then Result(a, None) else Result(Bump(b, aligned), Some(Top(b.chunks[0])))
  }

  /** The last allocation can grow where it is. */
  predicate GrowsInPlace(a: Arena, p: nat, originalSize: nat, newSize: nat)
  {
    && a.chunks != [] && p + Align(originalSize) == Top(a.chunks[0])
    && Wrap(a.chunks[0].size + (Align(newSize) - Align(originalSize))) <= a.chunks[0].capacity
  }

  function Realloc(a: Arena, original: Option<nat>, originalSize: nat, newSize: nat, given: Option<nat>): Result
  {
    match original
    case None => Malloc(a, newSize, given)
    case Some(p) =>
      if newSize == 0 then Result(a, None)
      else if Align(originalSize) >= Align(newSize) then Result(a, original)
      else if GrowsInPlace(a, p, originalSize, newSize) then Result(Bump(a, Align(newSize) - Align(originalSize)), original)
      else Malloc(a, Align(newSize), given)
  }

  // ---- Soundness ----

  predicate Aligned(x: nat) { x % 8 == 0 }

  lemma AlignedSum(x: nat, y: nat)
    requires Aligned(x) && Aligned(y)
    ensures Aligned(x + y) && Aligned(HEADER) && (x >= y ==> Aligned(x - y))
  {
  }

  predicate Apart(b1: nat, l1: nat, b2: nat, l2: nat) { b1 + l1 <= b2 || b2 + l2 <= b1 }

  predicate SoundChunk(c: Chunk)
  {
    c.size <= c.capacity && HEADER + c.capacity <= c.length < SIZES && Aligned(c.base) && Aligned(c.size)
  }

  /** Chunks hold what they were given, and do not overlap. */
  predicate Sound(a: Arena)
  {
    && (forall i :: 0 <= i < |a.chunks| ==> SoundChunk(a.chunks[i]))
    && (forall i, j :: 0 <= i < j < |a.chunks| ==>
          Apart(a.chunks[i].base, a.chunks[i].length, a.chunks[j].base, a.chunks[j].length))
  }

  /** The block lies in the used part of a chunk. */
  predicate Inside(c: Chunk, b: Block) { Data(c) <= b.at && b.at + b.length <= Top(c) }

  predicate Held(a: Arena, b: Block) { exists c <- a.chunks :: Inside(c, b) }

  /** All blocks are held, aligned, and apart from each other. */
  predicate SoundBlocks(a: Arena, blocks: seq<Block>)
  {
    && (forall b <- blocks :: Held(a, b) && Aligned(b.at) && Aligned(b.length) && b.length > 0)
    && (forall i, j :: 0 <= i < j < |blocks| ==> Apart(blocks[i].at, blocks[i].length, blocks[j].at, blocks[j].length))
  }

  /** What the base allocator promises: memory of its own, aligned. */
  predicate GivenOk(a: Arena, given: Option<nat>, length: nat)
  {
    given.Some? ==>
      && Aligned(given.value) && length < SIZES
      && forall i :: 0 <= i < |a.chunks| ==> Apart(given.value, length, a.chunks[i].base, a.chunks[i].length)
  }

  /** No sum in Malloc wraps. */
  predicate NoWrap(a: Arena, size: nat)
  {
    && size <= SIZES - 8
    && (a.chunks != [] ==> a.chunks[0].size + Align(size) < SIZES)
    && (NeedsChunk(a, Align(size)) ==> HEADER + ChunkFor(a, Align(size)) < SIZES)
  }

  lemma AlignUp(x: nat)
    requires x <= SIZES - 8
    ensures x <= Align(x) < x + 8 && Aligned(Align(x)) && Align(x) <= SIZES - 8
  {
  }

  lemma AddSound(a: Arena, blocks: seq<Block>, capacity: nat, given: Option<nat>)
    requires Sound(a) && SoundBlocks(a, blocks) && given.Some? && HEADER + capacity < SIZES
    requires GivenOk(a, given, HEADER + capacity)
    ensures var b := AddChunk(a, capacity, given).value;
            Sound(b) && SoundBlocks(b, blocks) && b.chunks != [] && b.chunks[0].size == 0 && b.chunks[0].capacity == capacity
  {
    var b := AddChunk(a, capacity, given).value;
    assert forall i :: 1 <= i < |b.chunks| ==> b.chunks[i] == a.chunks[i - 1];
    forall x <- blocks
      ensures Held(b, x)
    {
      assert Held(a, x);
      var c :| c in a.chunks && Inside(c, x);
      assert c in b.chunks;
    }
  }

  /** A block in another chunk, or before the top of this one, is apart from the space above
      the top. */
  lemma ApartFromTop(a: Arena, x: Block, n: nat)
    requires Sound(a) && a.chunks != [] && Held(a, x) && a.chunks[0].size + n <= a.chunks[0].capacity
    ensures Apart(x.at, x.length, Top(a.chunks[0]), n)
  {
    var c :| c in a.chunks && Inside(c, x);
    var i :| 0 <= i < |a.chunks| && a.chunks[i] == c;
    assert SoundChunk(a.chunks[i]) && SoundChunk(a.chunks[0]);
    if i > 0 {
      assert Apart(a.chunks[0].base, a.chunks[0].length, a.chunks[i].base, a.chunks[i].length);
    }
  }

  lemma BumpSound(a: Arena, blocks: seq<Block>, n: nat)
    requires Sound(a) && SoundBlocks(a, blocks) && a.chunks != []
    requires a.chunks[0].size + n <= a.chunks[0].capacity && Aligned(n)
    ensures Sound(Bump(a, n)) && SoundBlocks(Bump(a, n), blocks)
    ensures n > 0 ==> SoundBlocks(Bump(a, n), blocks + [Block(Top(a.chunks[0]), n)])
  {
    hide Apart, Aligned;
    var b, head := Bump(a, n), a.chunks[0];
    var above := Block(Top(head), n);
    BumpChunks(a, n);
    forall x <- blocks
      ensures Held(b, x) && Apart(x.at, x.length, above.at, above.length)
    {
      assert Held(a, x);
      StillHeld(a, n, x);
      ApartFromTop(a, x, n);
    }
    assert SoundChunk(head) && b.chunks[0] == head.(size := head.size + n);
    AlignedSum(head.base, head.size);
    AlignedSum(head.base + head.size, HEADER);
    if n > 0 {
      assert Inside(b.chunks[0], above) && Held(b, above);
      OneMore(b, blocks, above);
    }
  }

  lemma BumpChunks(a: Arena, n: nat)
    requires Sound(a) && a.chunks != [] && a.chunks[0].size + n <= a.chunks[0].capacity && Aligned(n)
    ensures Sound(Bump(a, n)) && a.chunks[0].size + n < SIZES
  {
    hide Aligned, Apart;
    var b := Bump(a, n);
    assert SoundChunk(a.chunks[0]);
    AlignedSum(a.chunks[0].size, n);
    assert forall i :: 1 <= i < |b.chunks| ==> b.chunks[i] == a.chunks[i];
    assert b.chunks[0] == a.chunks[0].(size := a.chunks[0].size + n);
  }

  lemma OneMore(a: Arena, blocks: seq<Block>, x: Block)
    requires SoundBlocks(a, blocks) && Held(a, x) && Aligned(x.at) && Aligned(x.length) && x.length > 0
    requires forall b <- blocks :: Apart(b.at, b.length, x.at, x.length)
    ensures SoundBlocks(a, blocks + [x])
  {
    hide Held, Apart, Aligned;
  }

  lemma StillHeld(a: Arena, n: nat, x: Block)
    requires a.chunks != [] && Held(a, x) && a.chunks[0].size + n < SIZES
    ensures Held(Bump(a, n), x)
  {
    var c :| c in a.chunks && Inside(c, x);
    var b := Bump(a, n);
    if c == a.chunks[0] {
      assert Inside(b.chunks[0], x);
    } else {
      assert c in a.chunks[1..];
      assert c in b.chunks;
    }
  }

  /** Where no sum wraps, Malloc keeps all blocks, and its own is aligned, held and apart from
      them; if it returns null, nothing changed. */
  lemma MallocSound(a: Arena, blocks: seq<Block>, size: nat, given: Option<nat>)
    requires Sound(a) && SoundBlocks(a, blocks) && NoWrap(a, size)
    requires GivenOk(a, given, Wrap(HEADER + ChunkFor(a, Align(size))))
    ensures var r := Malloc(a, size, given);
            && Sound(r.arena)
            && (r.at.None? ==> r.arena == a && (size == 0 || (given.None? && NeedsChunk(a, Align(size)))))
            && (r.at.Some? ==> size <= Align(size) && SoundBlocks(r.arena, blocks + [Block(r.at.value, Align(size))]))
  {
    var aligned := Align(size);
    AlignUp(size);
    if size > 0 {
      if NeedsChunk(a, aligned) {
        if given.Some? {
          AddSound(a, blocks, ChunkFor(a, aligned), given);
          BumpSound(AddChunk(a, ChunkFor(a, aligned), given).value, blocks, aligned);
        }
      } else {
        BumpSound(a, blocks, aligned);
      }
    }
  }

  /** A returned pointer is good exactly if no sum wrapped: otherwise the bytes asked for are
      not in the used part of any chunk, or a chunk is larger than its memory. */
  lemma MallocExact(a: Arena, size: nat, given: Option<nat>)
    requires Sound(a) && size > 0 && size < SIZES && Malloc(a, size, given).at.Some?
    requires GivenOk(a, given, Wrap(HEADER + ChunkFor(a, Align(size))))
    ensures var r := Malloc(a, size, given);
            Sound(r.arena) && Held(r.arena, Block(r.at.value, size)) <==> NoWrap(a, size)
  {
    var r := Malloc(a, size, given);
    var aligned := Align(size);
    if NoWrap(a, size) {
      MallocSound(a, [], size, given);
      var b := Block(r.at.value, aligned);
      assert b in [] + [b] && Held(r.arena, b);
      var c :| c in r.arena.chunks && Inside(c, b);
      assert Inside(c, Block(r.at.value, size));
    } else if Sound(r.arena) {
      var before := if NeedsChunk(a, aligned) then AddChunk(a, ChunkFor(a, aligned), given).value else a;
      assert r.arena == Bump(before, aligned) && SoundChunk(r.arena.chunks[0]);
      if !NeedsChunk(a, aligned) {
        assert SoundChunk(a.chunks[0]);
      } else if a.chunks != [] {
        assert SoundChunk(a.chunks[0]) && a.chunks[0].size + aligned < SIZES;
      }
      NotHeld(before, size);
    }
  }

  /** For example the largest size there is: it is aligned to 0, so that the pointer returned
      is the top of the chunk, which does not move. */
  lemma LargestSize(a: Arena, given: Option<nat>)
    requires Sound(a) && a.chunks != []
    ensures var r := Malloc(a, SIZES - 1, given);
            r == Result(a, Some(Top(a.chunks[0]))) && !Held(r.arena, Block(r.at.value, SIZES - 1))
  {
    var c := a.chunks[0];
    assert SoundChunk(c) && Align(SIZES - 1) == 0;
    assert [c] + a.chunks[1..] == a.chunks && c.(size := Wrap(c.size + 0)) == c;
    NotHeld(a, SIZES - 1);
  }

  lemma NotHeld(a: Arena, size: nat)
    requires a.chunks != [] && 0 < size < SIZES && Sound(Bump(a, Align(size)))
    requires a.chunks[0].size <= a.chunks[0].capacity < SIZES
    requires size > SIZES - 8 || a.chunks[0].size + Align(size) >= SIZES
    ensures !Held(Bump(a, Align(size)), Block(Top(a.chunks[0]), size))
  {
    var b, x := Bump(a, Align(size)), Block(Top(a.chunks[0]), size);
    forall c <- b.chunks
      ensures !Inside(c, x)
    {
      var i :| 0 <= i < |b.chunks| && b.chunks[i] == c;
      assert SoundChunk(b.chunks[i]) && SoundChunk(b.chunks[0]);
      if i > 0 {
        assert Apart(b.chunks[0].base, b.chunks[0].length, b.chunks[i].base, b.chunks[i].length);
      }
    }
  }

  /** A new chunk has room for more: a further request that fits the chunk capacity together with
      the first one needs no other chunk. */
  lemma ChunkLasts(a: Arena, size: nat, more: nat, given: Option<nat>)
    requires 0 < size < SIZES && NeedsChunk(a, Align(size)) && given.Some? && a.chunkCapacity < SIZES
    requires more < SIZES && Align(size) + Align(more) <= a.chunkCapacity
    ensures var b := Malloc(a, size, given).arena;
            && |b.chunks| == |a.chunks| + 1 && b.chunks[1..] == a.chunks && b.chunks[0].capacity == a.chunkCapacity
            && !NeedsChunk(b, Align(more)) && (more > 0 ==> |Malloc(b, more, None).arena.chunks| == |b.chunks|)
  {
    hide Align;
    var chunk := Chunk(given.value, Wrap(HEADER + a.chunkCapacity), a.chunkCapacity, 0);
    assert ([chunk] + a.chunks)[1..] == a.chunks;
  }

  // ---- Realloc ----

  /** The blocks after a call of Realloc on the `k`-th of them. */
  function BlocksAfter(a: Arena, blocks: seq<Block>, k: nat, originalSize: nat, newSize: nat, r: Result): seq<Block>
    requires k < |blocks|
  {
    if r.at.None? || Align(originalSize) >= Align(newSize) then blocks
    else if GrowsInPlace(a, blocks[k].at, originalSize, newSize) then blocks[k := Block(blocks[k].at, Align(newSize))]
    else blocks + [Block(r.at.value, Align(newSize))]
  }

  /** The block that ends at the top is as long as it says. */
  lemma LastBlock(a: Arena, x: Block, n: nat)
    requires Sound(a) && a.chunks != [] && Held(a, x) && n <= x.length && x.length > 0 && x.at + n == Top(a.chunks[0])
    ensures n == x.length && Inside(a.chunks[0], x)
  {
    var c :| c in a.chunks && Inside(c, x);
    var i :| 0 <= i < |a.chunks| && a.chunks[i] == c;
    assert SoundChunk(a.chunks[i]) && SoundChunk(a.chunks[0]);
    assert i > 0 ==> Apart(a.chunks[0].base, a.chunks[0].length, a.chunks[i].base, a.chunks[i].length);
  }

  lemma GrowSound(a: Arena, blocks: seq<Block>, k: nat, originalSize: nat, newSize: nat)
    requires Sound(a) && SoundBlocks(a, blocks) && k < |blocks| && Align(originalSize) <= blocks[k].length
    requires originalSize <= SIZES - 8 && newSize <= SIZES - 8 && Align(originalSize) < Align(newSize)
    requires GrowsInPlace(a, blocks[k].at, originalSize, newSize)
    requires a.chunks[0].size + (Align(newSize) - Align(originalSize)) < SIZES
    ensures var b := Bump(a, Align(newSize) - Align(originalSize));
            Sound(b) && SoundBlocks(b, blocks[k := Block(blocks[k].at, Align(newSize))])
  {
    hide Align, Aligned;
    AlignUp(originalSize);
    AlignUp(newSize);
    AlignedSum(Align(newSize), Align(originalSize));
    var last, grown := blocks[k], Block(blocks[k].at, Align(newSize));
    var n := Align(newSize) - Align(originalSize);
    var b, all := Bump(a, n), blocks[k := grown];
    assert last in blocks;
    LastBlock(a, last, Align(originalSize));
    BumpSound(a, blocks, n);
    assert Inside(b.chunks[0], grown) && Held(b, grown);
    forall i | 0 <= i < |blocks| && i != k
      ensures Apart(blocks[i].at, blocks[i].length, grown.at, grown.length)
    {
      assert blocks[i] in blocks;
      ApartFromTop(a, blocks[i], n);
      assert if i < k then Apart(blocks[i].at, blocks[i].length, last.at, last.length)
             else Apart(last.at, last.length, blocks[i].at, blocks[i].length);
    }
    OneChanged(b, blocks, k, grown);
  }

  lemma OneChanged(a: Arena, blocks: seq<Block>, k: nat, x: Block)
    requires SoundBlocks(a, blocks) && k < |blocks| && Held(a, x) && Aligned(x.at) && Aligned(x.length) && x.length > 0
    requires forall i | 0 <= i < |blocks| && i != k :: Apart(blocks[i].at, blocks[i].length, x.at, x.length)
    ensures SoundBlocks(a, blocks[k := x])
  {
    hide Held, Aligned;
    var all := blocks[k := x];
    forall b <- all
      ensures Held(a, b) && Aligned(b.at) && Aligned(b.length) && b.length > 0
    {
      var i :| 0 <= i < |all| && all[i] == b;
      assert i != k ==> b == blocks[i] && b in blocks;
    }
  }

  /** Realloc has to find more room. */
  predicate Grows(originalSize: nat, newSize: nat) { newSize > 0 && Align(originalSize) < Align(newSize) }

  /** No sum in Realloc wraps, on the way that it takes. */
  predicate NoWrapRealloc(a: Arena, original: Option<nat>, originalSize: nat, newSize: nat)
  {
    match original
    case None => NoWrap(a, newSize)
    case Some(p) =>
      Grows(originalSize, newSize) ==>
        if GrowsInPlace(a, p, originalSize, newSize) then a.chunks[0].size + (Align(newSize) - Align(originalSize)) < SIZES
        else NoWrap(a, Align(newSize))
  }

  /** The block at `p` has room for `size` bytes. */
  predicate HasRoom(blocks: seq<Block>, p: nat, size: nat) { exists x <- blocks :: x.at == p && size <= x.length }

  lemma MoveSound(a: Arena, blocks: seq<Block>, newSize: nat, given: Option<nat>)
    requires Sound(a) && SoundBlocks(a, blocks) && newSize <= SIZES - 8 && NoWrap(a, Align(newSize))
    requires GivenOk(a, given, Wrap(HEADER + ChunkFor(a, Align(newSize))))
    ensures var r := Malloc(a, Align(newSize), given);
            && Sound(r.arena) && (r.at.None? ==> r.arena == a)
            && (r.at.Some? ==> SoundBlocks(r.arena, blocks + [Block(r.at.value, Align(newSize))])
                               && HasRoom(blocks + [Block(r.at.value, Align(newSize))], r.at.value, newSize))
  {
    hide Sound, SoundBlocks, NoWrap, GivenOk, Malloc;
    AlignTwice(newSize);
    MallocSound(a, blocks, Align(newSize), given);
    var r := Malloc(a, Align(newSize), given);
    if r.at.Some? {
      var x := Block(r.at.value, Align(newSize));
      assert (blocks + [x])[|blocks|] == x;
    }
  }

  lemma AlignTwice(x: nat)
    requires x <= SIZES - 8
    ensures x <= Align(x) && Align(Align(x)) == Align(x)
  {
    AlignUp(x);
    AlignUp(Align(x));
  }

  /** In place, by copying or not at all: the blocks stay held, aligned and apart.  A returned
      block has room for the new size exactly if that size can be aligned without wrapping. */
  lemma ReallocSound(a: Arena, blocks: seq<Block>, k: nat, originalSize: nat, newSize: nat, given: Option<nat>)
    requires Sound(a) && SoundBlocks(a, blocks) && k < |blocks| && originalSize <= Align(originalSize) <= blocks[k].length
    requires newSize < SIZES && NoWrapRealloc(a, Some(blocks[k].at), originalSize, newSize)
    requires Grows(originalSize, newSize) ==> GivenOk(a, given, Wrap(HEADER + ChunkFor(a, Align(newSize))))
    ensures var r := Realloc(a, Some(blocks[k].at), originalSize, newSize, given);
            var after := BlocksAfter(a, blocks, k, originalSize, newSize, r);
            && Sound(r.arena) && SoundBlocks(r.arena, after)
            && (r.at.None? ==> r.arena == a)
            && (r.at.Some? ==> (HasRoom(after, r.at.value, newSize) <==> newSize <= SIZES - 8))
  {
    hide Sound, SoundBlocks, NoWrap, GivenOk, Malloc, GrowsInPlace, Align;
    var p := blocks[k].at;
    if newSize > SIZES - 8 {
      WrapsToZero(newSize);
      BlockLengths(a, blocks);
      assert blocks[k] in blocks;
    } else {
      AlignTwice(newSize);
      assert blocks[k] in blocks;
      if Grows(originalSize, newSize) {
        if GrowsInPlace(a, p, originalSize, newSize) {
          BlockLengths(a, blocks);
          GrowSound(a, blocks, k, originalSize, newSize);
          var grown := Block(p, Align(newSize));
          assert blocks[k := grown][k] == grown;
        } else {
          MoveSound(a, blocks, newSize, given);
        }
      }
    }
  }

  lemma WrapsToZero(x: nat)
    requires SIZES - 8 < x < SIZES
    ensures Align(x) == 0
  {
  }

  lemma BlockLengths(a: Arena, blocks: seq<Block>)
    requires Sound(a) && SoundBlocks(a, blocks)
    ensures forall b <- blocks :: b.length <= SIZES - 8
  {
    forall b <- blocks
      ensures b.length <= SIZES - 8
    {
      assert Held(a, b);
      var c :| c in a.chunks && Inside(c, b);
      var i :| 0 <= i < |a.chunks| && a.chunks[i] == c;
      assert SoundChunk(a.chunks[i]);
    }
  }

  /** A returned pointer is good exactly if the new size can be aligned, and no sum wrapped on
      the way that was taken. */
  lemma ReallocExact(a: Arena, blocks: seq<Block>, k: nat, originalSize: nat, newSize: nat, given: Option<nat>)
    requires Sound(a) && SoundBlocks(a, blocks) && k < |blocks| && originalSize <= Align(originalSize) <= blocks[k].length
    requires newSize < SIZES && Realloc(a, Some(blocks[k].at), originalSize, newSize, given).at.Some?
    requires GivenOk(a, given, Wrap(HEADER + ChunkFor(a, Align(newSize))))
    ensures var r := Realloc(a, Some(blocks[k].at), originalSize, newSize, given);
            Sound(r.arena) && Held(r.arena, Block(r.at.value, newSize)) <==>
            newSize <= SIZES - 8 && NoWrapRealloc(a, Some(blocks[k].at), originalSize, newSize)
  {
    hide Sound, SoundBlocks, NoWrap, GivenOk, Malloc, GrowsInPlace, Align, Held;
    var p := blocks[k].at;
    assert blocks[k] in blocks;
    if newSize > SIZES - 8 {
      WrapsToZero(newSize);
      TooLong(a, p, newSize);
    } else {
      AlignTwice(newSize);
      if !Grows(originalSize, newSize) {
        PartHeld(a, blocks, k, newSize);
      } else if GrowsInPlace(a, p, originalSize, newSize) {
        GrowExact(a, blocks, k, originalSize, newSize);
      } else {
        MallocTwice(a, newSize, given);
        MallocExact(a, newSize, given);
      }
    }
  }

  /** No chunk is that long. */
  lemma TooLong(a: Arena, p: nat, size: nat)
    requires size > SIZES - 8
    ensures Sound(a) ==> !Held(a, Block(p, size))
  {
  }

  lemma PartHeld(a: Arena, blocks: seq<Block>, k: nat, size: nat)
    requires SoundBlocks(a, blocks) && k < |blocks| && size <= blocks[k].length
    ensures Held(a, Block(blocks[k].at, size))
  {
    assert blocks[k] in blocks && Held(a, blocks[k]);
    var c :| c in a.chunks && Inside(c, blocks[k]);
    assert Inside(c, Block(blocks[k].at, size));
  }

  /** An aligned size is the same request. */
  lemma MallocTwice(a: Arena, size: nat, given: Option<nat>)
    requires 0 < size <= SIZES - 8
    ensures Malloc(a, Align(size), given) == Malloc(a, size, given) && (NoWrap(a, Align(size)) <==> NoWrap(a, size))
  {
    AlignUp(size);
    AlignTwice(size);
  }

  lemma GrowExact(a: Arena, blocks: seq<Block>, k: nat, originalSize: nat, newSize: nat)
    requires Sound(a) && SoundBlocks(a, blocks) && k < |blocks| && originalSize <= Align(originalSize) <= blocks[k].length
    requires newSize <= SIZES - 8 && Align(originalSize) < Align(newSize)
    requires GrowsInPlace(a, blocks[k].at, originalSize, newSize)
    ensures var n := Align(newSize) - Align(originalSize);
            Sound(Bump(a, n)) && Held(Bump(a, n), Block(blocks[k].at, newSize)) <==> a.chunks[0].size + n < SIZES
  {
    hide Sound, SoundBlocks, Align, Held, Aligned;
    var n := Align(newSize) - Align(originalSize);
    var all := blocks[k := Block(blocks[k].at, Align(newSize))];
    BlockLengths(a, blocks);
    assert blocks[k] in blocks;
    AlignTwice(newSize);
    if a.chunks[0].size + n < SIZES {
      GrowSound(a, blocks, k, originalSize, newSize);
      PartHeld(Bump(a, n), all, k, newSize);
    } else {
      GrowWraps(a, blocks, k, originalSize, newSize);
    }
  }

  lemma GrowWraps(a: Arena, blocks: seq<Block>, k: nat, originalSize: nat, newSize: nat)
    requires Sound(a) && SoundBlocks(a, blocks) && k < |blocks| && Align(originalSize) <= blocks[k].length
    requires newSize <= SIZES - 8 && Align(originalSize) < Align(newSize)
    requires GrowsInPlace(a, blocks[k].at, originalSize, newSize)
    requires a.chunks[0].size + (Align(newSize) - Align(originalSize)) >= SIZES
    ensures !Held(Bump(a, Align(newSize) - Align(originalSize)), Block(blocks[k].at, newSize))
  {
    AlignUp(newSize);
    assert blocks[k] in blocks;
    LastBlock(a, blocks[k], Align(originalSize));
    var n, x := Align(newSize) - Align(originalSize), Block(blocks[k].at, newSize);
    var b := Bump(a, n);
    assert SoundChunk(a.chunks[0]);
    forall c <- b.chunks
      ensures !Inside(c, x)
    {
      var i :| 0 <= i < |b.chunks| && b.chunks[i] == c;
      if i > 0 {
        assert c == a.chunks[i] && SoundChunk(a.chunks[i]);
        assert Apart(a.chunks[0].base, a.chunks[0].length, a.chunks[i].base, a.chunks[i].length);
      }
    }
  }

  // ---- The allocator and its memory ----

  type Memory = map<nat, Byte>

  function Load(m: Memory, x: nat): Byte { if x in m then m[x] else 0 }

  /** The `n` bytes from `at` on. */
  function Contents(m: Memory, at: nat, n: nat): Bytes
  {
    if n == 0 then [] else Contents(m, at, n - 1) + [Load(m, at + n - 1)]
  }

  /** memcpy between regions that do not overlap. */
  function Copied(m: Memory, from: nat, to: nat, n: nat): Memory
  {
    if n == 0 then m else Copied(m, from, to, n - 1)[to + n - 1 := Load(m, from + n - 1)]
  }

  lemma {:induction false} CopiedAt(m: Memory, from: nat, to: nat, n: nat, x: nat)
    ensures Load(Copied(m, from, to, n), x) == if to <= x < to + n then Load(m, x - to + from) else Load(m, x)
    decreases n
  {
    if n > 0 {
      CopiedAt(m, from, to, n - 1, x);
    }
  }

  lemma {:induction false} ContentsCopied(m: Memory, from: nat, to: nat, n: nat, size: nat)
    requires size <= n
    ensures Contents(Copied(m, from, to, n), to, size) == Contents(m, from, size)
    decreases size
  {
    hide Copied, Load;
    if size > 0 {
      ContentsCopied(m, from, to, n, size - 1);
      CopiedAt(m, from, to, n, to + size - 1);
    }
  }

  lemma {:induction false} ContentsKept(m: Memory, from: nat, to: nat, n: nat, at: nat, size: nat)
    requires Apart(at, size, to, n)
    ensures Contents(Copied(m, from, to, n), at, size) == Contents(m, at, size)
    decreases size
  {
    hide Copied, Load;
    if size > 0 {
      ContentsKept(m, from, to, n, at, size - 1);
      CopiedAt(m, from, to, n, at + size - 1);
    }
  }

  class MemoryPoolAllocator {
    var arena: Arena
    var memory: Memory
    ghost var blocks: seq<Block>

    ghost predicate Valid()
      reads this
    {
      Sound(arena) && SoundBlocks(arena, blocks)
    }

    constructor (chunkCapacity: nat)
      ensures Valid() && arena == Arena([], chunkCapacity, false) && blocks == []
    {
      arena, memory, blocks := Arena([], chunkCapacity, false), map[], [];
    }

    /** The user's buffer serves first.  The source demands more than a header of it. */
    constructor WithBuffer(buffer: nat, size: nat, chunkCapacity: nat)
      requires HEADER < size < SIZES
      ensures arena == Arena([Chunk(buffer, size, size - HEADER, 0)], chunkCapacity, true) && blocks == []
      ensures Valid() <==> Aligned(buffer)
    {
      var chunk := Chunk(buffer, size, size - HEADER, 0);
      assert [chunk][0] == chunk;
      arena, memory, blocks := Arena([chunk], chunkCapacity, true), map[], [];
    }

    /** The steps of Malloc, whatever the size; the pool stays valid where no sum wraps. */
    method Allocate(size: nat, given: Option<nat>) returns (at: Option<nat>)
      requires Valid() && GivenOk(arena, given, Wrap(HEADER + ChunkFor(arena, Align(size))))
      modifies this
      ensures Result(arena, at) == Malloc(old(arena), size, given) && memory == old(memory)
      ensures blocks == old(blocks) + if at.Some? then [Block(at.value, Align(size))] else []
      ensures NoWrap(old(arena), size) ==> Valid()
    {
      hide Sound, SoundBlocks, NoWrap, GivenOk, Align, Wrap, Top;
      if NoWrap(arena, size) {
        MallocSound(arena, blocks, size, given);
      }
      if size == 0 {
        return None;
      }
      var aligned := Align(size);
      if arena.chunks == [] || Wrap(arena.chunks[0].size + aligned) > arena.chunks[0].capacity {
        if given.None? {
          return None;
        }
        var capacity := if arena.chunkCapacity > aligned then arena.chunkCapacity else aligned;
        arena := arena.(chunks := [Chunk(given.value, Wrap(HEADER + capacity), capacity, 0)] + arena.chunks);
      }
      at := Some(Top(arena.chunks[0]));
      arena := Bump(arena, aligned);
      blocks := blocks + [Block(at.value, aligned)];
    }

    /** The steps of Realloc, whatever the sizes; a null original is a Malloc.  Where no sum
        wraps, the bytes of the original are found in the block that is returned, and no byte of
        any other block changes. */
    method Reallocate(original: Option<nat>, originalSize: nat, newSize: nat, given: Option<nat>, ghost k: nat)
      returns (at: Option<nat>)
      requires Valid() && newSize < SIZES
      requires original.Some? ==> k < |blocks| && blocks[k].at == original.value
      requires original.Some? ==> originalSize <= Align(originalSize) <= blocks[k].length
      requires original.None? || Grows(originalSize, newSize) ==>
                 GivenOk(arena, given, Wrap(HEADER + ChunkFor(arena, Align(newSize))))
      modifies this
      ensures Result(arena, at) == Realloc(old(arena), original, originalSize, newSize, given)
      ensures NoWrapRealloc(old(arena), original, originalSize, newSize) ==>
                && Valid()
                && (at.Some? && newSize <= SIZES - 8 ==> HasRoom(blocks, at.value, newSize))
                && (at.Some? && original.Some? ==>
                      Contents(memory, at.value, originalSize) == Contents(old(memory), original.value, originalSize))
                && forall x <- old(blocks) :: Contents(memory, x.at, x.length) == Contents(old(memory), x.at, x.length)
    {
      hide Sound, SoundBlocks, NoWrap, GivenOk, Malloc, Align, Contents;
      if original.None? {
        at := Allocate(newSize, given);
        if at.Some? && newSize <= SIZES - 8 {
          AlignTwice(newSize);
          assert blocks[|blocks| - 1].at == at.value;
        }
        return;
      }
      var p := original.value;
      ghost var r := Realloc(arena, original, originalSize, newSize, given);
      ghost var after := BlocksAfter(arena, blocks, k, originalSize, newSize, r);
      ghost var ok := NoWrapRealloc(arena, original, originalSize, newSize);
      if ok {
        ReallocSound(arena, blocks, k, originalSize, newSize, given);
      }
      if newSize == 0 {
        return None;
      }
      var had, need := Align(originalSize), Align(newSize);
      if had >= need {
        return original;
      }
      AlignedIsAligned(newSize);
      if arena.chunks != [] && p + had == Top(arena.chunks[0])
         && Wrap(arena.chunks[0].size + (need - had)) <= arena.chunks[0].capacity {
        arena := Bump(arena, need - had);
        blocks := after;
        return original;
      }
      at := Allocate(need, given);
      if at.Some? {
        if ok {
          CopyKeeps(arena, old(blocks), Block(at.value, need), memory, k, originalSize, had);
        }
        memory := Copied(memory, p, at.value, had);
      }
    }

    /** Every chunk but the user's buffer goes, and that one is empty. */
    method Clear()
      requires Valid()
      modifies this
      ensures Valid() && blocks == []
      ensures var cs := old(arena).chunks;
              arena == old(arena).(chunks := if cs == [] || !arena.userBuffer then [] else [cs[|cs| - 1].(size := 0)])
    {
      while arena.chunks != [] && !(arena.userBuffer && |arena.chunks| == 1)
        invariant Sound(arena) && arena == old(arena).(chunks := arena.chunks)
        invariant |arena.chunks| <= |old(arena).chunks|
        invariant arena.chunks == old(arena).chunks[|old(arena).chunks| - |arena.chunks|..]
        invariant arena.userBuffer && old(arena).chunks != [] ==> arena.chunks != []
        decreases |arena.chunks|
      {
        arena := arena.(chunks := arena.chunks[1..]);
      }
      if arena.chunks != [] {
        arena := arena.(chunks := [arena.chunks[0].(size := 0)]);
      }
      blocks := [];
    }
  }

  lemma AlignedIsAligned(x: nat)
    requires x < SIZES && Align(x) > 0
    ensures Align(Align(x)) == Align(x)
  {
    if x > SIZES - 8 {
      WrapsToZero(x);
    } else {
      AlignTwice(x);
    }
  }

  /** Copying into a block of its own changes no other block. */
  lemma CopyKeeps(a: Arena, blocks: seq<Block>, x: Block, m: Memory, k: nat, size: nat, n: nat)
    requires SoundBlocks(a, blocks + [x]) && k < |blocks| && size <= n <= blocks[k].length && n <= x.length
    ensures var m' := Copied(m, blocks[k].at, x.at, n);
            && Contents(m', x.at, size) == Contents(m, blocks[k].at, size)
            && forall b <- blocks :: Contents(m', b.at, b.length) == Contents(m, b.at, b.length)
  {
    hide Copied, Contents;
    var all, from := blocks + [x], blocks[k].at;
    ContentsCopied(m, from, x.at, n, size);
    forall b <- blocks
      ensures Contents(Copied(m, from, x.at, n), b.at, b.length) == Contents(m, b.at, b.length)
    {
      var j :| 0 <= j < |blocks| && blocks[j] == b;
      assert all[j] == b && all[|blocks|] == x && Apart(all[j].at, all[j].length, all[|blocks|].at, all[|blocks|].length);
      ContentsKept(m, from, x.at, n, b.at, b.length);
    }
  }
}
