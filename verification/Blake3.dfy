/**
  The incremental hasher: a block buffer held back until more input arrives, inside a chunk,
  above a stack of chaining values merged like the carries of a binary counter.

  Each object carries as ghost state the bytes it has absorbed; its validity says that every
  real field is a function of those bytes, and `Digest` returns the tree hash of all of them.
 */
module Blake3 {
  import opened Bytes
  import opened Blake3Tree

  /** A chunk that has taken in `absorbed`: its last block is held back, even when it is full. */
  ghost predicate Absorbed(m: Mode, counter: nat, absorbed: seq<Byte>, cv: Cv, block: seq<Byte>, compressed: nat) {
    && |block| <= BLOCK_LEN
    && |absorbed| == BLOCK_LEN * compressed + |block|
    && block == absorbed[BLOCK_LEN * compressed..]
    && (compressed > 0 ==> block != [])
    && cv == CvBefore(m, absorbed, counter, compressed)
  }

  /** A chunk that has taken in the first `done` bytes of `all`. */
  ghost predicate Holding(m: Mode, counter: nat, all: seq<Byte>, done: nat, cv: Cv, block: seq<Byte>, compressed: nat) {
    && |block| <= BLOCK_LEN && done == BLOCK_LEN * compressed + |block| <= |all|
    && block == all[BLOCK_LEN * compressed..done] && (compressed > 0 ==> BLOCK_LEN * compressed < |all|)
    && cv == CvBefore(m, all, counter, compressed)
  }

  lemma Starting(m: Mode, counter: nat, absorbed: seq<Byte>, data: seq<Byte>, cv: Cv, block: seq<Byte>, compressed: nat)
    requires Absorbed(m, counter, absorbed, cv, block, compressed)
    ensures |block| <= BLOCK_LEN && (compressed > 0 ==> block != [])
    ensures Holding(m, counter, absorbed + data, |absorbed|, cv, block, compressed)
    ensures (absorbed + data)[|absorbed|..] == data
  {
    CvBeforeExtends(m, absorbed, data, counter, compressed);
    hide CvBefore;
  }

  lemma Compressing(m: Mode, counter: nat, all: seq<Byte>, done: nat, cv: Cv, block: seq<Byte>, compressed: nat,
                    start: bv32)
    requires start == if compressed == 0 then CHUNK_START else 0
    requires Holding(m, counter, all, done, cv, block, compressed) && |block| == BLOCK_LEN && done < |all|
    ensures var next := ChainingValue(m, Node(cv, Words(block), counter, BLOCK_LEN, m.flags | start));
            Holding(m, counter, all, done, next, [], compressed + 1)
  {
    FullBlock(m, all, counter, compressed);
    hide CvBefore, Words, ChainingValue;
  }

  lemma Taking(m: Mode, counter: nat, all: seq<Byte>, done: nat, cv: Cv, block: seq<Byte>, compressed: nat, take: nat)
    requires Holding(m, counter, all, done, cv, block, compressed) && |block| + take <= BLOCK_LEN
    requires done + take <= |all|
    ensures Holding(m, counter, all, done + take, cv, block + all[done..][..take], compressed)
    ensures all[done..][take..] == all[done + take..]
    ensures |block + all[done..][..take]| == |block| + take
  {
    hide CvBefore;
    SliceGrows(all, BLOCK_LEN * compressed, done, take);
  }

  lemma Ending(m: Mode, counter: nat, all: seq<Byte>, done: nat, cv: Cv, block: seq<Byte>, compressed: nat)
    requires Holding(m, counter, all, done, cv, block, compressed) && all[done..] == [] && (compressed > 0 ==> block != [])
    ensures Absorbed(m, counter, all, cv, block, compressed)
  {
    hide CvBefore;
  }

  class ChunkState {
    const mode: Mode
    const counter: nat
    var cv: Cv
    var block: seq<Byte>
    var compressed: nat

    ghost var absorbed: seq<Byte>

    ghost predicate Valid()
      reads this
    {
      Absorbed(mode, counter, absorbed, cv, block, compressed)
    }

    constructor (mode: Mode, counter: nat)
      ensures Valid() && absorbed == []
      ensures this.mode == mode && this.counter == counter
    {
      this.mode := mode;
      this.counter := counter;
      cv := mode.key;
      block := [];
      compressed := 0;
      absorbed := [];
    }

    function Len(): (n: nat)
      requires Valid()
      reads this
      ensures n == |absorbed|
    {
      BLOCK_LEN * compressed + |block|
    }

    function StartFlag(): bv32
      reads this
    {
      if compressed == 0 then CHUNK_START else 0
    }

    method Update(data: seq<Byte>)
      requires Valid()
      modifies this
      ensures Valid() && absorbed == old(absorbed) + data
    {
      hide Holding, Absorbed, CvBefore, Words, ChainingValue;
      ghost var all := absorbed + data;
      ghost var done: nat := |absorbed|;
      var rest := data;
      Starting(mode, counter, absorbed, data, cv, block, compressed);
      while rest != []
        invariant done <= |all| && rest == all[done..] && |block| <= BLOCK_LEN
        invariant Holding(mode, counter, all, done, cv, block, compressed) && (compressed > 0 ==> block != [])
        decreases |rest|
      {
        if |block| == BLOCK_LEN {
          var start := StartFlag();
          Compressing(mode, counter, all, done, cv, block, compressed, start);
          cv := ChainingValue(mode, Node(cv, Words(block), counter, BLOCK_LEN, mode.flags | start));
          compressed := compressed + 1;
          block := [];
          assert Holding(mode, counter, all, done, cv, block, compressed);
        }
        var take := BLOCK_LEN - |block|;
        if take > |rest| {
          take := |rest|;
        }
        Taking(mode, counter, all, done, cv, block, compressed, take);
        block := block + rest[..take];
        rest := rest[take..];
        done := done + take;
      }
      Ending(mode, counter, all, done, cv, block, compressed);
      absorbed := all;
    }

    method Output() returns (node: Node)
      requires Valid()
      ensures node == ChunkNode(mode, absorbed, counter)
    {
      hide ChunkNode, Words, Pad, CvBefore;
      LastBlock(mode, absorbed, counter, compressed);
      node := Node(cv, Words(Pad(block)), counter, |block|, mode.flags | StartFlag() | CHUNK_END);
    }
  }

  method ParentOutput(mode: Mode, left: Cv, right: Cv) returns (node: Node)
    ensures node == ParentNode(mode, left, right)
  {
    node := Node(mode.key, left + right, 0, BLOCK_LEN, PARENT | mode.flags);
  }

  class Hasher {
    const mode: Mode
    var chunk: ChunkState
    var cvStack: seq<Cv>

    ghost var input: seq<Byte>

    /**
      The chunk holds the input from that chunk's first byte on, and the stack is the one the
      completed chunks leave behind.
     */
    ghost predicate Consistent()
      reads this, chunk
    {
      && chunk.Valid() && chunk.mode == mode
      && |chunk.absorbed| <= CHUNK_LEN
      && |input| == CHUNK_LEN * chunk.counter + |chunk.absorbed|
      && chunk.absorbed == input[CHUNK_LEN * chunk.counter..]
      && Chunks(chunk.counter, 1) == chunk.counter
      && cvStack == Stack(mode, input, 1, chunk.counter)
    }

    /** Between calls the chunk is never empty unless the input is. */
    ghost predicate Valid()
      reads this, chunk
    {
      Consistent() && (chunk.counter > 0 ==> chunk.absorbed != [])
    }

    constructor (mode: Mode)
      ensures Valid() && fresh(chunk)
      ensures this.mode == mode && input == []
    {
      this.mode := mode;
      chunk := new ChunkState(mode, 0);
      cvStack := [];
      input := [];
    }

    /** Merge while the count of completed chunks ends in a zero bit. */
    method Push(cv: Cv, totalChunks: nat)
      requires totalChunks > 0 && CHUNK_LEN * totalChunks <= |input|
      requires Chunks(totalChunks - 1, 1) == totalChunks - 1 && Chunks(totalChunks, 1) == totalChunks
      requires cv == Subtree(mode, input, totalChunks - 1, 1)
      requires cvStack == Stack(mode, input, 1, totalChunks - 1)
      modifies this`cvStack
      ensures cvStack == Stack(mode, input, 1, totalChunks)
    {
      hide Chunks, Stack, Subtree, ParentNode, ChainingValue;
      var carry, n := cv, totalChunks;
      ghost var s: nat := 1;
      while n % 2 == 0
        invariant n > 0 && IsPow2(s)
        invariant Chunks(n, s) == totalChunks == Chunks(n - 1, s) + s
        invariant carry == Subtree(mode, input, Chunks(n - 1, s), s)
        invariant cvStack == Stack(mode, input, s, n - 1)
        invariant Stack(mode, input, s, n) == Stack(mode, input, 1, totalChunks)
        decreases n
      {
        CarryMerges(mode, input, s, n);
        var last := cvStack[|cvStack| - 1];
        cvStack := cvStack[..|cvStack| - 1];
        var node := ParentOutput(mode, last, carry);
        carry := ChainingValue(mode, node);
        n := n / 2;
        s := 2 * s;
      }
      CarryStops(mode, input, s, n);
      cvStack := cvStack + [carry];
    }

    /** A full chunk goes to the stack when, and only when, more input arrives. */
    method NextChunk()
      requires Valid() && |chunk.absorbed| == CHUNK_LEN
      modifies this
      ensures Consistent() && chunk.absorbed == [] && fresh(chunk)
      ensures input == old(input)
    {
      hide Chunks, Stack, Subtree, CvBefore, ChunkNode, ChainingValue;
      var node := chunk.Output();
      var counter := chunk.counter + 1;
      ChunkIsSubtree(counter - 1);
      ChunksOfOne(counter);
      Push(ChainingValue(mode, node), counter);
      chunk := new ChunkState(mode, counter);
    }

    method Absorb(data: seq<Byte>)
      requires Consistent() && 0 < |data| <= CHUNK_LEN - |chunk.absorbed|
      modifies `input, chunk
      ensures Valid() && input == old(input) + data
    {
      hide Chunks, Stack, CvBefore;
      StackExtends(mode, input, data, 1, chunk.counter);
      chunk.Update(data);
      input := input + data;
    }

    /** Absorbs `data`; what the hasher holds afterwards depends only on all it has absorbed. */
    method Update(data: seq<Byte>)
      requires Valid()
      modifies this, chunk
      ensures Valid() && input == old(input) + data
      ensures chunk == old(chunk) || fresh(chunk)
    {
      hide Chunks, Stack, CvBefore;
      ghost var all := input + data;
      ghost var done: nat := |input|;
      var rest := data;
      while rest != []
        invariant done <= |all| && input == all[..done] && rest == all[done..]
        invariant Valid()
        invariant chunk == old(chunk) || fresh(chunk)
        decreases |rest|
      {
        if chunk.Len() == CHUNK_LEN {
          NextChunk();
        }
        var take := CHUNK_LEN - chunk.Len();
        if take > |rest| {
          take := |rest|;
        }
        SliceGrows(all, 0, done, take);
        Absorb(rest[..take]);
        rest := rest[take..];
        done := done + take;
      }
    }

    /** A full chunk is the perfect subtree of one chunk. */
    lemma ChunkIsSubtree(t: nat)
      requires |input| == CHUNK_LEN * (t + 1)
      ensures ChainingValue(mode, ChunkNode(mode, input[CHUNK_LEN * t..], t)) == Subtree(mode, input, t, 1)
    {
      hide ChunkNode;
      assert input[CHUNK_LEN * t..] == input[CHUNK_LEN * t..CHUNK_LEN * (t + 1)];
    }

    /** The BLAKE3 hash of everything absorbed, to any length; the hasher is left as it was. */
    method Digest(length: nat) returns (out: seq<Byte>)
      requires Valid()
      ensures out == Hash(mode, input, length)
    {
      hide Stack, Tree, CvBefore, ChunkNode;
      var node := chunk.Output();
      ghost var t := chunk.counter;
      ChunkIsTree(mode, chunk.absorbed, t);
      FoldIsTree(mode, input, 1, t);
      var i := |cvStack|;
      assert cvStack[..i] == cvStack;
      while i > 0
        invariant 0 <= i <= |cvStack|
        invariant FoldStack(mode, cvStack[..i], node) == Tree(mode, input, 0)
      {
        assert cvStack[..i][..i - 1] == cvStack[..i - 1];
        node := ParentOutput(mode, cvStack[i - 1], ChainingValue(mode, node));
        i := i - 1;
      }
      out := RootBytes(mode, node, length);
    }
  }

  /** Two hashers that absorbed the same bytes, cut however, hold the same state. */
  lemma SplitsDoNotMatter(a: Hasher, b: Hasher)
    requires a.Valid() && b.Valid() && a.mode == b.mode && a.input == b.input
    ensures a.cvStack == b.cvStack && a.chunk.counter == b.chunk.counter
    ensures a.chunk.cv == b.chunk.cv && a.chunk.block == b.chunk.block && a.chunk.compressed == b.chunk.compressed
  {
    hide Stack, CvBefore;
    assert a.chunk.counter == b.chunk.counter;
    assert a.chunk.compressed == b.chunk.compressed;
  }

  /** Between calls the stack of a hasher has one entry for every set bit of its chunk count. */
  lemma StackOfHasher(h: Hasher, b: nat)
    requires h.Valid()
    ensures |h.cvStack| == OnesCount(h.chunk.counter)
    ensures ShiftRight(h.chunk.counter, b) % 2 == 1 ==>
              var lo := FirstChunk(h.chunk.counter, b);
              && OnesCount(ShiftRight(h.chunk.counter, b + 1)) < |h.cvStack|
              && CHUNK_LEN * (lo + ShiftLeft(1, b)) <= |h.input|
              && h.cvStack[OnesCount(ShiftRight(h.chunk.counter, b + 1))] == Subtree(h.mode, h.input, lo, ShiftLeft(1, b))
  {
    hide Stack, Subtree, CvBefore, ShiftRight, ShiftLeft, OnesCount, FirstChunk;
    ChunksOfOne(h.chunk.counter);
    StackLength(h.mode, h.input, 1, h.chunk.counter);
    if ShiftRight(h.chunk.counter, b) % 2 == 1 {
      StackEntry(h.mode, h.input, h.chunk.counter, b);
    }
  }

  /** The output loop: one compression for every 64 bytes asked for, cut to length. */
  method RootBytes(mode: Mode, node: Node, length: nat) returns (out: seq<Byte>)
    ensures |out| == length
    ensures forall j :: 0 <= j < length ==> out[j] == RootByte(mode, node, j)
  {
    hide RootByte, WordByte;
    var bytes: seq<Byte> := [];
    var i := 0;
    while |bytes| < length
      invariant |bytes| == BLOCK_LEN * i
      invariant forall j :: 0 <= j < |bytes| ==> bytes[j] == RootByte(mode, node, j)
      decreases length - |bytes|
    {
      var w := mode.f(node.cv, node.block, i, node.len, node.flags | ROOT);
      var k := 0;
      while k < 16
        invariant 0 <= k <= 16 && |bytes| == BLOCK_LEN * i + 4 * k
        invariant forall j :: 0 <= j < |bytes| ==> bytes[j] == RootByte(mode, node, j)
      {
        RootByteAt(mode, node, i, k, 0);
        RootByteAt(mode, node, i, k, 1);
        RootByteAt(mode, node, i, k, 2);
        RootByteAt(mode, node, i, k, 3);
        bytes := bytes + [WordByte(w[k], 0), WordByte(w[k], 1), WordByte(w[k], 2), WordByte(w[k], 3)];
        k := k + 1;
      }
      i := i + 1;
    }
    out := bytes[..length];
  }

  method Hash32(mode: Mode, data: seq<Byte>) returns (out: seq<Byte>)
    ensures out == Hash(mode, data, OUT_LEN) && |out| == 32
  {
    var h := new Hasher(mode);
    h.Update(data);
    assert [] + data == data;
    out := h.Digest(OUT_LEN);
  }
}
