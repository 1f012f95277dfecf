/**
  BLAKE3 as a function of the whole input: the chunk chain of section 2.4 of the BLAKE3
  specification, the tree of sections 2.1 and 2.5, and the extendable output of section 2.6.

  The compression function is a parameter of everything here, so every theorem holds for
  whatever `compress` computes.
 */
module Blake3Tree {
  import opened Bytes

  const BLOCK_LEN: nat := 64
  const CHUNK_LEN: nat := 1024
  const OUT_LEN: nat := 32

  const CHUNK_START: bv32 := 1
  const CHUNK_END: bv32 := 2
  const PARENT: bv32 := 4
  const ROOT: bv32 := 8

  type Word = w: int | 0 <= w < 0x1_0000_0000
  type Cv = c: seq<Word> | |c| == 8 witness [0, 0, 0, 0, 0, 0, 0, 0]
  type Block = b: seq<Word> | |b| == 16 witness [0, 0, 0, 0, 0, 0, 0, 0, 0, 0, 0, 0, 0, 0, 0, 0]

  /** Chaining value, message block, counter, block length, flags. */
  type Compress = (Cv, Block, nat, nat, bv32) -> Block

  /** What one hasher fixes for its whole life: compression function, key words and mode flags. */
  datatype Mode = Mode(f: Compress, key: Cv, flags: bv32)

  /** A node's compression, deferred so that the root can be flagged and extended. */
  datatype Node = Node(cv: Cv, block: Block, counter: nat, len: nat, flags: bv32)

  function ChainingValue(m: Mode, n: Node): Cv {
    m.f(n.cv, n.block, n.counter, n.len, n.flags)[..8]
  }

  function ParentNode(m: Mode, left: Cv, right: Cv): Node {
    Node(m.key, left + right, 0, BLOCK_LEN, PARENT | m.flags)
  }

  // ---------------------------------------------------------------------------
  // Section 2.4: one chunk
  // ---------------------------------------------------------------------------

  function LittleEndian(b: seq<Byte>): Word
    requires |b| == 4
  {
    b[0] as int + 0x100 * (b[1] as int) + 0x1_0000 * (b[2] as int) + 0x100_0000 * (b[3] as int)
  }

  function Words(b: seq<Byte>): Block
    requires |b| == BLOCK_LEN
  {
    seq(16, i requires 0 <= i < 16 => LittleEndian(b[4 * i..4 * i + 4]))
  }

  function Pad(b: seq<Byte>): (r: seq<Byte>)
    requires |b| <= BLOCK_LEN
    ensures |r| == BLOCK_LEN
  {
    b + seq(BLOCK_LEN - |b|, _ => 0)
  }

  /** An empty chunk still has one block. */
  function BlockCount(n: nat): nat {
    if n == 0 then 1 else (n + BLOCK_LEN - 1) / BLOCK_LEN
  }

  function BlockAt(chunk: seq<Byte>, i: nat): seq<Byte>
    requires i < BlockCount(|chunk|)
  {
    chunk[BLOCK_LEN * i..if BLOCK_LEN * i + BLOCK_LEN < |chunk| then BLOCK_LEN * i + BLOCK_LEN else |chunk|]
  }

  /** CHUNK_START exactly on the first block, CHUNK_END exactly on the last. */
  function BlockFlags(m: Mode, i: nat, count: nat): bv32 {
    m.flags | (if i == 0 then CHUNK_START else 0) | (if i + 1 == count then CHUNK_END else 0)
  }

  /** Block `i` of a chunk, `cv` being the chaining value that enters it. */
  function BlockNode(m: Mode, chunk: seq<Byte>, t: nat, i: nat, cv: Cv): Node
    requires i < BlockCount(|chunk|)
  {
    Node(cv, Words(Pad(BlockAt(chunk, i))), t, |BlockAt(chunk, i)|, BlockFlags(m, i, BlockCount(|chunk|)))
  }

  /** The chaining value that enters block `i` of chunk number `t`. */
  function CvBefore(m: Mode, chunk: seq<Byte>, t: nat, i: nat): Cv
    requires i < BlockCount(|chunk|)
  {
    if i == 0 then m.key
    else ChainingValue(m, BlockNode(m, chunk, t, i - 1, CvBefore(m, chunk, t, i - 1)))
  }

  function ChunkNode(m: Mode, chunk: seq<Byte>, t: nat): Node {
    var last := BlockCount(|chunk|) - 1;
    BlockNode(m, chunk, t, last, CvBefore(m, chunk, t, last))
  }

  /** Bytes that arrive later do not disturb the blocks already compressed. */
  lemma {:induction false} CvBeforeExtends(m: Mode, chunk: seq<Byte>, more: seq<Byte>, t: nat, i: nat)
    requires i < BlockCount(|chunk|)
    ensures i < BlockCount(|chunk + more|)
    ensures CvBefore(m, chunk + more, t, i) == CvBefore(m, chunk, t, i)
  {
    if i > 0 {
      CvBeforeExtends(m, chunk, more, t, i - 1);
      assert BLOCK_LEN * i < |chunk|;
      assert BlockAt(chunk + more, i - 1) == BlockAt(chunk, i - 1);
      assert BlockFlags(m, i - 1, BlockCount(|chunk + more|)) == BlockFlags(m, i - 1, BlockCount(|chunk|));
    }
  }

  /** A full block that is not the last takes CHUNK_START if it is the first, and no end flag. */
  lemma FullBlock(m: Mode, chunk: seq<Byte>, t: nat, i: nat)
    requires BLOCK_LEN * i + BLOCK_LEN < |chunk|
    ensures CvBefore(m, chunk, t, i + 1)
         == ChainingValue(m, Node(CvBefore(m, chunk, t, i),
                                  Words(chunk[BLOCK_LEN * i..BLOCK_LEN * i + BLOCK_LEN]), t, BLOCK_LEN,
                                  m.flags | if i == 0 then CHUNK_START else 0))
  {
    hide Words;
    var b := BlockAt(chunk, i);
    assert Pad(b) == b;
  }

  /** The last block takes CHUNK_END, its true length and zero padding. */
  lemma LastBlock(m: Mode, chunk: seq<Byte>, t: nat, i: nat)
    requires BLOCK_LEN * i <= |chunk| <= BLOCK_LEN * i + BLOCK_LEN && (i > 0 ==> BLOCK_LEN * i < |chunk|)
    ensures i < BlockCount(|chunk|)
    ensures ChunkNode(m, chunk, t)
         == Node(CvBefore(m, chunk, t, i), Words(Pad(chunk[BLOCK_LEN * i..])), t, |chunk| - BLOCK_LEN * i,
                 m.flags | (if i == 0 then CHUNK_START else 0) | CHUNK_END)
  {
    hide Words, Pad, CvBefore;
    assert BlockCount(|chunk|) == i + 1;
    assert BlockAt(chunk, i) == chunk[BLOCK_LEN * i..];
  }

  // ---------------------------------------------------------------------------
  // Sections 2.1 and 2.5: the tree
  // ---------------------------------------------------------------------------

  ghost predicate IsPow2(n: nat) {
    n == 1 || (n > 0 && n % 2 == 0 && IsPow2(n / 2))
  }

  function ChunkCount(n: nat): nat {
    if n == 0 then 1 else (n + CHUNK_LEN - 1) / CHUNK_LEN
  }

  /** The largest power of two strictly below `n`: how many chunks the left subtree takes. */
  function LeftChunks(n: nat): (p: nat)
    requires n >= 2
    ensures IsPow2(p) && p < n <= 2 * p
  {
    if n == 2 then 1 else 2 * LeftChunks((n + 1) / 2)
  }

  lemma {:induction false} LeftChunksUnique(p: nat, n: nat)
    requires n >= 2 && IsPow2(p) && p < n <= 2 * p
    ensures LeftChunks(n) == p
  {
    if n > 2 {
      LeftChunksUnique(p / 2, (n + 1) / 2);
    }
  }

  /** The node over `input`, whose first chunk has number `t` in the whole message. */
  function Tree(m: Mode, input: seq<Byte>, t: nat): Node
    decreases |input|
  {
    if |input| <= CHUNK_LEN then ChunkNode(m, input, t)
    else
      var left := LeftChunks(ChunkCount(|input|));
      ParentNode(m,
                 ChainingValue(m, Tree(m, input[..CHUNK_LEN * left], t)),
                 ChainingValue(m, Tree(m, input[CHUNK_LEN * left..], t + left)))
  }

  lemma ChunkIsTree(m: Mode, chunk: seq<Byte>, t: nat)
    requires |chunk| <= CHUNK_LEN
    ensures Tree(m, chunk, t) == ChunkNode(m, chunk, t)
  {
    hide ChunkNode;
  }

  /** The split is decided by the length alone. */
  lemma TreeSplits(m: Mode, input: seq<Byte>, t: nat, p: nat)
    requires IsPow2(p) && CHUNK_LEN * p < |input| <= 2 * (CHUNK_LEN * p)
    ensures Tree(m, input, t)
         == ParentNode(m,
                       ChainingValue(m, Tree(m, input[..CHUNK_LEN * p], t)),
                       ChainingValue(m, Tree(m, input[CHUNK_LEN * p..], t + p)))
  {
    hide ChunkNode;
    LeftChunksUnique(p, ChunkCount(|input|));
  }

  // ---------------------------------------------------------------------------
  // Section 2.6: extendable output
  // ---------------------------------------------------------------------------

  /** Byte `k` of a word, least significant first. */
  function WordByte(w: Word, k: nat): Byte
    requires k < 4
  {
    if k == 0 then w % 0x100
    else if k == 1 then w / 0x100 % 0x100
    else if k == 2 then w / 0x1_0000 % 0x100
    else w / 0x100_0000
  }

  /** Output byte `j` of a root: the root flag is set here and nowhere else. */
  function RootByte(m: Mode, root: Node, j: nat): Byte {
    WordByte(m.f(root.cv, root.block, j / BLOCK_LEN, root.len, root.flags | ROOT)[j % BLOCK_LEN / 4], j % 4)
  }

  /** Output block `i` is the sixteen words of one compression, each least significant byte first. */
  lemma RootByteAt(m: Mode, root: Node, i: nat, k: nat, b: nat)
    requires k < 16 && b < 4
    ensures RootByte(m, root, BLOCK_LEN * i + 4 * k + b)
         == WordByte(m.f(root.cv, root.block, i, root.len, root.flags | ROOT)[k], b)
  {
    hide WordByte;
    OutputIndex(i, k, b);
  }

  lemma OutputIndex(i: nat, k: nat, b: nat)
    requires k < 16 && b < 4
    ensures var j := BLOCK_LEN * i + 4 * k + b;
            j / BLOCK_LEN == i && j % BLOCK_LEN / 4 == k && j % 4 == b
  {
    var j := BLOCK_LEN * i + 4 * k + b;
    assert j / BLOCK_LEN == i;
    assert j % BLOCK_LEN == 4 * k + b;
  }

  /** BLAKE3 of `input`, to any length. */
  function Hash(m: Mode, input: seq<Byte>, length: nat): (r: seq<Byte>)
    ensures |r| == length
  {
    seq(length, j requires 0 <= j => RootByte(m, Tree(m, input, 0), j))
  }

  /** A shorter digest is a prefix of a longer one. */
  lemma HashPrefix(m: Mode, input: seq<Byte>, short: nat, long: nat)
    requires short <= long
    ensures Hash(m, input, short) <= Hash(m, input, long)
  {
  }

  // ---------------------------------------------------------------------------
  // Section 5.1.2: the stack of an incremental hasher
  // ---------------------------------------------------------------------------

  /** The chaining value of the subtree over the `s` whole chunks from chunk `lo` on. */
  function Subtree(m: Mode, input: seq<Byte>, lo: nat, s: nat): Cv
    requires CHUNK_LEN * (lo + s) <= |input|
  {
    ChainingValue(m, Tree(m, input[CHUNK_LEN * lo..CHUNK_LEN * (lo + s)], lo))
  }

  /** `n` groups of `s` chunks, counted along the bits of `n` so that no product is needed. */
  function Chunks(n: nat, s: nat): nat {
    if n == 0 then 0 else Chunks(n / 2, 2 * s) + if n % 2 == 1 then s else 0
  }

  lemma {:induction false} ChunksIsProduct(n: nat, s: nat)
    ensures Chunks(n, s) == n * s
  {
    if n > 0 {
      ChunksIsProduct(n / 2, 2 * s);
      TwiceTheHalf(n / 2, s, n % 2);
    }
  }

  lemma TwiceTheHalf(half: nat, s: nat, odd: nat)
    requires odd < 2
    ensures half * (2 * s) + (if odd == 1 then s else 0) == (2 * half + odd) * s
  {
  }

  lemma {:induction false} ChunksNext(n: nat, s: nat)
    ensures Chunks(n + 1, s) == Chunks(n, s) + s
    decreases n
  {
    if n % 2 == 1 {
      ChunksNext(n / 2, 2 * s);
    }
  }

  lemma ChunksOfOne(n: nat)
    ensures Chunks(n, 1) == n
  {
    ChunksIsProduct(n, 1);
  }

  /** The stack that `n` complete subtrees of `s` chunks each leave behind. */
  function Stack(m: Mode, input: seq<Byte>, s: nat, n: nat): seq<Cv>
    requires CHUNK_LEN * Chunks(n, s) <= |input|
    decreases n
  {
    if n == 0 then []
    else if n % 2 == 0 then Stack(m, input, 2 * s, n / 2)
    else Stack(m, input, 2 * s, n / 2) + [Subtree(m, input, Chunks(n / 2, 2 * s), s)]
  }

  /** One subtree of `2 * s` chunks is two of `s` chunks under a parent. */
  lemma SubtreeMerges(m: Mode, input: seq<Byte>, lo: nat, s: nat)
    requires IsPow2(s) && CHUNK_LEN * (lo + 2 * s) <= |input|
    ensures Subtree(m, input, lo, 2 * s)
         == ChainingValue(m, ParentNode(m, Subtree(m, input, lo, s), Subtree(m, input, lo + s, s)))
  {
    hide Tree, ChunkNode;
    var whole := input[CHUNK_LEN * lo..CHUNK_LEN * (lo + 2 * s)];
    TreeSplits(m, whole, lo, s);
    assert whole[..CHUNK_LEN * s] == input[CHUNK_LEN * lo..CHUNK_LEN * (lo + s)];
    assert whole[CHUNK_LEN * s..] == input[CHUNK_LEN * (lo + s)..CHUNK_LEN * (lo + s + s)];
  }

  /** Bytes that arrive later do not disturb the stack. */
  lemma {:induction false} StackExtends(m: Mode, input: seq<Byte>, more: seq<Byte>, s: nat, n: nat)
    requires CHUNK_LEN * Chunks(n, s) <= |input|
    ensures Stack(m, input + more, s, n) == Stack(m, input, s, n)
    decreases n
  {
    hide Tree, ChunkNode;
    if n > 0 {
      StackExtends(m, input, more, 2 * s, n / 2);
      if n % 2 == 1 {
        var lo := Chunks(n / 2, 2 * s);
        assert (input + more)[CHUNK_LEN * lo..CHUNK_LEN * (lo + s)] == input[CHUNK_LEN * lo..CHUNK_LEN * (lo + s)];
      }
    }
  }

  /** A carry: the top entry and the subtree after it become one subtree of twice the size. */
  lemma CarryMerges(m: Mode, input: seq<Byte>, s: nat, n: nat)
    requires n > 0 && n % 2 == 0 && IsPow2(s) && CHUNK_LEN * Chunks(n, s) <= |input|
    ensures IsPow2(2 * s)
    ensures Chunks(n, s) == Chunks(n / 2, 2 * s) == Chunks(n / 2 - 1, 2 * s) + 2 * s
    ensures Chunks(n - 1, s) == Chunks(n / 2 - 1, 2 * s) + s
    ensures Stack(m, input, s, n) == Stack(m, input, 2 * s, n / 2)
    ensures var last := Subtree(m, input, Chunks(n / 2 - 1, 2 * s), s);
            && Stack(m, input, s, n - 1) == Stack(m, input, 2 * s, n / 2 - 1) + [last]
            && ChainingValue(m, ParentNode(m, last, Subtree(m, input, Chunks(n - 1, s), s)))
               == Subtree(m, input, Chunks(n / 2 - 1, 2 * s), 2 * s)
  {
    hide *;
    CarryCounts(n, s);
    DoublePow2(s);
    StackEven(m, input, s, n);
    StackOdd(m, input, s, n - 1);
    assert (n - 1) / 2 == n / 2 - 1;
    SubtreeMerges(m, input, Chunks(n / 2 - 1, 2 * s), s);
  }

  lemma StackEven(m: Mode, input: seq<Byte>, s: nat, n: nat)
    requires n > 0 && n % 2 == 0 && CHUNK_LEN * Chunks(n, s) <= |input|
    ensures Chunks(n, s) == Chunks(n / 2, 2 * s) && Stack(m, input, s, n) == Stack(m, input, 2 * s, n / 2)
  {
    hide Subtree;
  }

  lemma StackOdd(m: Mode, input: seq<Byte>, s: nat, n: nat)
    requires n % 2 == 1 && CHUNK_LEN * Chunks(n, s) <= |input|
    ensures Chunks(n, s) == Chunks(n / 2, 2 * s) + s
    ensures Stack(m, input, s, n) == Stack(m, input, 2 * s, n / 2) + [Subtree(m, input, Chunks(n / 2, 2 * s), s)]
  {
    hide Subtree;
  }

  lemma CarryCounts(n: nat, s: nat)
    requires n > 0 && n % 2 == 0
    ensures Chunks(n, s) == Chunks(n / 2, 2 * s) == Chunks(n / 2 - 1, 2 * s) + 2 * s
    ensures Chunks(n - 1, s) == Chunks(n / 2 - 1, 2 * s) + s
  {
    assert (n - 1) / 2 == n / 2 - 1;
    ChunksNext(n / 2 - 1, 2 * s);
  }

  /** No carry: the subtree is pushed as it is. */
  lemma CarryStops(m: Mode, input: seq<Byte>, s: nat, n: nat)
    requires n % 2 == 1 && CHUNK_LEN * Chunks(n, s) <= |input|
    ensures Chunks(n, s) == Chunks(n - 1, s) + s
    ensures Stack(m, input, s, n) == Stack(m, input, s, n - 1) + [Subtree(m, input, Chunks(n - 1, s), s)]
  {
    hide Subtree;
    assert (n - 1) / 2 == n / 2;
  }

  /** Folding a stack over the node of the unfinished chunk, top entry first. */
  function FoldStack(m: Mode, stack: seq<Cv>, node: Node): Node
    decreases |stack|
  {
    if stack == [] then node
    else
      var top := |stack| - 1;
      FoldStack(m, stack[..top], ParentNode(m, stack[top], ChainingValue(m, node)))
  }

  lemma FoldStackTop(m: Mode, stack: seq<Cv>, top: Cv, node: Node)
    ensures FoldStack(m, stack + [top], node) == FoldStack(m, stack, ParentNode(m, top, ChainingValue(m, node)))
  {
    assert (stack + [top])[..|stack|] == stack;
  }

  /**
    The fold over `n` subtrees of `s` chunks, with one last node for a nonempty rest of at most
    `s` chunks, is the tree over everything.
   */
  lemma {:induction false} FoldIsTree(m: Mode, input: seq<Byte>, s: nat, n: nat)
    requires IsPow2(s)
    requires CHUNK_LEN * Chunks(n, s) <= |input| <= CHUNK_LEN * (Chunks(n, s) + s)
    requires n > 0 ==> CHUNK_LEN * Chunks(n, s) < |input|
    ensures FoldStack(m, Stack(m, input, s, n), Tree(m, input[CHUNK_LEN * Chunks(n, s)..], Chunks(n, s)))
         == Tree(m, input, 0)
    decreases n
  {
    hide Tree, ChunkNode, FoldStack, Subtree;
    if n == 0 {
      assert input[0..] == input;
      FoldStackEmpty(m, Tree(m, input, 0));
    } else {
      var half, lo := n / 2, Chunks(n / 2, 2 * s);
      assert n % 2 == 0 ==> Chunks(n, s) == lo && Stack(m, input, s, n) == Stack(m, input, 2 * s, half);
      assert n % 2 == 1 ==> Chunks(n, s) == lo + s;
      DoublePow2(s);
      hide IsPow2, Chunks;
      FoldIsTree(m, input, 2 * s, half);
      if n % 2 == 1 {
        FoldsOne(m, input, s, lo, Stack(m, input, 2 * s, half));
      }
    }
  }

  lemma DoublePow2(s: nat)
    requires IsPow2(s)
    ensures IsPow2(2 * s)
  {
  }

  /** The top entry and the rest after it make one node. */
  lemma FoldsOne(m: Mode, input: seq<Byte>, s: nat, lo: nat, stack: seq<Cv>)
    requires IsPow2(s) && CHUNK_LEN * (lo + s) < |input| <= CHUNK_LEN * (lo + 2 * s)
    ensures FoldStack(m, stack + [Subtree(m, input, lo, s)], Tree(m, input[CHUNK_LEN * (lo + s)..], lo + s))
         == FoldStack(m, stack, Tree(m, input[CHUNK_LEN * lo..], lo))
  {
    hide Tree, FoldStack;
    var rest := input[CHUNK_LEN * lo..];
    TreeSplits(m, rest, lo, s);
    assert rest[..CHUNK_LEN * s] == input[CHUNK_LEN * lo..CHUNK_LEN * (lo + s)];
    assert rest[CHUNK_LEN * s..] == input[CHUNK_LEN * (lo + s)..];
    FoldStackTop(m, stack, Subtree(m, input, lo, s), Tree(m, rest[CHUNK_LEN * s..], lo + s));
  }

  lemma FoldStackEmpty(m: Mode, node: Node)
    ensures FoldStack(m, [], node) == node
  {
  }

  // ---------------------------------------------------------------------------
  // One stack entry per set bit of the chunk count
  // ---------------------------------------------------------------------------

  function ShiftRight(n: nat, b: nat): nat {
    if b == 0 then n else ShiftRight(n / 2, b - 1)
  }

  function ShiftLeft(n: nat, b: nat): nat
    decreases b
  {
    if b == 0 then n else ShiftLeft(2 * n, b - 1)
  }

  /** The first chunk under bit `b` of the chunk count: those of the higher bits come before it. */
  function FirstChunk(t: nat, b: nat): nat {
    ShiftRight(t, b + 1) * ShiftLeft(1, b + 1)
  }

  function OnesCount(n: nat): nat {
    if n == 0 then 0 else OnesCount(n / 2) + n % 2
  }

  lemma {:induction false} StackEntryAt(m: Mode, input: seq<Byte>, s: nat, n: nat, b: nat)
    requires CHUNK_LEN * Chunks(n, s) <= |input| && ShiftRight(n, b) % 2 == 1
    ensures |Stack(m, input, s, n)| == OnesCount(n)
    ensures OnesCount(ShiftRight(n, b + 1)) < OnesCount(n)
    ensures Chunks(ShiftRight(n, b + 1), ShiftLeft(s, b + 1)) + ShiftLeft(s, b) <= Chunks(n, s)
    ensures Stack(m, input, s, n)[OnesCount(ShiftRight(n, b + 1))]
         == Subtree(m, input, Chunks(ShiftRight(n, b + 1), ShiftLeft(s, b + 1)), ShiftLeft(s, b))
    decreases b
  {
    hide Subtree;
    StackLength(m, input, s, n);
    StackLength(m, input, 2 * s, n / 2);
    if b == 0 {
      assert ShiftRight(n, 1) == ShiftRight(n / 2, 0) == n / 2;
      assert ShiftLeft(s, 1) == ShiftLeft(2 * s, 0) == 2 * s;
    } else {
      StackEntryAt(m, input, 2 * s, n / 2, b - 1);
    }
  }

  lemma {:induction false} StackLength(m: Mode, input: seq<Byte>, s: nat, n: nat)
    requires CHUNK_LEN * Chunks(n, s) <= |input|
    ensures |Stack(m, input, s, n)| == OnesCount(n)
    decreases n
  {
    hide Subtree;
    if n > 0 {
      StackLength(m, input, 2 * s, n / 2);
    }
  }

  /**
    After `t` completed chunks there is one entry for every set bit of `t`, and none other: the
    entry of bit `b` stands above those of the higher bits, and is the chaining value of the
    perfect subtree of `1 << b` chunks that starts where the chunks of the higher bits end.
   */
  lemma StackEntry(m: Mode, input: seq<Byte>, t: nat, b: nat)
    requires CHUNK_LEN * t <= |input| && ShiftRight(t, b) % 2 == 1
    ensures Chunks(t, 1) == t
    ensures |Stack(m, input, 1, t)| == OnesCount(t)
    ensures OnesCount(ShiftRight(t, b + 1)) < OnesCount(t)
    ensures var lo := FirstChunk(t, b);
            && lo + ShiftLeft(1, b) <= t
            && Stack(m, input, 1, t)[OnesCount(ShiftRight(t, b + 1))] == Subtree(m, input, lo, ShiftLeft(1, b))
  {
    hide Stack, Subtree, ShiftLeft, ShiftRight, OnesCount;
    ChunksOfOne(t);
    StackEntryAt(m, input, 1, t, b);
    ChunksIsProduct(ShiftRight(t, b + 1), ShiftLeft(1, b + 1));
  }
}
