/**
  What a digest shows of its input and of the calls behind it, under compressions that show their
  arguments: the bytes of blocks and words, lengths, flags and counters, as numbers.
 */
module Blake3Shown {
  import opened Bytes
  import opened Blake3Tree

  /** A compression that returns the message block. */
  function ShowBlock(): Compress {
    (cv: Cv, block: Block, counter: nat, len: nat, flags: bv32) => block
  }

  lemma Peeled(b: Byte, rest: nat)
    ensures (b + 0x100 * rest) / 0x100 == rest && (b + 0x100 * rest) % 0x100 == b
  {
  }

  lemma TwoPeels(n: nat)
    ensures n / 0x1_0000 == n / 0x100 / 0x100 && n / 0x100_0000 == n / 0x100 / 0x100 / 0x100
  {
  }

  /** A word with its four bytes in place. */
  lemma WordBytes(b: seq<Byte>, k: nat)
    requires |b| == 4 && k < 4
    ensures WordByte(LittleEndian(b), k) == b[k]
  {
    var w: nat := LittleEndian(b);
    var b0: nat, b1: nat, b2: nat, b3: nat := b[0], b[1], b[2], b[3];
    TwoPeels(w);
    Peeled(b[0], b1 + 0x100 * (b2 + 0x100 * b3));
    Peeled(b[1], b2 + 0x100 * b3);
    Peeled(b[2], b3);
    assert w == b0 + 0x100 * (b1 + 0x100 * (b2 + 0x100 * b3));
  }

  lemma BlockByte(b: seq<Byte>, j: nat)
    requires |b| == 64 && j < 64
    ensures WordByte(Words(b)[j / 4], j % 4) == b[j]
  {
    WordBytes(b[4 * (j / 4)..4 * (j / 4) + 4], j % 4);
    hide LittleEndian, WordByte;
    assert b[4 * (j / 4)..4 * (j / 4) + 4][j % 4] == b[j];
  }

  /** Byte `i` of a text, and zero after its end. */
  function ByteAt(t: seq<Byte>, i: nat): Byte {
    if i < |t| then t[i] else 0
  }

  /** Where the last block of a chunk begins. */
  function LastStart(n: nat): nat {
    if n == 0 then 0 else (n - 1) / 64 * 64
  }

  lemma LastBlockBytes(m: Mode, chunk: seq<Byte>, t: nat, j: nat)
    requires |chunk| <= 1024 && j < 64
    ensures WordByte(ChunkNode(m, chunk, t).block[j / 4], j % 4) == ByteAt(chunk, LastStart(|chunk|) + j)
  {
    hide Words, WordByte, CvBefore;
    var i := LastStart(|chunk|) / 64;
    LastBlock(m, chunk, t, i);
    BlockByte(Pad(chunk[64 * i..]), j);
  }

  lemma ByteShown(m: Mode, root: Node, j: nat)
    requires m.f == ShowBlock()
    ensures RootByte(m, root, j) == WordByte(root.block[j % 64 / 4], j % 64 % 4)
  {
    hide WordByte;
    assert j % 64 % 4 == j % 4;
  }

  /** A digest of one chunk shows its last block, zeros after its end, again and again. */
  lemma ChunkShown(key: Cv, flags: bv32, input: seq<Byte>, length: nat, j: nat)
    requires |input| <= 1024 && j < length
    ensures Hash(Mode(ShowBlock(), key, flags), input, length)[j] == ByteAt(input, LastStart(|input|) + j % 64)
  {
    var m := Mode(ShowBlock(), key, flags);
    hide ChunkNode, WordByte, RootByte, LastStart, ByteAt, Tree;
    LastBlockBytes(m, input, 0, j % 64);
    ChunkIsTree(m, input, 0);
    ByteShown(m, Tree(m, input, 0), j);
  }

  /** The first chunk of an input. */
  function FirstChunk(input: seq<Byte>): seq<Byte> {
    if |input| <= 1024 then input else input[..1024]
  }

  /** The chaining value of a subtree shows the last block of its first chunk, as far as 32 bytes go. */
  lemma {:induction false} SubtreeShown(m: Mode, input: seq<Byte>, t: nat, j: nat)
    requires m.f == ShowBlock() && j < 32
    ensures var c := FirstChunk(input);
            WordByte(ChainingValue(m, Tree(m, input, t))[j / 4], j % 4) == ByteAt(c, LastStart(|c|) + j)
    decreases |input|
  {
    hide ChunkNode, WordByte;
    if |input| <= CHUNK_LEN {
      LastBlockBytes(m, input, t, j);
    } else {
      var left := LeftChunks(ChunkCount(|input|));
      SubtreeShown(m, input[..CHUNK_LEN * left], t, j);
      assert FirstChunk(input[..CHUNK_LEN * left]) == FirstChunk(input);
    }
  }

  /**
    A digest of more than one chunk shows two half blocks: of the first chunk, and of the first chunk
    of the right half, which begins after the greatest power of two of chunks below all of them.
   */
  lemma HalvesShown(key: Cv, flags: bv32, input: seq<Byte>, p: nat, length: nat, j: nat)
    requires IsPow2(p) && 1024 * p < |input| <= 2048 * p && j < length
    ensures var right := FirstChunk(input[1024 * p..]);
            Hash(Mode(ShowBlock(), key, flags), input, length)[j]
            == if j % 64 < 32 then input[960 + j % 64] else ByteAt(right, LastStart(|right|) + (j % 64 - 32))
  {
    var m := Mode(ShowBlock(), key, flags);
    hide *;
    HashByte(m, input, length, j);
    if j % 64 < 32 {
      LeftByte(m, input, p, j % 64);
    } else {
      RightByte(m, input, p, j % 64);
    }
  }

  lemma HashByte(m: Mode, input: seq<Byte>, length: nat, j: nat)
    requires m.f == ShowBlock() && j < length
    ensures Hash(m, input, length)[j] == WordByte(Tree(m, input, 0).block[j % 64 / 4], j % 64 % 4)
  {
    hide WordByte, Tree, RootByte;
    ByteShown(m, Tree(m, input, 0), j);
  }

  /** The block of a root of more than one chunk. */
  lemma RootBlock(m: Mode, input: seq<Byte>, p: nat)
    requires IsPow2(p) && 1024 * p < |input| <= 2048 * p
    ensures Tree(m, input, 0).block
         == ChainingValue(m, Tree(m, input[..1024 * p], 0)) + ChainingValue(m, Tree(m, input[1024 * p..], p))
  {
    hide Tree, ChainingValue;
    TreeSplits(m, input, 0, p);
  }

  lemma LeftByte(m: Mode, input: seq<Byte>, p: nat, b: nat)
    requires m.f == ShowBlock() && IsPow2(p) && 1024 * p < |input| <= 2048 * p && b < 32
    ensures WordByte(Tree(m, input, 0).block[b / 4], b % 4) == input[960 + b]
  {
    hide Tree, ChainingValue, WordByte;
    RootBlock(m, input, p);
    SubtreeShown(m, input[..1024 * p], 0, b);
    assert FirstChunk(input[..1024 * p]) == input[..1024];
  }

  lemma RightByte(m: Mode, input: seq<Byte>, p: nat, b: nat)
    requires m.f == ShowBlock() && IsPow2(p) && 1024 * p < |input| <= 2048 * p && 32 <= b < 64
    ensures var right := FirstChunk(input[1024 * p..]);
            WordByte(Tree(m, input, 0).block[b / 4], b % 4) == ByteAt(right, LastStart(|right|) + (b - 32))
  {
    hide Tree, ChainingValue, WordByte, FirstChunk, LastStart, ByteAt;
    RootBlock(m, input, p);
    SubtreeShown(m, input[1024 * p..], p, b - 32);
    assert (b - 32) / 4 == b / 4 - 8 && (b - 32) % 4 == b % 4;
  }

  // ---------------------------------------------------------------------------
  // Counters, lengths and flags
  // ---------------------------------------------------------------------------

  /** Word `k` of output block `i`: the number that its four bytes are, least significant first. */
  function WordOf(h: seq<Byte>, i: nat, k: nat): nat
    requires 64 * i + 64 <= |h| && k < 16
  {
    var at := 64 * i + 4 * k;
    var a: nat, b: nat, c: nat, d: nat := h[at], h[at + 1], h[at + 2], h[at + 3];
    a + 256 * b + 65536 * c + 16777216 * d
  }

  lemma WordRead(w: Word)
    ensures (WordByte(w, 0) as int) + 256 * (WordByte(w, 1) as int) + 65536 * (WordByte(w, 2) as int)
            + 16777216 * (WordByte(w, 3) as int) == w
  {
    TwoPeels(w);
    var x: nat := w / 0x100;
    var y: nat := x / 0x100;
  }

  function RootWords(m: Mode, root: Node, i: nat): Block {
    m.f(root.cv, root.block, i, root.len, root.flags | ROOT)
  }

  /** Word `k` of output block `i`. */
  lemma OutputWord(m: Mode, input: seq<Byte>, length: nat, i: nat, k: nat)
    requires k < 16 && 64 * i + 64 <= length
    ensures WordOf(Hash(m, input, length), i, k) == RootWords(m, Tree(m, input, 0), i)[k]
  {
    hide WordByte, Tree;
    var root := Tree(m, input, 0);
    RootByteAt(m, root, i, k, 0);
    RootByteAt(m, root, i, k, 1);
    RootByteAt(m, root, i, k, 2);
    RootByteAt(m, root, i, k, 3);
    WordRead(m.f(root.cv, root.block, i, root.len, root.flags | ROOT)[k]);
    hide RootByte;
  }

  function Low(n: nat): Word {
    n % 0x1_0000_0000
  }

  /** A compression that returns counter, length and flags, then the chaining value that came in. */
  function ShowCall(): Compress {
    (cv: Cv, block: Block, counter: nat, len: nat, flags: bv32) =>
      [Low(counter), Low(len), flags as int] + cv + [0, 0, 0, 0, 0]
  }

  lemma FlagsRead(first: bool)
    ensures ((0 | (if first then CHUNK_START else 0) | CHUNK_END) | ROOT) as int == if first then 11 else 10
    ensures (0 | (if first then CHUNK_START else 0)) as int == if first then 1 else 0
    ensures ((PARENT | 0) | ROOT) as int == 12
  {
  }

  /** What is shown of the call that makes an output block. */
  lemma RootCall(m: Mode, input: seq<Byte>, length: nat, i: nat)
    requires m.f == ShowCall() && 64 * i + 64 <= length
    ensures Shows(Hash(m, input, length), i, Low(i), Tree(m, input, 0))
  {
    hide *;
    var root := Tree(m, input, 0);
    CallShown(m, input, length, i, 0);
    forall k | 0 <= k < 8
      ensures WordOf(Hash(m, input, length), i, 3 + k) == root.cv[k]
    {
      CallShown(m, input, length, i, k);
    }
    ShowsAll(Hash(m, input, length), i, Low(i), root);
  }

  lemma ShowsAll(h: seq<Byte>, i: nat, counter: nat, root: Node)
    requires 64 * i + 64 <= |h| && WordOf(h, i, 0) == counter && WordOf(h, i, 1) == Low(root.len)
    requires WordOf(h, i, 2) == (root.flags | ROOT) as int && forall k :: 0 <= k < 8 ==> WordOf(h, i, 3 + k) == root.cv[k]
    ensures Shows(h, i, counter, root)
  {
  }

  lemma CallShown(m: Mode, input: seq<Byte>, length: nat, i: nat, k: nat)
    requires m.f == ShowCall() && 64 * i + 64 <= length && k < 8
    ensures var h, root := Hash(m, input, length), Tree(m, input, 0);
            && WordOf(h, i, 0) == Low(i) && WordOf(h, i, 1) == Low(root.len) && WordOf(h, i, 2) == (root.flags | ROOT) as int
            && WordOf(h, i, 3 + k) == root.cv[k]
  {
    hide *;
    var root := Tree(m, input, 0);
    OutputWord(m, input, length, i, 0);
    OutputWord(m, input, length, i, 1);
    OutputWord(m, input, length, i, 2);
    OutputWord(m, input, length, i, 3 + k);
    CallWord(m, root, i, k);
  }

  lemma CallWord(m: Mode, root: Node, i: nat, k: nat)
    requires m.f == ShowCall() && k < 8
    ensures var words := RootWords(m, root, i);
            && words[0] == Low(i) && words[1] == Low(root.len) && words[2] == (root.flags | ROOT) as int
            && words[3 + k] == root.cv[k]
  {
    hide Low;
  }

  /** A counter, then the length, the flags and the chaining value of a node that is a root. */
  ghost predicate Shows(h: seq<Byte>, i: nat, counter: nat, root: Node)
    requires 64 * i + 64 <= |h|
  {
    && WordOf(h, i, 0) == counter && WordOf(h, i, 1) == Low(root.len)
    && WordOf(h, i, 2) == (root.flags | ROOT) as int
    && forall k :: 0 <= k < 8 ==> WordOf(h, i, 3 + k) == root.cv[k]
  }

  /** One chunk: its last block's true length, and every flag that the block has. */
  lemma ChunkCallShown(key: Cv, input: seq<Byte>, length: nat, i: nat)
    requires |input| <= 1024 && 64 * i + 64 <= length
    ensures var h := Hash(Mode(ShowCall(), key, 0), input, length);
            && WordOf(h, i, 0) == i % 0x1_0000_0000
            && WordOf(h, i, 1) == |input| - LastStart(|input|)
            && WordOf(h, i, 2) == (if |input| <= 64 then 1 + 2 + 8 else 2 + 8)
            && (|input| <= 64 ==> forall k :: 0 <= k < 8 ==> WordOf(h, i, 3 + k) == key[k])
  {
    var m := Mode(ShowCall(), key, 0);
    hide Hash, WordOf, Tree, ChunkNode, Words, Pad;
    ChunkIsTree(m, input, 0);
    RootCall(m, input, length, i);
    LastBlock(m, input, 0, LastStart(|input|) / 64);
    FlagsRead(|input| <= 64);
  }

  /** More than one chunk: a parent over the key, of a full block, with its own flag. */
  lemma ParentCallShown(key: Cv, input: seq<Byte>, length: nat, i: nat)
    requires |input| > 1024 && 64 * i + 64 <= length
    ensures var h := Hash(Mode(ShowCall(), key, 0), input, length);
            && WordOf(h, i, 0) == i % 0x1_0000_0000 && WordOf(h, i, 1) == 64 && WordOf(h, i, 2) == 4 + 8
            && forall k :: 0 <= k < 8 ==> WordOf(h, i, 3 + k) == key[k]
  {
    var m := Mode(ShowCall(), key, 0);
    hide Hash, WordOf, ChunkNode, LeftChunks;
    RootIsParent(m, input);
    hide Tree;
    RootCall(m, input, length, i);
    FlagsRead(true);
  }

  lemma RootIsParent(m: Mode, input: seq<Byte>)
    requires |input| > 1024
    ensures var root := Tree(m, input, 0); root.len == 64 && root.cv == m.key && root.flags == PARENT | m.flags
  {
    hide ChunkNode, ChainingValue;
  }

  /** A compression that returns the block of a parent, and of a chunk the call. */
  function ShowChildren(): Compress {
    (cv: Cv, block: Block, counter: nat, len: nat, flags: bv32) =>
      if flags & 4 != 0 then block else [Low(counter), Low(len), flags as int] + cv + [0, 0, 0, 0, 0]
  }

  /** What is shown of the blocks before the last of a chunk: chunk number, full length, start flag. */
  lemma {:induction false} EnteringShown(m: Mode, chunk: seq<Byte>, t: nat, i: nat)
    requires m.f == ShowChildren() && m.flags == 0 && 64 * i + 64 < |chunk|
    ensures var cv := CvBefore(m, chunk, t, i + 1);
            cv[0] == t % 0x1_0000_0000 && cv[1] == 64 && cv[2] == if i == 0 then 1 else 0
  {
    FullBlock(m, chunk, t, i);
    FlagsApart(i == 0);
    hide Words, CvBefore;
  }

  lemma FlagsApart(first: bool)
    ensures (0 | (if first then CHUNK_START else 0)) & 4 == 0
    ensures (0 | (if first then CHUNK_START else 0)) as int == if first then 1 else 0
    ensures (0 | (if first then CHUNK_START else 0) | CHUNK_END) & 4 == 0
    ensures (0 | (if first then CHUNK_START else 0) | CHUNK_END) as int == if first then 3 else 2
    ensures (PARENT | 0) & 4 != 0 && ((PARENT | 0) | ROOT) & 4 != 0
  {
  }

  /** The chaining value of a subtree shows the call that ends its first chunk. */
  lemma {:induction false} SubtreeCallShown(m: Mode, input: seq<Byte>, t: nat)
    requires m.f == ShowChildren() && m.flags == 0
    ensures var c, cv := FirstChunk(input), ChainingValue(m, Tree(m, input, t));
            && cv[0] == t % 0x1_0000_0000 && cv[1] == |c| - LastStart(|c|)
            && cv[2] == (if |c| <= 64 then 1 + 2 else 2)
            && (64 < |c| ==> cv[3] == t % 0x1_0000_0000 && cv[4] == 64 && cv[5] == if |c| <= 128 then 1 else 0)
    decreases |input|
  {
    hide ChunkNode, Words, Pad, CvBefore;
    FlagsApart(|FirstChunk(input)| <= 64);
    if |input| <= CHUNK_LEN {
      var i := LastStart(|input|) / 64;
      LastBlock(m, input, t, i);
      if i > 0 {
        EnteringShown(m, input, t, i - 1);
      }
    } else {
      var left := LeftChunks(ChunkCount(|input|));
      SubtreeCallShown(m, input[..CHUNK_LEN * left], t);
      assert FirstChunk(input[..CHUNK_LEN * left]) == FirstChunk(input);
    }
  }

  /**
    A digest of more than one chunk shows on the left the call that ends chunk 0, on the right the one
    that ends the first chunk after the greatest power of two of chunks, under that number.
   */
  lemma ChildrenShown(key: Cv, input: seq<Byte>, p: nat, length: nat, i: nat)
    requires IsPow2(p) && 1024 * p < |input| <= 2048 * p && 64 * i + 64 <= length
    ensures var h := Hash(Mode(ShowChildren(), key, 0), input, length);
            var right := FirstChunk(input[1024 * p..]);
            && WordOf(h, i, 0) == 0 && WordOf(h, i, 1) == 64 && WordOf(h, i, 2) == 2
            && WordOf(h, i, 8) == p % 0x1_0000_0000
            && WordOf(h, i, 9) == |right| - LastStart(|right|)
            && WordOf(h, i, 10) == (if |right| <= 64 then 1 + 2 else 2)
  {
    hide Hash, WordOf, Tree, FirstChunk, LastStart;
    var m := Mode(ShowChildren(), key, 0);
    ParentBlock(m, input, p);
    ChildWord(m, input, length, i, 0);
    ChildWord(m, input, length, i, 1);
    ChildWord(m, input, length, i, 2);
    ChildWord(m, input, length, i, 8);
    ChildWord(m, input, length, i, 9);
    ChildWord(m, input, length, i, 10);
  }

  /** The block of the root: the two calls, one in each half. */
  lemma ParentBlock(m: Mode, input: seq<Byte>, p: nat)
    requires m.f == ShowChildren() && m.flags == 0 && IsPow2(p) && 1024 * p < |input| <= 2048 * p
    ensures var b, right := Tree(m, input, 0).block, FirstChunk(input[1024 * p..]);
            && b[0] == 0 && b[1] == 64 && b[2] == 2
            && b[8] == p % 0x1_0000_0000 && b[9] == |right| - LastStart(|right|)
            && b[10] == (if |right| <= 64 then 1 + 2 else 2)
  {
    var left, right := input[..1024 * p], input[1024 * p..];
    WholeFirst(left);
    hide *;
    RootBlock(m, input, p);
    SubtreeCallShown(m, left, 0);
    SubtreeCallShown(m, right, p);
    JoinedCv(ChainingValue(m, Tree(m, left, 0)), ChainingValue(m, Tree(m, right, p)), Tree(m, input, 0).block);
    WholeStart();
  }

  lemma JoinedCv(a: Cv, b: Cv, block: Block)
    requires block == a + b
    ensures block[0] == a[0] && block[1] == a[1] && block[2] == a[2]
    ensures block[8] == b[0] && block[9] == b[1] && block[10] == b[2]
  {
  }

  lemma WholeStart()
    ensures LastStart(1024) == 960 && 0 % 0x1_0000_0000 == 0
  {
  }

  lemma WholeFirst(input: seq<Byte>)
    requires |input| >= 1024
    ensures |FirstChunk(input)| == 1024
  {
  }

  lemma ChildWord(m: Mode, input: seq<Byte>, length: nat, i: nat, k: nat)
    requires m.f == ShowChildren() && m.flags == 0 && |input| > 1024 && 64 * i + 64 <= length && k < 16
    ensures WordOf(Hash(m, input, length), i, k) == Tree(m, input, 0).block[k]
  {
    hide Hash, WordOf;
    RootIsParent(m, input);
    hide Tree;
    OutputWord(m, input, length, i, k);
    FlagsApart(true);
    hide FirstChunk;
  }
}
