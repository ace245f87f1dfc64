/** `serialized_size`, `serialize` and `deserialize` of hyperion/IndexTree.h, byte by byte. */
module Serialisation {
  import opened Wrappers
  import opened IndexTrees
  import opened Compaction
  import opened BlockLists
  import opened Slices

  type Byte = x: int | 0 <= x < 256

  // ----- machine words -----

  /** sizeof(size_t) and sizeof(COORD_T) */
  const WORD := 8

  function Power(k: nat): nat { if k == 0 then 1 else 256 * Power(k - 1) }

  /** k bytes of n, least significant first. */
  function Bytes(n: nat, k: nat): (bs: seq<Byte>)
    ensures |bs| == k
  {
    if k == 0 then [] else [n % 256] + Bytes(n / 256, k - 1)
  }

  function Number(bs: seq<Byte>): nat {
    if bs == [] then 0 else bs[0] + 256 * Number(bs[1..])
  }

  lemma {:induction false} NumberOfBytes(n: nat, k: nat)
    requires n < Power(k)
    ensures Number(Bytes(n, k)) == n
  {
    if k > 0 {
      assert n / 256 < Power(k - 1);
      NumberOfBytes(n / 256, k - 1);
    }
  }

  /** The range of a coordinate, and its two's complement pattern. */
  predicate IsCoord(i: int) { -(Power(WORD) / 2) <= i < Power(WORD) / 2 }

  function Pattern(i: int): nat
    requires IsCoord(i)
  {
    if i < 0 then Power(WORD) + i else i
  }

  function Coord(n: nat): int { if n >= Power(WORD) / 2 then n - Power(WORD) else n }

  function CoordWord(i: int): (bs: seq<Byte>)
    requires IsCoord(i)
    ensures |bs| == WORD
  {
    Bytes(Pattern(i), WORD)
  }

  function SizeWord(n: nat): (bs: seq<Byte>)
    ensures |bs| == WORD
  {
    Bytes(n, WORD)
  }

  lemma WordEven()
    ensures Power(WORD) == 2 * (Power(WORD) / 2) > 0
  {
    assert Power(8) == 256 * Power(7);
    Positive(7);
  }

  lemma {:induction false} Positive(k: nat)
    ensures Power(k) > 0
  {
    if k > 0 { Positive(k - 1); }
  }

  lemma CoordRoundTrip(i: int)
    requires IsCoord(i)
    ensures Coord(Number(CoordWord(i))) == i
  {
    WordEven();
    NumberOfBytes(Pattern(i), WORD);
  }

  // ----- the encoding -----

  function SerializedSize(t: Tree): nat
    decreases Depth(t.children), |t.children| + 1
  {
    WORD + BlocksSize(t.children)
  }

  function BlocksSize(bs: seq<Block>): nat
    decreases Depth(bs), |bs|
  {
    if bs == [] then 0 else (DepthHead(bs); 2 * WORD + SerializedSize(bs[0].sub) + BlocksSize(bs[1..]))
  }

  /** All numbers of the tree fit their machine words. */
  predicate Fits(t: Tree)
    decreases Depth(t.children), |t.children| + 1
  {
    SerializedSize(t) < Power(WORD) && BlocksFit(t.children)
  }

  predicate BlocksFit(bs: seq<Block>)
    decreases Depth(bs), |bs|
  {
    bs != [] ==> (DepthHead(bs); IsCoord(bs[0].start) && IsCoord(bs[0].count) && Fits(bs[0].sub) && BlocksFit(bs[1..]))
  }

  function Encode(t: Tree): seq<Byte>
    requires Fits(t)
    decreases Depth(t.children), |t.children| + 1
  {
    SizeWord(SerializedSize(t)) + EncodeBlocks(t.children)
  }

  function EncodeBlocks(bs: seq<Block>): seq<Byte>
    requires BlocksFit(bs)
    decreases Depth(bs), |bs|
  {
    if bs == [] then []
    else
      DepthHead(bs);
      CoordWord(bs[0].start) + CoordWord(bs[0].count) + Encode(bs[0].sub) + EncodeBlocks(bs[1..])
  }

  lemma {:induction false} EncodedSize(t: Tree)
    requires Fits(t)
    ensures |Encode(t)| == SerializedSize(t)
    decreases Depth(t.children), |t.children| + 1
  {
    EncodedBlocksSize(t.children);
  }

  lemma {:induction false} EncodedBlocksSize(bs: seq<Block>)
    requires BlocksFit(bs)
    ensures |EncodeBlocks(bs)| == BlocksSize(bs)
    decreases Depth(bs), |bs|
  {
    if bs != [] {
      DepthHead(bs);
      EncodedSize(bs[0].sub);
      EncodedBlocksSize(bs[1..]);
    }
  }

  lemma {:induction false} FitsAt(bs: seq<Block>, k: nat)
    requires BlocksFit(bs) && k < |bs|
    ensures IsCoord(bs[k].start) && IsCoord(bs[k].count) && Fits(bs[k].sub)
    ensures Depth(bs[k].sub.children) < Depth(bs) && BlocksFit(bs[k..]) && BlocksFit(bs[k + 1..])
  {
    DepthMember(bs, k);
    if k > 0 {
      FitsAt(bs[1..], k - 1);
      assert bs[1..][k - 1..] == bs[k..] && bs[1..][k..] == bs[k + 1..];
    }
  }

  lemma EncodeStep(bs: seq<Block>, k: nat)
    requires BlocksFit(bs) && k < |bs|
    ensures BlocksFit(bs[k..]) && BlocksFit(bs[k + 1..]) && IsCoord(bs[k].start) && IsCoord(bs[k].count)
        && Fits(bs[k].sub)
    ensures EncodeBlocks(bs[k..])
         == CoordWord(bs[k].start) + CoordWord(bs[k].count) + Encode(bs[k].sub) + EncodeBlocks(bs[k + 1..])
  {
    FitsAt(bs, k);
    assert bs[k..][1..] == bs[k + 1..];
    DepthHead(bs[k..]);
  }

  /** The constructor that `deserialize` ends with rebuilds a canonical tree from its own blocks. */
  lemma MakeCanonical(t: Tree)
    requires Canonical(t)
    ensures Make(t.children) == Success(t)
  {
    CompactOrdered(t.children);
    LookupDetermines(Compact(t.children).value, t.children);
  }

  // ----- the code -----

  /** `whole` is `orig` with `done` written over it at position n. */
  ghost predicate WrittenOver(whole: seq<Byte>, orig: seq<Byte>, n: nat, done: seq<Byte>) {
    n + |done| <= |orig| && whole == orig[..n] + done + orig[n + |done|..]
  }

  /** Writing more behind what is done. */
  lemma WriteMore(before: seq<Byte>, after: seq<Byte>, orig: seq<Byte>, n: nat, done: seq<Byte>, more: seq<Byte>)
    requires WrittenOver(before, orig, n, done) && WrittenOver(after, before, n + |done|, more)
    ensures WrittenOver(after, orig, n, done + more)
  {
    var end := n + |done + more|;
    assert |before| == |orig|;
    assert before[..n + |done|] == orig[..n] + done;
    assert before[end..] == orig[end..];
  }

  /** The size that is stored last, in front of what has been written. */
  lemma WriteHead(before: seq<Byte>, after: seq<Byte>, orig: seq<Byte>, n: nat, head: seq<Byte>, done: seq<Byte>)
    requires |head| == WORD && WORD <= |done| && WrittenOver(before, orig, n, done)
    requires WrittenOver(after, before, n, head)
    ensures WrittenOver(after, orig, n, head + done[WORD..])
  {
    assert before[n + WORD..] == done[WORD..] + orig[n + |done|..];
    assert before[..n] == orig[..n];
  }

  /** A store of one machine word. */
  method Store(buff: array<Byte>, at: nat, word: seq<Byte>)
    requires |word| == WORD && at + WORD <= buff.Length
    modifies buff
    ensures WrittenOver(buff[..], old(buff[..]), at, word)
  {
    var k := 0;
    while k < WORD
      invariant k <= WORD
      invariant buff[..] == old(buff[..at]) + word[..k] + old(buff[at + k..])
    {
      buff[at + k] := word[k];
      assert word[..k + 1] == word[..k] + [word[k]];
      k := k + 1;
    }
    assert word[..WORD] == word;
  }

  method StoreBlock(buff: array<Byte>, at: nat, i: int, n: int)
    requires IsCoord(i) && IsCoord(n) && at + 2 * WORD <= buff.Length
    modifies buff
    ensures WrittenOver(buff[..], old(buff[..]), at, CoordWord(i) + CoordWord(n))
  {
    hide WrittenOver, CoordWord, IsCoord;
    ghost var b0 := buff[..];
    Store(buff, at, CoordWord(i));
    ghost var b1 := buff[..];
    Store(buff, at + WORD, CoordWord(n));
    WriteMore(b1, buff[..], b0, at, CoordWord(i), CoordWord(n));
  }

  function Load(buff: array<Byte>, at: nat): (word: seq<Byte>)
    requires at + WORD <= buff.Length
    reads buff
    ensures |word| == WORD
  {
    buff[at..at + WORD]
  }

  method ComputeSize(t: Tree) returns (result: nat)
    ensures result == SerializedSize(t)
    decreases Depth(t.children)
  {
    result := WORD;
    var k := 0;
    assert t.children[0..] == t.children;
    while k < |t.children|
      invariant k <= |t.children| && result + BlocksSize(t.children[k..]) == SerializedSize(t)
    {
      DepthMember(t.children, k);
      assert t.children[k..][1..] == t.children[k + 1..];
      result := result + 2 * WORD;
      var n := ComputeSize(t.children[k].sub);
      result := result + n;
      k := k + 1;
    }
  }

  /** What is left to write fits behind what has been written. */
  lemma RoomLeft(bs: seq<Block>, k: nat, done: seq<Byte>)
    requires BlocksFit(bs) && k < |bs| && |done| >= WORD && BlocksFit(bs[k..])
    requires done[WORD..] + EncodeBlocks(bs[k..]) == EncodeBlocks(bs)
    ensures IsCoord(bs[k].start) && IsCoord(bs[k].count) && Fits(bs[k].sub) && BlocksFit(bs[k + 1..])
    ensures Depth(bs[k].sub.children) < Depth(bs)
    ensures |done| + 2 * WORD + SerializedSize(bs[k].sub) <= WORD + BlocksSize(bs)
    ensures var more := CoordWord(bs[k].start) + CoordWord(bs[k].count) + Encode(bs[k].sub);
            (done + more)[WORD..] + EncodeBlocks(bs[k + 1..]) == EncodeBlocks(bs)
  {
    hide CoordWord, Encode, EncodeBlocks, IsCoord, BlocksSize, SerializedSize, BlocksFit, Fits, Depth;
    FitsAt(bs, k);
    EncodeStep(bs, k);
    EncodedSize(bs[k].sub);
    EncodedBlocksSize(bs);
    var more := CoordWord(bs[k].start) + CoordWord(bs[k].count) + Encode(bs[k].sub);
    Regroup(done, more, EncodeBlocks(bs[k + 1..]), EncodeBlocks(bs));
  }

  lemma Regroup(done: seq<Byte>, more: seq<Byte>, rest: seq<Byte>, all: seq<Byte>)
    requires |done| >= WORD && done[WORD..] + (more + rest) == all
    ensures (done + more)[WORD..] + rest == all && |done| - WORD + |more| <= |all|
  {
    assert (done + more)[WORD..] == done[WORD..] + more;
    assert |done[WORD..] + (more + rest)| == |all|;
  }

  lemma StartEncoding(t: Tree, orig: seq<Byte>, at: nat)
    requires Fits(t) && at + SerializedSize(t) <= |orig|
    ensures at + WORD <= |orig| && WrittenOver(orig, orig, at, orig[at..at + WORD])
    ensures BlocksFit(t.children[0..]) && EncodeBlocks(t.children[0..]) == EncodeBlocks(t.children)
  {
    assert t.children[0..] == t.children;
  }

  /** The first k blocks have been written behind the place for the size. */
  ghost predicate BlocksWritten(whole: seq<Byte>, orig: seq<Byte>, at: nat, done: seq<Byte>, bs: seq<Block>, k: nat) {
    && k <= |bs| && BlocksFit(bs[k..]) && BlocksFit(bs) && WrittenOver(whole, orig, at, done)
    && |done| >= WORD && done[WORD..] + EncodeBlocks(bs[k..]) == EncodeBlocks(bs)
  }

  lemma NextBlock(whole: seq<Byte>, orig: seq<Byte>, at: nat, done: seq<Byte>, bs: seq<Block>, k: nat)
    requires BlocksWritten(whole, orig, at, done, bs, k) && k < |bs|
    ensures IsCoord(bs[k].start) && IsCoord(bs[k].count) && Fits(bs[k].sub) && Depth(bs[k].sub.children) < Depth(bs)
    ensures |done| + 2 * WORD + SerializedSize(bs[k].sub) <= WORD + BlocksSize(bs) && |whole| == |orig|
  {
    RoomLeft(bs, k, done);
  }

  lemma BlockWritten(b0: seq<Byte>, b1: seq<Byte>, b2: seq<Byte>, orig: seq<Byte>, at: nat, done: seq<Byte>,
                     bs: seq<Block>, k: nat)
    requires BlocksWritten(b0, orig, at, done, bs, k) && k < |bs|
    requires IsCoord(bs[k].start) && IsCoord(bs[k].count) && Fits(bs[k].sub)
    requires WrittenOver(b1, b0, at + |done|, CoordWord(bs[k].start) + CoordWord(bs[k].count))
    requires WrittenOver(b2, b1, at + |done| + 2 * WORD, Encode(bs[k].sub))
    ensures var more := CoordWord(bs[k].start) + CoordWord(bs[k].count) + Encode(bs[k].sub);
            BlocksWritten(b2, orig, at, done + more, bs, k + 1)
            && |done + more| == |done| + 2 * WORD + SerializedSize(bs[k].sub)
  {
    hide Encode, CoordWord, WrittenOver, EncodeBlocks, IsCoord;
    var words := CoordWord(bs[k].start) + CoordWord(bs[k].count);
    RoomLeft(bs, k, done);
    EncodedSize(bs[k].sub);
    WriteMore(b0, b1, orig, at, done, words);
    WriteMore(b1, b2, orig, at, done + words, Encode(bs[k].sub));
    assert done + words + Encode(bs[k].sub) == done + (words + Encode(bs[k].sub));
  }

  lemma AllWritten(whole: seq<Byte>, after: seq<Byte>, orig: seq<Byte>, at: nat, done: seq<Byte>, t: Tree)
    requires Fits(t) && BlocksWritten(whole, orig, at, done, t.children, |t.children|)
    requires WrittenOver(after, whole, at, SizeWord(|done|))
    ensures |done| == SerializedSize(t) && WrittenOver(after, orig, at, Encode(t))
  {
    hide SizeWord, WrittenOver, Encode;
    EncodingDone(t, done);
    WriteHead(whole, after, orig, at, SizeWord(|done|), done);
  }

  lemma WrittenLength(whole: seq<Byte>, orig: seq<Byte>, at: nat, done: seq<Byte>, bs: seq<Block>, k: nat)
    requires BlocksWritten(whole, orig, at, done, bs, k)
    ensures at + |done| <= |orig| && |done| >= WORD
  {
  }

  /** The blocks behind the size word, then the size word. */
  method SerializeAt(t: Tree, buff: array<Byte>, at: nat) returns (n: nat)
    requires Fits(t) && at + SerializedSize(t) <= buff.Length
    modifies buff
    ensures n == SerializedSize(t) && WrittenOver(buff[..], old(buff[..]), at, Encode(t))
    decreases Depth(t.children)
  {
    hide Encode, EncodeBlocks, CoordWord, SizeWord, WrittenOver, IsCoord, BlocksFit, BlocksSize, Depth, BlocksWritten;
    ghost var orig, bs := buff[..], t.children;
    ghost var done := orig[at..at + WORD];
    StartEncoding(t, orig, at);
    StartWritten(t, orig, at);
    var cur := at + WORD;
    var k := 0;
    while k < |t.children|
      invariant k <= |bs| && cur == at + |done| && BlocksWritten(buff[..], orig, at, done, bs, k)
    {
      var Block(i, c, s) := t.children[k];
      ghost var b0 := buff[..];
      NextBlock(b0, orig, at, done, bs, k);
      StoreBlock(buff, cur, i, c);
      ghost var b1 := buff[..];
      cur := cur + 2 * WORD;
      var m := SerializeAt(s, buff, cur);
      BlockWritten(b0, b1, buff[..], orig, at, done, bs, k);
      cur := cur + m;
      done := done + (CoordWord(i) + CoordWord(c) + Encode(s));
      k := k + 1;
    }
    n := cur - at;
    ghost var b2 := buff[..];
    WrittenLength(b2, orig, at, done, bs, k);
    Store(buff, at, SizeWord(n));
    AllWritten(b2, buff[..], orig, at, done, t);
  }

  lemma StartWritten(t: Tree, orig: seq<Byte>, at: nat)
    requires Fits(t) && at + SerializedSize(t) <= |orig|
    ensures BlocksWritten(orig, orig, at, orig[at..at + WORD], t.children, 0)
  {
    StartEncoding(t, orig, at);
    var done := orig[at..at + WORD];
    assert done[WORD..] + EncodeBlocks(t.children) == EncodeBlocks(t.children);
  }

  lemma EncodingDone(t: Tree, done: seq<Byte>)
    requires Fits(t) && |done| >= WORD && BlocksFit(t.children[|t.children|..])
    requires done[WORD..] + EncodeBlocks(t.children[|t.children|..]) == EncodeBlocks(t.children)
    ensures |done| == SerializedSize(t) && Encode(t) == SizeWord(|done|) + done[WORD..]
  {
    hide SizeWord;
    EncodedBlocksSize(t.children);
    NoBlocksLeft(t.children);
    assert done[WORD..] + [] == done[WORD..];
  }

  lemma NoBlocksLeft(bs: seq<Block>)
    ensures BlocksFit(bs[|bs|..]) && EncodeBlocks(bs[|bs|..]) == []
  {
  }

  // ----- reading -----

  lemma HoldsWord(buff: seq<Byte>, at: nat, word: seq<Byte>)
    requires HoldsAt(buff, at, word) && |word| == WORD
    ensures at + WORD <= |buff| && buff[at..at + WORD] == word
  {
  }

  lemma SizeRoundTrip(n: nat)
    requires n < Power(WORD)
    ensures Number(SizeWord(n)) == n
  {
    NumberOfBytes(n, WORD);
  }

  /** The pieces of the encoding of block k, where the reader finds them. */
  lemma BlockPieces(buff: seq<Byte>, bs: seq<Block>, k: nat, at: nat)
    requires CanonicalSubs(bs) && BlocksFit(bs) && k < |bs| && BlocksFit(bs[k..])
        && HoldsAt(buff, at, EncodeBlocks(bs[k..]))
    ensures IsCoord(bs[k].start) && IsCoord(bs[k].count) && Fits(bs[k].sub) && Canonical(bs[k].sub)
        && BlocksFit(bs[k + 1..])
    ensures Depth(bs[k].sub.children) < Depth(bs)
    ensures HoldsAt(buff, at, CoordWord(bs[k].start)) && HoldsAt(buff, at + WORD, CoordWord(bs[k].count))
    ensures HoldsAt(buff, at + 2 * WORD, Encode(bs[k].sub))
    ensures HoldsAt(buff, at + 2 * WORD, SizeWord(SerializedSize(bs[k].sub)))
    ensures HoldsAt(buff, at + 2 * WORD + SerializedSize(bs[k].sub), EncodeBlocks(bs[k + 1..]))
    ensures SerializedSize(bs[k].sub) < Power(WORD)
    ensures BlocksSize(bs[k..]) == 2 * WORD + SerializedSize(bs[k].sub) + BlocksSize(bs[k + 1..])
  {
    hide HoldsAt, CoordWord, IsCoord, SizeWord, BlocksSize, BlocksFit, Encode, EncodeBlocks, Fits, SerializedSize,
         Depth, CanonicalSubs, Canonical;
    SubCanonical(bs, k);
    FitsAt(bs, k);
    EncodeStep(bs, k);
    SizeStep(bs, k);
    EncodedSize(bs[k].sub);
    var a, b, c, d := CoordWord(bs[k].start), CoordWord(bs[k].count), Encode(bs[k].sub), EncodeBlocks(bs[k + 1..]);
    HoldsSplit(buff, at, a + b + c, d);
    HoldsSplit(buff, at, a + b, c);
    HoldsSplit(buff, at, a, b);
    StartDecoding(buff, at + 2 * WORD, bs[k].sub);
  }

  lemma SizeStep(bs: seq<Block>, k: nat)
    requires k < |bs|
    ensures BlocksSize(bs[k..]) == 2 * WORD + SerializedSize(bs[k].sub) + BlocksSize(bs[k + 1..])
  {
    assert bs[k..][1..] == bs[k + 1..];
  }

  lemma StartDecoding(buff: seq<Byte>, at: nat, t: Tree)
    requires Fits(t) && HoldsAt(buff, at, Encode(t))
    ensures HoldsAt(buff, at, SizeWord(SerializedSize(t))) && SerializedSize(t) < Power(WORD)
    ensures t.children[0..] == t.children && BlocksFit(t.children)
        && HoldsAt(buff, at + WORD, EncodeBlocks(t.children[0..]))
    ensures SerializedSize(t) == WORD + BlocksSize(t.children[0..])
  {
    assert t.children[0..] == t.children;
    HoldsSplit(buff, at, SizeWord(SerializedSize(t)), EncodeBlocks(t.children));
  }

  lemma MoreBlocks(bs: seq<Block>, k: nat)
    requires k <= |bs|
    ensures BlocksSize(bs[k..]) > 0 <==> k < |bs|
  {
    if k < |bs| { SizeStep(bs, k); }
  }

  /** The first k blocks have been read, and the others stand between cur and end. */
  ghost predicate BlocksRead(s: seq<Byte>, cur: nat, end: nat, bs: seq<Block>, k: nat) {
    && k <= |bs| && CanonicalSubs(bs) && BlocksFit(bs) && BlocksFit(bs[k..])
    && HoldsAt(s, cur, EncodeBlocks(bs[k..])) && cur + BlocksSize(bs[k..]) == end
  }

  lemma ReadEnd(s: seq<Byte>, cur: nat, end: nat, bs: seq<Block>, k: nat)
    requires BlocksRead(s, cur, end, bs, k)
    ensures cur != end <==> k < |bs|
  {
    hide HoldsAt, EncodeBlocks, BlocksFit, CanonicalSubs, BlocksSize;
    MoreBlocks(bs, k);
  }

  lemma Loads(s: seq<Byte>, cur: nat, b: Block)
    requires IsCoord(b.start) && IsCoord(b.count) && SerializedSize(b.sub) < Power(WORD)
    requires HoldsAt(s, cur, CoordWord(b.start)) && HoldsAt(s, cur + WORD, CoordWord(b.count))
    requires HoldsAt(s, cur + 2 * WORD, SizeWord(SerializedSize(b.sub)))
    ensures cur + 3 * WORD <= |s|
    ensures Coord(Number(s[cur..cur + WORD])) == b.start && Coord(Number(s[cur + WORD..cur + 2 * WORD])) == b.count
    ensures Number(s[cur + 2 * WORD..cur + 3 * WORD]) == SerializedSize(b.sub)
  {
    hide HoldsAt, CoordWord, SizeWord, IsCoord, Number, Coord, Power, SerializedSize;
    CoordRoundTrip(b.start);
    CoordRoundTrip(b.count);
    SizeRoundTrip(SerializedSize(b.sub));
    HoldsWord(s, cur, CoordWord(b.start));
    HoldsWord(s, cur + WORD, CoordWord(b.count));
    HoldsWord(s, cur + 2 * WORD, SizeWord(SerializedSize(b.sub)));
  }

  /** What the loads of one turn of the loop yield. */
  lemma ReadBlock(s: seq<Byte>, cur: nat, end: nat, bs: seq<Block>, k: nat)
    requires BlocksRead(s, cur, end, bs, k) && k < |bs|
    ensures cur + 3 * WORD <= |s| && Canonical(bs[k].sub) && Fits(bs[k].sub)
    ensures Depth(bs[k].sub.children) < Depth(bs)
    ensures Coord(Number(s[cur..cur + WORD])) == bs[k].start
    ensures Coord(Number(s[cur + WORD..cur + 2 * WORD])) == bs[k].count
    ensures HoldsAt(s, cur + 2 * WORD, Encode(bs[k].sub))
    ensures BlocksRead(s, cur + 2 * WORD + Number(s[cur + 2 * WORD..cur + 3 * WORD]), end, bs, k + 1)
  {
    hide HoldsAt, Encode, EncodeBlocks, CoordWord, SizeWord, IsCoord, BlocksSize, Number, Coord, Depth, BlocksFit, Fits,
         CanonicalSubs, Canonical, SerializedSize, Power;
    BlockPieces(s, bs, k, cur);
    Loads(s, cur, bs[k]);
  }

  lemma StartRead(s: seq<Byte>, at: nat, t: Tree)
    requires Canonical(t) && Fits(t) && HoldsAt(s, at, Encode(t))
    ensures at + WORD <= |s| && Number(s[at..at + WORD]) >= WORD
    ensures BlocksRead(s, at + WORD, at + Number(s[at..at + WORD]), t.children, 0)
  {
    StartDecoding(s, at, t);
    SizeRoundTrip(SerializedSize(t));
    HoldsWord(s, at, SizeWord(SerializedSize(t)));
  }

  /** Reading from where t has been written, whatever follows it: the loop ends exactly at `end`, with t. */
  method DeserializeAt(buff: array<Byte>, at: nat, ghost t: Tree) returns (r: Result<Tree, CompactError>)
    requires Canonical(t) && Fits(t) && HoldsAt(buff[..], at, Encode(t))
    ensures r == Success(t)
    decreases Depth(t.children)
  {
    hide HoldsAt, Encode, Number, Coord, Depth, BlocksFit, Fits, BlocksRead, CanonicalSubs, Canonical;
    ghost var bs, s := t.children, buff[..];
    StartRead(s, at, t);
    var sz := Number(Load(buff, at));
    assert buff[at..at + WORD] == s[at..at + WORD];
    var end: nat := at + sz;
    var cur: nat := at + WORD;
    var ch: seq<Block> := [];
    ghost var k := 0;
    while cur != end
      invariant k <= |bs| && BlocksRead(s, cur, end, bs, k) && ch == bs[..k]
      decreases |bs| - k
    {
      ReadEnd(s, cur, end, bs, k);
      ReadBlock(s, cur, end, bs, k);
      assert buff[cur..cur + WORD] == s[cur..cur + WORD];
      assert buff[cur + WORD..cur + 2 * WORD] == s[cur + WORD..cur + 2 * WORD];
      assert buff[cur + 2 * WORD..cur + 3 * WORD] == s[cur + 2 * WORD..cur + 3 * WORD];
      var i := Coord(Number(Load(buff, cur)));
      cur := cur + WORD;
      var n := Coord(Number(Load(buff, cur)));
      cur := cur + WORD;
      var next := cur + Number(Load(buff, cur));
      var sub := DeserializeAt(buff, cur, bs[k].sub);
      ch := ch + [Block(i, n, sub.value)];
      cur := next;
      k := k + 1;
    }
    ReadEnd(s, cur, end, bs, k);
    assert bs[..|bs|] == bs;
    MakeCanonical(t);
    r := NewTree(ch);
  }

  /** A tree survives serialisation into a buffer that holds other things before and after it. */
  method WriteAndRead(t: Tree, buff: array<Byte>, at: nat) returns (n: nat, r: Result<Tree, CompactError>)
    requires Canonical(t) && Fits(t) && at + SerializedSize(t) <= buff.Length
    modifies buff
    ensures n == SerializedSize(t) && r == Success(t)
    ensures buff[..at] == old(buff[..at]) && buff[at + n..] == old(buff[at + n..])
  {
    hide Encode;
    ghost var orig := buff[..];
    EncodedSize(t);
    n := SerializeAt(t, buff, at);
    ReadBack(buff[..], orig, at, Encode(t));
    assert buff[..at] == buff[..][..at] && buff[at + n..] == buff[..][at + n..];
    r := DeserializeAt(buff, at, t);
  }

  lemma ReadBack(whole: seq<Byte>, orig: seq<Byte>, at: nat, piece: seq<Byte>)
    requires WrittenOver(whole, orig, at, piece)
    ensures HoldsAt(whole, at, piece) && |whole| == |orig|
    ensures whole[..at] == orig[..at] && whole[at + |piece|..] == orig[at + |piece|..]
  {
  }
}
