/** The size and layout of a serialised index tree, in bytes: words of 64 bits, least significant byte first. */
module SerialisedLayout {
  import opened IndexTrees
  import opened Serialisation

  /** The number of blocks on all levels. */
  function BlocksIn(bs: seq<Block>): nat
    decreases Depth(bs), |bs|
  {
    if bs == [] then 0 else (DepthHead(bs); 1 + BlocksIn(bs[0].sub.children) + BlocksIn(bs[1..]))
  }

  /** The eight bytes of a number. */
  function Word(n: nat): (bs: seq<Byte>)
    ensures |bs| == 8
  {
    [n % 256, n / 0x100 % 256, n / 0x1_0000 % 256, n / 0x100_0000 % 256, n / 0x1_0000_0000 % 256,
     n / 0x100_0000_0000 % 256, n / 0x1_0000_0000_0000 % 256, n / 0x100_0000_0000_0000 % 256]
  }

  predicate InSixtyFourBits(i: int) { -0x8000_0000_0000_0000 <= i < 0x8000_0000_0000_0000 }

  /** The two's complement of a coordinate. */
  function Unsigned(i: int): nat
    requires InSixtyFourBits(i)
  {
    if i < 0 then i + 0x1_0000_0000_0000_0000 else i
  }

  lemma PowerOfEight()
    ensures Power(8) == 0x1_0000_0000_0000_0000
  {
    assert Power(2) == 0x1_0000;
    assert Power(4) == 0x1_0000_0000;
    assert Power(6) == 0x1_0000_0000_0000;
  }

  lemma {:induction false} SizeInBytes(t: Tree)
    ensures SerializedSize(t) == 8 + 24 * BlocksIn(t.children)
    decreases Depth(t.children), |t.children| + 1
  {
    BlocksInBytes(t.children);
  }

  lemma {:induction false} BlocksInBytes(bs: seq<Block>)
    ensures BlocksSize(bs) == 24 * BlocksIn(bs)
    decreases Depth(bs), |bs|
  {
    if bs != [] {
      DepthHead(bs);
      SizeInBytes(bs[0].sub);
      BlocksInBytes(bs[1..]);
    }
  }

  lemma CoordsAre(i: int)
    ensures IsCoord(i) <==> InSixtyFourBits(i)
  {
    PowerOfEight();
  }

  lemma Divide(n: nat, a: nat)
    requires a > 0
    ensures n / a / 256 == n / (256 * a)
  {
    var q, r := n / a, n % a;
    Compose(n, a, q, r, q / 256, q % 256);
  }

  lemma Compose(n: nat, a: nat, q: nat, r: nat, q': nat, r': nat)
    requires a > 0 && n == a * q + r && r < a && q == 256 * q' + r' && r' < 256
    ensures n / (256 * a) == q'
  {
    var d, m := 256 * a, a * r' + r;
    assert a * q == a * (256 * q') + a * r' && a * (256 * q') == d * q';
    assert a * r' <= a * 255 by { Monotone(a, r', 255); }
    Unique(n, d, q', m);
  }

  lemma Monotone(a: nat, x: int, y: int)
    requires x <= y
    ensures a * x <= a * y
  {
    assert a * y == a * x + a * (y - x) && a * (y - x) >= 0;
  }

  lemma Unique(n: nat, d: nat, q: nat, r: nat)
    requires d > 0 && n == d * q + r && r < d
    ensures n / d == q
  {
    var e := n / d - q;
    assert n == d * (n / d) + n % d && d * (n / d) == d * q + d * e;
    Multiple(d, e);
  }

  lemma Multiple(d: nat, e: int)
    ensures (e >= 1 ==> d * e >= d) && (e <= -1 ==> d * e + d <= 0)
  {
    if e >= 1 { Monotone(d, 1, e); } else if e <= -1 { Monotone(d, e, -1); }
  }

  lemma WordIs(n: nat)
    ensures Bytes(n, 8) == Word(n)
  {
    Divide(n, 0x100);
    Divide(n, 0x1_0000);
    Divide(n, 0x100_0000);
    Divide(n, 0x1_0000_0000);
    Divide(n, 0x100_0000_0000);
    Divide(n, 0x1_0000_0000_0000);
    BytesFrom(n, 0);
    BytesFrom(n / 0x100, 1);
    BytesFrom(n / 0x1_0000, 2);
    BytesFrom(n / 0x100_0000, 3);
    BytesFrom(n / 0x1_0000_0000, 4);
    BytesFrom(n / 0x100_0000_0000, 5);
    BytesFrom(n / 0x1_0000_0000_0000, 6);
    BytesFrom(n / 0x100_0000_0000_0000, 7);
  }

  lemma BytesFrom(n: nat, k: nat)
    requires k < 8
    ensures Bytes(n, 8 - k) == [n % 256] + Bytes(n / 256, 7 - k) && Bytes(n, 0) == []
  {
  }

  /** A coordinate takes eight bytes, those of its two's complement. */
  lemma CoordInBytes(i: int)
    requires IsCoord(i)
    ensures InSixtyFourBits(i) && CoordWord(i) == Word(Unsigned(i))
  {
    CoordsAre(i);
    PowerOfEight();
    WordIs(Unsigned(i));
  }

  /** All starts and counts on all levels are in range. */
  predicate CoordsInRange(bs: seq<Block>)
    decreases Depth(bs), |bs|
  {
    bs != [] ==>
      (DepthHead(bs);
       InSixtyFourBits(bs[0].start) && InSixtyFourBits(bs[0].count) && CoordsInRange(bs[0].sub.children)
       && CoordsInRange(bs[1..]))
  }

  /** What can be written: trees of less than 2 to the 64 bytes with 64-bit coordinates. */
  lemma {:induction false} FitsIs(t: Tree)
    ensures Fits(t) <==> 8 + 24 * BlocksIn(t.children) < 0x1_0000_0000_0000_0000 && CoordsInRange(t.children)
    decreases Depth(t.children), |t.children| + 1
  {
    PowerOfEight();
    SizeInBytes(t);
    if 8 + 24 * BlocksIn(t.children) < 0x1_0000_0000_0000_0000 { BlocksFitIs(t.children); }
  }

  lemma {:induction false} BlocksFitIs(bs: seq<Block>)
    requires 8 + 24 * BlocksIn(bs) < 0x1_0000_0000_0000_0000
    ensures BlocksFit(bs) <==> CoordsInRange(bs)
    decreases Depth(bs), |bs|
  {
    if bs != [] {
      DepthHead(bs);
      CoordsAre(bs[0].start);
      CoordsAre(bs[0].count);
      FitsIs(bs[0].sub);
      BlocksFitIs(bs[1..]);
    }
  }

  /** The first eight bytes are the size of the whole encoding. */
  lemma HeaderInBytes(t: Tree)
    requires Fits(t)
    ensures |Encode(t)| == 8 + 24 * BlocksIn(t.children) && Encode(t)[..8] == Word(8 + 24 * BlocksIn(t.children))
  {
    SizeInBytes(t);
    EncodedSize(t);
    WordIs(SerializedSize(t));
  }

  lemma {:induction false} BlocksBefore(bs: seq<Block>, k: nat)
    requires BlocksFit(bs) && k < |bs|
    ensures BlocksFit(bs[k..]) && BlocksIn(bs[..k]) + BlocksIn(bs[k..]) == BlocksIn(bs)
    ensures |EncodeBlocks(bs)| == 24 * BlocksIn(bs)
    ensures EncodeBlocks(bs)[24 * BlocksIn(bs[..k])..] == EncodeBlocks(bs[k..])
    decreases |bs|
  {
    hide Encode, CoordWord, Fits, IsCoord;
    EncodedBlocksSize(bs);
    BlocksInBytes(bs);
    if k == 0 {
      assert bs[..0] == [] && bs[0..] == bs;
    } else {
      BlocksBefore(bs[1..], k - 1);
      DepthHead(bs);
      DepthHead(bs[..k]);
      assert bs[..k][0] == bs[0] && bs[..k][1..] == bs[1..][..k - 1] && bs[1..][k - 1..] == bs[k..];
      FirstBlockInBytes(bs);
      var n := 24 + 24 * BlocksIn(bs[0].sub.children);
      assert EncodeBlocks(bs)[n..][24 * BlocksIn(bs[1..][..k - 1])..] == EncodeBlocks(bs)[24 * BlocksIn(bs[..k])..];
    }
  }

  lemma Pieces(a: seq<Byte>, b: seq<Byte>, c: seq<Byte>, r: seq<Byte>)
    ensures var e, i, j := a + b + c + r, |a| + |b|, |a| + |b| + |c|;
            j <= |e| && e[..|a|] == a && e[|a|..i] == b && e[i..j] == c && e[j..] == r
  {
  }

  lemma FirstBlockInBytes(bs: seq<Block>)
    requires BlocksFit(bs) && bs != []
    ensures InSixtyFourBits(bs[0].start) && InSixtyFourBits(bs[0].count) && Fits(bs[0].sub) && BlocksFit(bs[1..])
    ensures var e, n := EncodeBlocks(bs), 24 + 24 * BlocksIn(bs[0].sub.children);
            && n <= |e|
            && e[..8] == Word(Unsigned(bs[0].start)) && e[8..16] == Word(Unsigned(bs[0].count))
            && e[16..n] == Encode(bs[0].sub) && e[n..] == EncodeBlocks(bs[1..])
  {
    hide CoordWord, Encode, IsCoord, Word, BlocksIn, Fits;
    EncodeStep(bs, 0);
    assert bs[0..] == bs;
    CoordInBytes(bs[0].start);
    CoordInBytes(bs[0].count);
    HeaderInBytes(bs[0].sub);
    Pieces(CoordWord(bs[0].start), CoordWord(bs[0].count), Encode(bs[0].sub), EncodeBlocks(bs[1..]));
  }

  /** Block k of a tree, behind the header and the blocks before it: start, count and the subtree's own encoding. */
  lemma BlockInBytes(t: Tree, k: nat)
    requires Fits(t) && k < |t.children|
    ensures InSixtyFourBits(t.children[k].start) && InSixtyFourBits(t.children[k].count) && Fits(t.children[k].sub)
    ensures var e, b, at := Encode(t), t.children[k], 8 + 24 * BlocksIn(t.children[..k]);
            var end := at + 24 + 24 * BlocksIn(b.sub.children);
            && end <= |e| && e[at..at + 8] == Word(Unsigned(b.start)) && e[at + 8..at + 16] == Word(Unsigned(b.count))
            && e[at + 16..end] == Encode(b.sub)
  {
    hide Encode, EncodeBlocks, CoordWord, IsCoord, Word, BlocksIn, BlocksFit, Fits;
    var bs := t.children;
    BlocksOf(t);
    BlocksBefore(bs, k);
    FirstBlockInBytes(bs[k..]);
    var at, end := 24 * BlocksIn(bs[..k]), 24 + 24 * BlocksIn(bs[k].sub.children);
    HeaderInBytes(t);
    Nested(Encode(t), EncodeBlocks(bs), EncodeBlocks(bs[k..]), at, 0, 8);
    Nested(Encode(t), EncodeBlocks(bs), EncodeBlocks(bs[k..]), at, 8, 16);
    Nested(Encode(t), EncodeBlocks(bs), EncodeBlocks(bs[k..]), at, 16, end);
  }

  /** A piece of a tail of a tail. */
  lemma Nested(e: seq<Byte>, f: seq<Byte>, g: seq<Byte>, at: nat, i: nat, j: nat)
    requires |e| >= 8 && e[8..] == f && at <= |f| && f[at..] == g && i <= j <= |g|
    ensures 8 + at + j <= |e| && e[8 + at + i..8 + at + j] == g[i..j]
  {
    forall m | i <= m < j ensures e[8 + at + m] == g[m] {
      assert e[8 + at + m] == f[at + m];
    }
  }

  lemma BlocksOf(t: Tree)
    requires Fits(t)
    ensures BlocksFit(t.children) && |Encode(t)| >= 8 && Encode(t)[8..] == EncodeBlocks(t.children)
  {
    assert |SizeWord(SerializedSize(t))| == 8;
    assert Encode(t) == SizeWord(SerializedSize(t)) + EncodeBlocks(t.children);
  }
}
