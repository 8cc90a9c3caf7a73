/** The block tree and its skip pointers. */
module BlockTree {
  import opened Numbers

  // ---------------------------------------------------------------- where a skip pointer leads

  /** n & (n - 1) */
  function InvertLowestOne(n: nat): nat {
    if n == 0 then 0 else BitAnd(n, n - 1)
  }

  lemma {:induction false} AndSame(n: nat)
    ensures BitAnd(n, n) == n
  {
    if n > 0 { AndSame(n / 2); }
  }

  /** The lowest one, at position k, becomes a zero; all other bits stay. */
  lemma {:induction false} InvertsLowestOne(m: nat, k: nat)
    ensures (2 * m + 1) * Pow(2, k) > 0
    ensures InvertLowestOne((2 * m + 1) * Pow(2, k)) == 2 * m * Pow(2, k)
  {
    PowPos(2, k);
    MulMono(1, 2 * m + 1, Pow(2, k));
    MulNonneg(2 * m, Pow(2, k));
    var n, n' := (2 * m + 1) * Pow(2, k), 2 * m * Pow(2, k);
    if k == 0 {
      AndSame(m);
      assert n == 2 * m + 1 && n - 1 == 2 * m && n' == 2 * m;
      assert n / 2 == m && (n - 1) / 2 == m;
    } else {
      var h, h' := (2 * m + 1) * Pow(2, k - 1), 2 * m * Pow(2, k - 1);
      assert n == 2 * h by { assert (2 * m + 1) * (2 * Pow(2, k - 1)) == 2 * ((2 * m + 1) * Pow(2, k - 1)); }
      assert n' == 2 * h' by { assert 2 * m * (2 * Pow(2, k - 1)) == 2 * (2 * m * Pow(2, k - 1)); }
      InvertsLowestOne(m, k - 1);
      assert n / 2 == h && (n - 1) / 2 == h - 1;
    }
  }

  lemma {:induction false} OddPart(n: nat) returns (m: nat, k: nat)
    requires n > 0
    ensures n == (2 * m + 1) * Pow(2, k)
  {
    if n % 2 == 1 {
      m, k := n / 2, 0;
    } else {
      m, k := OddPart(n / 2);
      assert (2 * m + 1) * (2 * Pow(2, k)) == 2 * ((2 * m + 1) * Pow(2, k));
      k := k + 1;
    }
  }

  lemma InvertLess(n: nat)
    ensures InvertLowestOne(n) <= n && (n > 0 ==> InvertLowestOne(n) < n)
  {
    hide InvertLowestOne;
    if n > 0 {
      var m, k := OddPart(n);
      InvertsLowestOne(m, k);
      PowPos(2, k);
      assert (2 * m + 1) * Pow(2, k) == 2 * m * Pow(2, k) + Pow(2, k);
    } else {
      assert InvertLowestOne(0) == 0 by { InvertZero(); }
    }
  }

  lemma InvertZero()
    ensures InvertLowestOne(0) == 0
  {
  }

  /** Where a skip pointer leads: always further back. */
  function GetSkipHeight(height: nat): (r: nat)
    ensures height > 0 ==> r < height
  {
    if height < 2 then 0
    else if height % 2 == 1 then
      InvertLess(height - 1);
      InvertLess(InvertLowestOne(height - 1));
      InvertLowestOne(InvertLowestOne(height - 1)) + 1
    else
      InvertLess(height);
      InvertLowestOne(height)
  }

  // ---------------------------------------------------------------- blocks

  class BlockIndex {
    const pprev: BlockIndex?
    const nHeight: nat
    const nTimeMax: int
    var pskip: BlockIndex?

    constructor (pprev: BlockIndex?, nHeight: nat, nTimeMax: int)
      ensures this.pprev == pprev && this.nHeight == nHeight && this.nTimeMax == nTimeMax && pskip == null
    {
      this.pprev, this.nHeight, this.nTimeMax, pskip := pprev, nHeight, nTimeMax, null;
    }

    /** The ancestor at a height, by way of the skip pointers. */
    method GetAncestor(height: int, ghost tree: set<BlockIndex>) returns (r: BlockIndex?)
      requires Tree(tree) && SkipsOk(tree) && this in tree
      ensures if 0 <= height <= nHeight then r == AncestorAt(this, height) && r in tree else r == null
    {
      if height > nHeight || height < 0 {
        return null;
      }
      var walk: BlockIndex := this;
      var heightWalk := nHeight;
      while heightWalk > height
        invariant walk in tree && Rooted(walk) && height <= walk.nHeight == heightWalk
        invariant AncestorAt(walk, height) == AncestorAt(this, height)
      {
        hide GetSkipHeight, AncestorAt;
        var heightSkip := GetSkipHeight(heightWalk);
        var heightSkipPrev := GetSkipHeight(heightWalk - 1);
        if walk.pskip != null
           && (heightSkip == height || (heightSkip > height && !(heightSkipPrev < heightSkip - 2 && heightSkipPrev >= height))) {
          AncestorTwice(walk, heightSkip, height);
          AncestorIn(tree, walk, heightSkip);
          walk := walk.pskip;
          heightWalk := heightSkip;
        } else {
          AncestorTwice(walk, heightWalk - 1, height);
          AncestorPrev(walk);
          walk := walk.pprev;
          heightWalk := heightWalk - 1;
        }
      }
      AncestorSelf(walk);
      r := walk;
    }

    /** Sets the skip pointer of a block, new or not, from those of its ancestors. */
    method BuildSkip(ghost tree: set<BlockIndex>)
      requires Tree(tree) && SkipsOk(tree) && this in tree
      modifies this`pskip
      ensures SkipsOk(tree)
      ensures if pprev == null then pskip == old(pskip) else pskip == AncestorAt(this, GetSkipHeight(nHeight))
    {
      hide GetSkipHeight;
      if pprev != null {
        pskip := pprev.GetAncestor(GetSkipHeight(nHeight), tree);
      }
    }
  }

  /** Heights count the blocks below, down to a block without parent. */
  ghost predicate Rooted(b: BlockIndex)
    decreases b.nHeight
  {
    if b.pprev == null then b.nHeight == 0 else b.pprev.nHeight + 1 == b.nHeight && Rooted(b.pprev)
  }

  /** The ancestor at height h, by following pprev. */
  ghost function AncestorAt(b: BlockIndex, h: nat): (a: BlockIndex)
    requires Rooted(b) && h <= b.nHeight
    ensures Rooted(a) && a.nHeight == h
    decreases b.nHeight
  {
    if h == b.nHeight then b else AncestorAt(b.pprev, h)
  }

  /** A set of blocks that holds every parent. */
  ghost predicate Tree(tree: set<BlockIndex>) {
    forall b | b in tree :: Rooted(b) && (b.pprev != null ==> b.pprev in tree)
  }

  /** Every skip pointer is unset or leads where it should. */
  ghost predicate SkipsOk(tree: set<BlockIndex>)
    requires Tree(tree)
    reads tree
  {
    forall b | b in tree && b.pskip != null :: b.nHeight > 0 && b.pskip == AncestorAt(b, GetSkipHeight(b.nHeight))
  }

  lemma AncestorSelf(b: BlockIndex)
    requires Rooted(b)
    ensures AncestorAt(b, b.nHeight) == b
  {
  }

  lemma RootIs(b: BlockIndex)
    requires Rooted(b)
    ensures b.pprev == null <==> b.nHeight == 0
  {
  }

  lemma AncestorPrev(b: BlockIndex)
    requires Rooted(b) && b.nHeight > 0
    ensures b.pprev != null && Rooted(b.pprev) && AncestorAt(b, b.nHeight - 1) == b.pprev
  {
  }

  lemma {:induction false} AncestorTwice(b: BlockIndex, h: nat, g: nat)
    requires Rooted(b) && g <= h <= b.nHeight
    ensures AncestorAt(AncestorAt(b, h), g) == AncestorAt(b, g)
    decreases b.nHeight
  {
    if h < b.nHeight { AncestorTwice(b.pprev, h, g); }
  }

  lemma {:induction false} AncestorIn(tree: set<BlockIndex>, b: BlockIndex, h: nat)
    requires Tree(tree) && b in tree && h <= b.nHeight
    ensures AncestorAt(b, h) in tree
    decreases b.nHeight
  {
    if h < b.nHeight { AncestorIn(tree, b.pprev, h); }
  }
}
