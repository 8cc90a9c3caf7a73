/** The active chain: an index by height over one path of the block tree. */
module Chain {
  import opened Basics
  import opened Numbers
  import opened BlockTree

  /** The blocks from the root to b. */
  ghost function RootPath(b: BlockIndex): (path: seq<BlockIndex?>)
    requires Rooted(b)
    ensures |path| == b.nHeight + 1
    ensures forall h | 0 <= h <= b.nHeight :: path[h] == AncestorAt(b, h)
    decreases b.nHeight
  {
    if b.pprev == null then [b] else RootPath(b.pprev) + [b]
  }

  class CChain {
    var vChain: seq<BlockIndex?>

    /** The index holds exactly the root path of its tip. */
    ghost predicate Valid()
      reads this
    {
      vChain != [] ==> var tip := vChain[|vChain| - 1]; tip != null && Rooted(tip) && vChain == RootPath(tip)
    }

    constructor ()
      ensures Valid() && vChain == []
    {
      vChain := [];
    }

    function Height(): int
      reads this
    {
      |vChain| - 1
    }

    function Tip(): BlockIndex?
      reads this
    {
      if |vChain| > 0 then vChain[|vChain| - 1] else null
    }

    function At(height: int): BlockIndex?
      reads this
    {
      if height < 0 || height >= |vChain| then null else vChain[height]
    }

    predicate Contains(b: BlockIndex)
      reads this
    {
      At(b.nHeight) == b
    }

    function Next(b: BlockIndex): BlockIndex?
      reads this
    {
      if Contains(b) then At(b.nHeight + 1) else null
    }

    /** A block in the chain brings its whole path with it. */
    lemma ContainsPath(b: BlockIndex, h: nat)
      requires Valid() && Contains(b) && h <= b.nHeight
      ensures Rooted(b) && At(h) == AncestorAt(b, h)
    {
      AncestorTwice(Tip(), b.nHeight, h);
    }

    /** A block belongs to the chain exactly if it is an ancestor of the tip. */
    lemma ContainsMeans(b: BlockIndex)
      requires Valid() && Tip() != null
      ensures Contains(b) <==> b.nHeight <= Tip().nHeight && AncestorAt(Tip(), b.nHeight) == b
    {
    }

    /** The successor is the block in the chain whose parent is b. */
    lemma NextMeans(b: BlockIndex)
      requires Valid()
      ensures var n := Next(b); n != null ==> n.pprev == b && Contains(n)
      ensures Contains(b) && b != Tip() ==> Next(b) != null
    {
      hide AncestorAt;
      if Contains(b) && b.nHeight + 1 < |vChain| {
        var n := vChain[b.nHeight + 1];
        ContainsPath(n, b.nHeight);
        AncestorPrev(n);
      }
    }

    /** Makes the chain the root path of the new tip, rewriting no more than it must. */
    method SetTip(pindex: BlockIndex?)
      requires Valid() && (pindex != null ==> Rooted(pindex))
      modifies this
      ensures Valid() && vChain == if pindex == null then [] else RootPath(pindex)
    {
      if pindex == null {
        vChain := [];
        return;
      }
      hide AncestorAt, Rooted, RootPath;
      ghost var was := vChain;
      AncestorSelf(pindex);
      var n := pindex.nHeight + 1;
      vChain := if n <= |vChain| then vChain[..n] else vChain + seq(n - |vChain|, _ => null);
      var p := FillDown(pindex);
      if p != null {
        SamePath(was, pindex, p);
      }
      assert vChain == RootPath(pindex);
    }

    /** Enters the path from its top down to the first block that is there already. */
    method FillDown(pindex: BlockIndex) returns (p: BlockIndex?)
      requires Rooted(pindex) && |vChain| == pindex.nHeight + 1
      modifies this
      ensures |vChain| == old(|vChain|)
      ensures p != null ==> p.nHeight <= pindex.nHeight && AncestorAt(pindex, p.nHeight) == p && Rooted(p) && vChain[p.nHeight] == p
      ensures forall h | 0 <= h < |vChain| ::
        vChain[h] == if p == null || h > p.nHeight then RootPath(pindex)[h] else old(vChain)[h]
    {
      hide AncestorAt, Rooted, RootPath;
      ghost var start, path, n := vChain, RootPath(pindex), |vChain|;
      ghost var top := n;  // from here on the path is in place
      p := pindex;
      AncestorSelf(pindex);
      while p != null && vChain[p.nHeight] != p
        invariant |vChain| == n && if p == null then top == 0 else p.nHeight + 1 == top <= n && AncestorAt(pindex, p.nHeight) == p && Rooted(p)
        invariant forall h | 0 <= h < top :: vChain[h] == start[h]
        invariant forall h | top <= h < n :: vChain[h] == path[h]
        decreases top
      {
        vChain := vChain[p.nHeight := p];
        RootIs(p);
        top := p.nHeight;
        if p.nHeight > 0 {
          AncestorPrev(p);
          AncestorTwice(pindex, p.nHeight, p.nHeight - 1);
        }
        p := p.pprev;
      }
    }

    /** Where a chain and a path meet, they agree below. */
    static lemma SamePath(was: seq<BlockIndex?>, tip: BlockIndex, p: BlockIndex)
      requires was != [] && was[|was| - 1] != null && Rooted(was[|was| - 1]) && was == RootPath(was[|was| - 1])
      requires Rooted(tip) && Rooted(p) && p.nHeight < |was| && was[p.nHeight] == p
      requires p.nHeight <= tip.nHeight && AncestorAt(tip, p.nHeight) == p
      ensures forall h | 0 <= h <= p.nHeight :: was[h] == RootPath(tip)[h]
    {
      hide AncestorAt;
      forall h | 0 <= h <= p.nHeight ensures was[h] == RootPath(tip)[h] {
        AncestorTwice(was[|was| - 1], p.nHeight, h);
        AncestorTwice(tip, p.nHeight, h);
      }
    }

    /** No ancestor of b from height lo on is in the chain. */
    ghost predicate OffFrom(b: BlockIndex, lo: nat)
      requires Rooted(b)
      reads this
    {
      forall h | lo <= h <= b.nHeight :: !Contains(AncestorAt(b, h))
    }

    lemma OffHigh(b: BlockIndex)
      requires Rooted(b)
      ensures OffFrom(b, |vChain|)
    {
    }

    lemma OffNext(b: BlockIndex, lo: nat)
      requires Rooted(b) && lo <= b.nHeight && OffFrom(b, lo + 1) && !Contains(AncestorAt(b, lo))
      ensures OffFrom(b, lo)
    {
    }

    /** The highest ancestor of pindex that is in the chain. */
    method FindFork(pindex: BlockIndex?, ghost tree: set<BlockIndex>) returns (r: BlockIndex?)
      requires Valid() && Tree(tree) && SkipsOk(tree) && (pindex != null ==> pindex in tree)
      ensures r != null ==> pindex != null && r.nHeight <= pindex.nHeight && AncestorAt(pindex, r.nHeight) == r && Contains(r)
      ensures pindex != null ==> OffFrom(pindex, if r == null then 0 else r.nHeight + 1)
    {
      if pindex == null {
        return null;
      }
      hide AncestorAt, Rooted, RootPath, Valid, OffFrom, Contains;
      AncestorSelf(pindex);
      r := pindex;
      OffNothing(pindex);
      if pindex.nHeight > Height() {
        OffHigh(pindex);
        r := pindex.GetAncestor(Height(), tree);
      }
      while r != null && !Contains(r)
        invariant r != null ==> r.nHeight <= pindex.nHeight && AncestorAt(pindex, r.nHeight) == r
        invariant OffFrom(pindex, if r == null then 0 else r.nHeight + 1)
        decreases if r == null then 0 else r.nHeight + 1
      {
        RootIs(r);
        OffNext(pindex, r.nHeight);
        if r.nHeight > 0 {
          AncestorPrev(r);
          AncestorTwice(pindex, r.nHeight, r.nHeight - 1);
        }
        r := r.pprev;
      }
    }

    lemma OffNothing(b: BlockIndex)
      requires Rooted(b)
      ensures OffFrom(b, b.nHeight + 1)
    {
    }

    /** An ancestor, from the chain's own index where that will do. */
    method StepBack(p: BlockIndex, nHeight: nat, ghost tree: set<BlockIndex>) returns (r: BlockIndex?)
      requires Valid() && Tree(tree) && SkipsOk(tree) && p in tree && nHeight <= p.nHeight
      ensures r != null && r in tree && r == AncestorAt(p, nHeight)
    {
      hide AncestorAt;
      if Contains(p) {
        ContainsPath(p, nHeight);
        AncestorIn(tree, p, nHeight);
        r := At(nHeight);
      } else {
        r := p.GetAncestor(nHeight, tree);
      }
    }

    /** Blocks from pindex, or from the tip, back to the root: one by one at first, then in doubling strides.
        `stride` is the largest stride computed. */
    method GetLocator(pindex: BlockIndex?, ghost tree: set<BlockIndex>) returns (vHave: seq<BlockIndex>, ghost stride: nat)
      requires Valid() && Tree(tree) && SkipsOk(tree)
      requires pindex != null ==> pindex in tree
      requires Tip() != null ==> Tip() in tree
      ensures var start := if pindex == null then Tip() else pindex;
        if start == null then vHave == []
        else
          && |vHave| == |LocatorHeights(start.nHeight)|
          && forall i | 0 <= i < |vHave| ::
               LocatorHeights(start.nHeight)[i] <= start.nHeight && vHave[i] == AncestorAt(start, LocatorHeights(start.nHeight)[i])
      ensures var start := if pindex == null then Tip() else pindex; start != null ==> stride == LargestStride(start.nHeight)
    {
      hide AncestorAt, Rooted, RootPath, Strides, Listed;
      var nStep := 1;
      vHave, stride := [], 1;
      var p := if pindex == null then Tip() else pindex;
      if p == null {
        return;
      }
      ghost var start: BlockIndex := p;
      ghost var heights := LocatorHeights(start.nHeight);
      AncestorSelf(start);
      ListedAt(vHave);
      while true
        invariant nStep > 0 && p != null && p in tree && p.nHeight <= start.nHeight && AncestorAt(start, p.nHeight) == p
        invariant heights == Listed(vHave) + Strides(p.nHeight, nStep, |vHave|) && nStep == Pow(2, Max(0, |vHave| - 10))
        invariant forall i | 0 <= i < |vHave| :: vHave[i].nHeight <= start.nHeight && AncestorAt(start, vHave[i].nHeight) == vHave[i]
        decreases p.nHeight
      {
        ListedMore(vHave, p);
        StridesStep(p.nHeight, nStep, |vHave|);
        vHave := vHave + [p];
        if p.nHeight == 0 {
          break;
        }
        var nHeight := Max(p.nHeight - nStep, 0);
        AncestorTwice(start, p.nHeight, nHeight);
        p := StepBack(p, nHeight, tree);
        if |vHave| > 10 {
          PowNext(2, |vHave| - 11);
          nStep := nStep * 2;
        }
      }
      ListedAt(vHave);
      stride := nStep;
    }

    /** The first block late enough and high enough, by binary search. */
    method FindEarliestAtLeast(nTime: int, height: int) returns (r: BlockIndex?)
      requires Valid() && (Tip() != null ==> TimesGrow(Tip()))
      ensures if r == null then forall b | b in vChain :: b == null || b.nTimeMax < nTime || b.nHeight < height
              else Contains(r) && r.nTimeMax >= nTime && r.nHeight >= height
                   && forall h | 0 <= h < r.nHeight :: At(h) == null || At(h).nTimeMax < nTime || h < height
    {
      var first, count := 0, |vChain|;
      while count > 0
        invariant 0 <= first <= first + count <= |vChain|
        invariant forall h | 0 <= h < first :: vChain[h] == null || vChain[h].nTimeMax < nTime || h < height
        invariant forall h | first + count <= h < |vChain| :: vChain[h] != null && vChain[h].nTimeMax >= nTime && h >= height
      {
        hide AncestorAt, TimesGrow;
        var step := count / 2;
        var m := first + step;
        TimesSorted(Tip(), m);
        if vChain[m].nTimeMax < nTime || vChain[m].nHeight < height {
          first, count := m + 1, count - (step + 1);
        } else {
          count := step;
        }
      }
      r := if first == |vChain| then null else vChain[first];
    }
  }

  // ---------------------------------------------------------------- block times

  /** The running maximum of the block times never falls along a path. */
  ghost predicate TimesGrow(b: BlockIndex)
    requires Rooted(b)
    decreases b.nHeight
  {
    b.pprev != null ==> b.pprev.nTimeMax <= b.nTimeMax && TimesGrow(b.pprev)
  }

  lemma {:induction false} TimesFrom(b: BlockIndex, h: nat)
    requires Rooted(b) && TimesGrow(b) && h <= b.nHeight
    ensures TimesGrow(AncestorAt(b, h)) && AncestorAt(b, h).nTimeMax <= b.nTimeMax
    decreases b.nHeight
  {
    if h < b.nHeight { TimesFrom(b.pprev, h); }
  }

  lemma TimesSorted(b: BlockIndex, m: nat)
    requires Rooted(b) && TimesGrow(b) && m <= b.nHeight
    ensures forall h | 0 <= h <= m :: AncestorAt(b, h).nTimeMax <= AncestorAt(b, m).nTimeMax
    ensures forall h | m <= h <= b.nHeight :: AncestorAt(b, h).nTimeMax >= AncestorAt(b, m).nTimeMax
  {
    hide TimesGrow, AncestorAt;
    TimesFrom(b, m);
    forall h | 0 <= h <= m ensures AncestorAt(b, h).nTimeMax <= AncestorAt(b, m).nTimeMax {
      AncestorTwice(b, m, h);
      TimesFrom(AncestorAt(b, m), h);
    }
    forall h | m <= h <= b.nHeight ensures AncestorAt(b, h).nTimeMax >= AncestorAt(b, m).nTimeMax {
      AncestorTwice(b, h, m);
      TimesFrom(b, h);
      TimesFrom(AncestorAt(b, h), m);
    }
  }

  // ---------------------------------------------------------------- locators

  ghost function Listed(blocks: seq<BlockIndex>): seq<nat> {
    seq(|blocks|, i requires 0 <= i < |blocks| => blocks[i].nHeight)
  }

  /** The heights still to list, from height h with `have` listed before it. */
  ghost function Strides(h: nat, step: nat, have: nat): (heights: seq<nat>)
    requires step > 0
    decreases h
  {
    if h == 0 then [0]
    else [h] + Strides(Max(h - step, 0), if have + 1 > 10 then 2 * step else step, have + 1)
  }

  lemma ListedMore(blocks: seq<BlockIndex>, p: BlockIndex)
    ensures Listed(blocks + [p]) == Listed(blocks) + [p.nHeight]
  {
  }

  lemma ListedAt(blocks: seq<BlockIndex>)
    ensures |Listed(blocks)| == |blocks| && forall i | 0 <= i < |blocks| :: Listed(blocks)[i] == blocks[i].nHeight
  {
  }

  lemma StridesStep(h: nat, step: nat, have: nat)
    requires step > 0
    ensures Strides(h, step, have) ==
      if h == 0 then [0] else [h] + Strides(Max(h - step, 0), if have + 1 > 10 then 2 * step else step, have + 1)
  {
  }

  ghost function LocatorHeights(h: nat): seq<nat> {
    Strides(h, 1, 0)
  }

  lemma {:induction false} StridesFall(h: nat, step: nat, have: nat)
    requires step > 0
    ensures var s := Strides(h, step, have);
      && s != [] && s[0] == h && s[|s| - 1] == 0
      && (forall i, j | 0 <= i < j < |s| :: s[i] > s[j])
    decreases h
  {
    if h > 0 {
      StridesFall(Max(h - step, 0), if have + 1 > 10 then 2 * step else step, have + 1);
    }
  }

  /** The least k with 2^k >= n. */
  ghost function CeilLog2(n: nat): nat {
    if n <= 1 then 0 else 1 + CeilLog2((n + 1) / 2)
  }

  lemma {:induction false} CeilLog2Is(n: nat)
    ensures n <= Pow(2, CeilLog2(n)) && (n > 1 ==> Pow(2, CeilLog2(n) - 1) < n)
  {
    if n > 1 {
      CeilLog2Is((n + 1) / 2);
    }
  }

  lemma {:induction false} CeilLog2Mono(m: nat, n: nat)
    requires m <= n
    ensures CeilLog2(m) <= CeilLog2(n)
    decreases n
  {
    if m > 1 { CeilLog2Mono((m + 1) / 2, (n + 1) / 2); }
  }

  /** The doubling part: c strides of the current length reach down to zero. */
  lemma {:induction false} StridesDoubling(h: nat, step: nat, have: nat, c: nat)
    requires step > 0 && have >= 10 && (c - 1) * step < h <= c * step
    ensures |Strides(h, step, have)| == 1 + CeilLog2(c + 1)
    decreases h
  {
    if h > 0 {
      Halved(h, step, c);
      StridesDoubling(Max(h - step, 0), 2 * step, have + 1, c / 2);
    } else if c > 0 {
      MulMono(0, c - 1, step);
    }
  }

  lemma Halved(h: nat, step: nat, c: nat)
    requires step > 0 && 0 < h && (c - 1) * step < h <= c * step
    ensures c > 0 && (c / 2 - 1) * (2 * step) < Max(h - step, 0) <= c / 2 * (2 * step)
  {
    assert 0 * step == 0;
    var d := c / 2;
    assert (c - 1) * step == c * step - step;
    MulMono(c - 1, 2 * d, step);
    MulMono(2 * d - 1, c - 1, step);
    assert d * (2 * step) == 2 * d * step && (d - 1) * (2 * step) == 2 * d * step - 2 * step;
    assert (2 * d - 1) * step == 2 * d * step - step;
    MulNonneg(2 * d, step);
    if h <= step && c > 1 { MulMono(1, c - 1, step); }
  }

  /** The part with stride one. */
  lemma {:induction false} StridesSingle(h: nat, have: nat)
    requires have <= 10
    ensures |Strides(h, 1, have)| == if h <= 10 - have then h + 1 else 11 - have + CeilLog2(h - (10 - have) + 1)
    decreases h
  {
    if have == 10 {
      StridesDoubling(h, 1, have, h);
    } else if h > 0 {
      StridesSingle(h - 1, have + 1);
    }
  }

  /** A locator runs strictly down from its start to the root; its length is known exactly. */
  lemma LocatorShape(h: nat)
    ensures var s := LocatorHeights(h);
      && s != [] && s[0] == h && s[|s| - 1] == 0
      && (forall i, j | 0 <= i < j < |s| :: s[i] > s[j])
      && |s| == (if h <= 10 then h + 1 else 11 + CeilLog2(h - 9))
      && (h >= 1 ==> |s| <= 12 + CeilLog2(h))
  {
    StridesFall(h, 1, 0);
    StridesSingle(h, 0);
    if h > 10 { CeilLog2Mono(h - 9, h); }
  }

  /** The stride doubles with each block listed after the tenth, except the last. */
  ghost function LargestStride(h: nat): nat { Pow(2, Max(0, |LocatorHeights(h)| - 11)) }

  /** The stride fits a signed 32-bit integer exactly for starts at most 2^30 + 9 blocks high. */
  lemma StrideFits(h: nat)
    ensures LargestStride(h) < 0x8000_0000 <==> h <= 0x4000_0009
  {
    hide Pow, CeilLog2, LocatorHeights;
    LocatorShape(h);
    Pow30();
    PowStart(2);
    if h > 10 {
      var c := CeilLog2(h - 9);
      CeilLog2Is(h - 9);
      assert c > 0 && LargestStride(h) == Pow(2, c);
      if c <= 30 { PowMono(2, c, 30); } else { PowMono(2, 31, c); PowMono(2, 30, c - 1); }
    } else {
      PowMono(2, 0, 30);
    }
  }

  /** The stride that leads from block i of a locator to the next. */
  ghost function StrideAt(i: nat): nat { Pow(2, Max(0, i - 10)) }

  lemma {:induction false} StridesTaken(h: nat, step: nat, have: nat)
    requires step == StrideAt(have) > 0
    ensures var s := Strides(h, step, have);
      s != [] && s[0] == h && forall i | 0 < i < |s| :: s[i] == Max(s[i - 1] - StrideAt(have + i - 1), 0)
    decreases h
  {
    hide Pow;
    if h > 0 {
      var rest := Max(h - step, 0);
      var next := if have + 1 > 10 then 2 * step else step;
      if have >= 10 { PowNext(2, have - 10); }
      StridesTaken(rest, next, have + 1);
      var t := Strides(rest, next, have + 1);
      var s := [h] + t;
      forall i | 0 < i < |s| ensures s[i] == Max(s[i - 1] - StrideAt(have + i - 1), 0) {
        assert s[i] == t[i - 1];
        if i > 1 { assert s[i - 1] == t[i - 2] && t[i - 1] == Max(t[i - 2] - StrideAt(have + 1 + i - 1 - 1), 0); }
      }
    }
  }

  /** Only the stride computed last, and never taken, can be too large: for heights of 31 bits all that are taken fit. */
  lemma StridesTakenFit(h: nat, i: nat)
    requires h < 0x8000_0000 && 0 < i < |LocatorHeights(h)|
    ensures LocatorHeights(h)[i] == Max(LocatorHeights(h)[i - 1] - StrideAt(i - 1), 0) && StrideAt(i - 1) < 0x8000_0000
  {
    hide Pow, CeilLog2, Strides;
    PowStart(2);
    StridesTaken(h, 1, 0);
    assert LocatorHeights(h)[i] == Max(LocatorHeights(h)[i - 1] - StrideAt(0 + i - 1), 0);
    StrideBound(h, i);
  }

  lemma StrideBound(h: nat, i: nat)
    requires h < 0x8000_0000 && 0 < i < |LocatorHeights(h)|
    ensures StrideAt(i - 1) < 0x8000_0000
  {
    hide Pow, CeilLog2, LocatorHeights;
    LocatorShape(h);
    Pow30();
    if h > 10 {
      var c := CeilLog2(h - 9);
      CeilLog2Is(h - 9);
      if c > 31 { PowMono(2, 31, c - 1); }
    }
    PowMono(2, Max(0, i - 11), 30);
  }

  lemma Pow30()
    ensures Pow(2, 30) == 0x4000_0000 && Pow(2, 31) == 0x8000_0000
  {
    hide Pow;
    Pow8();
    PowAdd(2, 8, 8);
    PowAdd(2, 16, 8);
    PowAdd(2, 24, 6);
    assert Pow(2, 6) == 64 by { Pow6(); }
    PowNext(2, 30);
  }

  lemma Pow6()
    ensures Pow(2, 6) == 64
  {
    assert Pow(2, 3) == 8;
    PowAdd(2, 3, 3);
  }

  /** The highest common ancestor, or null if the blocks have no root in common. */
  method LastCommonAncestor(a: BlockIndex, b: BlockIndex, ghost tree: set<BlockIndex>) returns (r: BlockIndex?)
    requires Tree(tree) && SkipsOk(tree) && a in tree && b in tree
    ensures r != null ==> r.nHeight <= a.nHeight && r.nHeight <= b.nHeight
                          && AncestorAt(a, r.nHeight) == r && AncestorAt(b, r.nHeight) == r
    ensures forall h | (if r == null then 0 else r.nHeight + 1) <= h <= a.nHeight && h <= b.nHeight ::
      AncestorAt(a, h) != AncestorAt(b, h)
  {
    hide AncestorAt, Rooted;
    AncestorSelf(a);
    AncestorSelf(b);
    var pa: BlockIndex?, pb: BlockIndex? := a, b;
    if pa.nHeight > pb.nHeight {
      pa := pa.GetAncestor(pb.nHeight, tree);
    } else if pb.nHeight > pa.nHeight {
      pb := pb.GetAncestor(pa.nHeight, tree);
    }
    while pa != pb && pa != null && pb != null
      invariant (pa == null) == (pb == null)
      invariant pa != null ==> pa.nHeight == pb.nHeight <= a.nHeight && pa.nHeight <= b.nHeight
                               && AncestorAt(a, pa.nHeight) == pa && AncestorAt(b, pa.nHeight) == pb
      invariant forall h | (if pa == null then 0 else pa.nHeight + 1) <= h <= a.nHeight && h <= b.nHeight ::
        AncestorAt(a, h) != AncestorAt(b, h)
      decreases if pa == null then 0 else pa.nHeight + 1
    {
      RootIs(pa);
      RootIs(pb);
      if pa.nHeight > 0 {
        AncestorPrev(pa);
        AncestorPrev(pb);
        AncestorTwice(a, pa.nHeight, pa.nHeight - 1);
        AncestorTwice(b, pa.nHeight, pa.nHeight - 1);
      }
      pa := pa.pprev;
      pb := pb.pprev;
    }
    assert pa == pb;
    r := pa;
  }
}
