/**
 * TSplit, a candidate resolved to a bin border, and TSplitTree, the ordered
 * splits of one oblivious decision tree with its depth, leaf count and the
 * per-kind views of its splits.
 */
module Tree {
  import opened Features
  import opened Candidate

  /** TSplit: a candidate plus the border; equality and hash are the candidate's. */
  datatype Split = Split(candidate: SplitCandidate, binBorder: i32)
  {
    function Equals(other: Split): (r: bool)
      ensures r <==> candidate.Key() == other.candidate.Key()
    {
      candidate.Equals(other.candidate)
    }

    function Hash(h: Hasher): (r: int) {
      candidate.Hash(h)
    }

    function Kind(): (t: SplitType) {
      candidate.splitType
    }
  }

  /** TSplit(): the default candidate and border 0. */
  function DefaultSplit(): (s: Split)
    ensures s.candidate == DefaultCandidate() && s.binBorder == 0
  {
    Split(DefaultCandidate(), 0)
  }

  /** The border plays no part in equality or hashing. */
  lemma BorderIgnored(h: Hasher, c: SplitCandidate, b1: i32, b2: i32)
    ensures Split(c, b1).Equals(Split(c, b2))
    ensures Split(c, b1).Hash(h) == Split(c, b2).Hash(h)
  {
  }

  /** Equal splits hash equally. */
  lemma SplitHashConsistent(h: Hasher, a: Split, b: Split)
    requires a.Equals(b)
    ensures a.Hash(h) == b.Hash(h)
  {
    CandidateHashConsistent(h, a.candidate, b.candidate);
  }

  /** 2^n. */
  function Pow2(n: nat): (r: nat)
    ensures r >= 1
  {
    if n == 0 then 1 else 2 * Pow2(n - 1)
  }

  lemma {:induction false} Pow2Monotone(m: nat, n: nat)
    requires m <= n
    ensures Pow2(m) <= Pow2(n)
  {
    if m < n {
      Pow2Monotone(m, n - 1);
    }
  }

  lemma {:induction false} Pow2Add(m: nat, n: nat)
    ensures Pow2(m + n) == Pow2(m) * Pow2(n)
  {
    if n > 0 {
      Pow2Add(m, n - 1);
    }
  }

  lemma Pow2Of30()
    ensures Pow2(30) == 0x4000_0000
  {
    assert Pow2(5) == 32;
    Pow2Add(5, 5);
    Pow2Add(10, 10);
    Pow2Add(20, 10);
  }

  /** `1 << n` on a 32-bit int, for shifts that stay below the sign bit. */
  function ShiftLeftOne(n: nat): (r: int)
    requires n < 31
  {
    ((1 as bv32) << n) as int
  }

  /** Below the sign bit, `1 << n` is 2^n. */
  lemma {:induction false} ShiftLeftOneIsPow2(n: nat)
    requires n < 31
    ensures ShiftLeftOne(n) == Pow2(n)
  {
    if n > 0 {
      ShiftLeftOneIsPow2(n - 1);
      var x := (1 as bv32) << (n - 1);
      assert (1 as bv32) << n == x << 1;
      assert x as int < 0x4000_0000;
      assert (x << 1) as int == 2 * (x as int);
    }
  }

  /**
   * The images under `f` of the splits of kind `t`, in the order of `s`:
   * the loop that pushes one element per matching split.
   */
  function Project<T>(s: seq<Split>, t: SplitType, f: Split -> T): (r: seq<T>)
    ensures |r| <= |s|
  {
    if s == [] then []
    else Project(s[..|s| - 1], t, f) + (if s[|s| - 1].Kind() == t then [f(s[|s| - 1])] else [])
  }

  /** The positions in `s` of the splits of kind `t`: increasing, and every such position. */
  function Positions(s: seq<Split>, t: SplitType): (p: seq<nat>)
    ensures |p| <= |s|
    ensures forall k :: 0 <= k < |p| ==> p[k] < |s| && s[p[k]].Kind() == t
    ensures forall k, l :: 0 <= k < l < |p| ==> p[k] < p[l]
    ensures forall i :: 0 <= i < |s| && s[i].Kind() == t ==> i in p
  {
    if s == [] then []
    else
      var q := Positions(s[..|s| - 1], t);
      assert forall k :: 0 <= k < |q| ==> q[k] < |s| - 1 && s[q[k]] == s[..|s| - 1][q[k]];
      q + (if s[|s| - 1].Kind() == t then [|s| - 1] else [])
  }

  /**
   * A view is the stable filter-and-project: its k-th element is the image of
   * the k-th split of kind `t`, and it has exactly one element per such split.
   */
  lemma {:induction false} ProjectAtPositions<T>(s: seq<Split>, t: SplitType, f: Split -> T)
    ensures |Project(s, t, f)| == |Positions(s, t)|
    ensures forall k :: 0 <= k < |Positions(s, t)| ==> Project(s, t, f)[k] == f(s[Positions(s, t)[k]])
  {
    if s != [] {
      var init := s[..|s| - 1];
      ProjectAtPositions(init, t, f);
      forall k | 0 <= k < |Positions(init, t)|
        ensures Project(s, t, f)[k] == f(s[Positions(s, t)[k]])
      {
        assert Positions(s, t)[k] == Positions(init, t)[k];
        assert s[Positions(init, t)[k]] == init[Positions(init, t)[k]];
      }
    }
  }

  /** A view of a concatenation is the concatenation of the views. */
  lemma {:induction false} ProjectAppend<T>(a: seq<Split>, b: seq<Split>, t: SplitType, f: Split -> T)
    ensures Project(a + b, t, f) == Project(a, t, f) + Project(b, t, f)
  {
    if b == [] {
      assert a + b == a;
    } else {
      var b' := b[..|b| - 1];
      ProjectAppend(a, b', t, f);
      assert (a + b)[..|a + b| - 1] == a + b';
      assert (a + b)[|a + b| - 1] == b[|b| - 1];
    }
  }

  /** Deleting a split of another kind leaves a view unchanged; deleting one of its kind removes its image. */
  lemma ProjectAfterDelete<T>(s: seq<Split>, i: nat, t: SplitType, f: Split -> T)
    requires i < |s|
    ensures Project(s[..i] + s[i + 1..], t, f) ==
      Project(s[..i], t, f) + Project(s[i + 1..], t, f)
    ensures Project(s, t, f) ==
      Project(s[..i], t, f) + (if s[i].Kind() == t then [f(s[i])] else []) + Project(s[i + 1..], t, f)
    ensures s[i].Kind() != t ==> Project(s[..i] + s[i + 1..], t, f) == Project(s, t, f)
  {
    ProjectAppend(s[..i], s[i + 1..], t, f);
    ProjectAppend(s[..i + 1], s[i + 1..], t, f);
    assert s[..i + 1] + s[i + 1..] == s;
    assert s[..i + 1][..i] == s[..i];
  }

  function AsBinFeature(s: Split): (b: BinFeature) {
    BinFeature(s.candidate.featureIdx, s.binBorder)
  }

  function AsOneHotSplit(s: Split): (o: OneHotSplit) {
    OneHotSplit(s.candidate.featureIdx, s.binBorder)
  }

  function AsCtr(s: Split): (c: Ctr) {
    s.candidate.ctr
  }

  /** The float-feature splits as (feature, border) pairs. */
  function BinFeatures(s: seq<Split>): (v: seq<BinFeature>) {
    Project(s, FloatFeature, AsBinFeature)
  }

  /** The one-hot splits as (feature, value) pairs. */
  function OneHotFeatures(s: seq<Split>): (v: seq<OneHotSplit>) {
    Project(s, OneHotFeature, AsOneHotSplit)
  }

  /** The Ctrs of the online-CTR splits. */
  function CtrSplits(s: seq<Split>): (v: seq<Ctr>) {
    Project(s, OnlineCtr, AsCtr)
  }

  /** TSplitTree: the splits from root to leaves, changed in place as the tree grows or is pruned. */
  class SplitTree {
    var splits: seq<Split>

    constructor ()
      ensures splits == []
    {
      splits := [];
    }

    /** AddSplit: push_back. */
    method AddSplit(split: Split)
      modifies this
      ensures splits == old(splits) + [split]
      ensures splits[..|old(splits)|] == old(splits)
      ensures |old(splits)| < 30 ==> GetLeafCount() == 2 * old(GetLeafCount())
      ensures BinFeatures(splits) == BinFeatures(old(splits)) + BinFeatures([split])
      ensures OneHotFeatures(splits) == OneHotFeatures(old(splits)) + OneHotFeatures([split])
      ensures CtrSplits(splits) == CtrSplits(old(splits)) + CtrSplits([split])
    {
      ProjectAppend(splits, [split], FloatFeature, AsBinFeature);
      ProjectAppend(splits, [split], OneHotFeature, AsOneHotSplit);
      ProjectAppend(splits, [split], OnlineCtr, AsCtr);
      splits := splits + [split];
    }

    /** DeleteSplit: erase at an index, shifting the later splits down by one. */
    method DeleteSplit(splitIdx: int)
      requires 0 <= splitIdx < |splits|
      modifies this
      ensures splits == old(splits)[..splitIdx] + old(splits)[splitIdx + 1..]
      ensures |splits| == |old(splits)| - 1
      ensures |old(splits)| < 31 ==> 2 * GetLeafCount() == old(GetLeafCount())
      ensures forall k :: 0 <= k < splitIdx ==> splits[k] == old(splits)[k]
      ensures forall k :: splitIdx <= k < |splits| ==> splits[k] == old(splits)[k + 1]
      ensures old(splits)[splitIdx].Kind() != FloatFeature ==> BinFeatures(splits) == BinFeatures(old(splits))
      ensures old(splits)[splitIdx].Kind() != OneHotFeature ==> OneHotFeatures(splits) == OneHotFeatures(old(splits))
      ensures old(splits)[splitIdx].Kind() != OnlineCtr ==> CtrSplits(splits) == CtrSplits(old(splits))
    {
      ProjectAfterDelete(splits, splitIdx, FloatFeature, AsBinFeature);
      ProjectAfterDelete(splits, splitIdx, OneHotFeature, AsOneHotSplit);
      ProjectAfterDelete(splits, splitIdx, OnlineCtr, AsCtr);
      splits := splits[..splitIdx] + splits[splitIdx + 1..];
    }

    /** GetDepth: the number of splits. */
    function GetDepth(): (d: nat)
      reads this
      ensures d == |splits|
    {
      |splits|
    }

    /**
     * GetLeafCount: 1 << depth on an int, which is 2^depth and fits for depths
     * below 31.
     */
    function GetLeafCount(): (n: int)
      reads this
      requires |splits| < 31
      ensures n == Pow2(GetDepth())
      ensures 0 < n <= 0x4000_0000
    {
      ShiftLeftOneIsPow2(|splits|);
      Pow2Monotone(|splits|, 30);
      Pow2Of30();
      ShiftLeftOne(|splits|)
    }

    /** GetBinFeatures: (feature, border) of every float split, in order. */
    method GetBinFeatures() returns (result: seq<BinFeature>)
      ensures result == BinFeatures(splits)
    {
      result := [];
      for i := 0 to |splits|
        invariant result == BinFeatures(splits[..i])
      {
        assert splits[..i + 1][..i] == splits[..i];
        if splits[i].candidate.splitType == FloatFeature {
          result := result + [BinFeature(splits[i].candidate.featureIdx, splits[i].binBorder)];
        }
      }
      assert splits[..|splits|] == splits;
    }

    /** GetOneHotFeatures: (feature, value) of every one-hot split, in order. */
    method GetOneHotFeatures() returns (result: seq<OneHotSplit>)
      ensures result == OneHotFeatures(splits)
    {
      result := [];
      for i := 0 to |splits|
        invariant result == OneHotFeatures(splits[..i])
      {
        assert splits[..i + 1][..i] == splits[..i];
        if splits[i].candidate.splitType == OneHotFeature {
          result := result + [OneHotSplit(splits[i].candidate.featureIdx, splits[i].binBorder)];
        }
      }
      assert splits[..|splits|] == splits;
    }

    /** GetCtrSplits: the Ctr of every online-CTR split, in order. */
    method GetCtrSplits() returns (result: seq<Ctr>)
      ensures result == CtrSplits(splits)
    {
      result := [];
      for i := 0 to |splits|
        invariant result == CtrSplits(splits[..i])
      {
        assert splits[..i + 1][..i] == splits[..i];
        if splits[i].candidate.splitType == OnlineCtr {
          result := result + [splits[i].candidate.ctr];
        }
      }
      assert splits[..|splits|] == splits;
    }
  }

  /** A three-split tree with its middle split deleted: [S0, S2], depth 2, four leaves. */
  method DeleteMiddleSplitExample(s0: Split, s1: Split, s2: Split)
  {
    var tree := new SplitTree();
    tree.AddSplit(s0);
    tree.AddSplit(s1);
    tree.AddSplit(s2);
    assert tree.splits == [s0, s1, s2];
    tree.DeleteSplit(1);
    assert tree.splits == [s0, s2];
    assert tree.GetDepth() == 2;
    assert tree.GetLeafCount() == 4;
  }
}
