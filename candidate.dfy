/**
 * TCtr and TSplitCandidate: the value identities that key the statistics
 * caches during split search, with their equality and their hashes.
 */
module Candidate {
  import opened Features

  /** TCtr: a categorical target statistic over a projection. */
  datatype Ctr = Ctr(
    projection: Projection,
    ctrIdx: u8,
    targetBorderIdx: u8,
    priorIdx: u8,
    borderCount: u8)
  {
    /** operator==: compares the five fields in order. */
    function Equals(other: Ctr): (r: bool)
      ensures r <==> this == other
    {
      (projection, ctrIdx, targetBorderIdx, priorIdx, borderCount) ==
      (other.projection, other.ctrIdx, other.targetBorderIdx, other.priorIdx, other.borderCount)
    }

    /** GetHash: MultiHash over the projection's hash and the four indices. */
    function Hash(h: Hasher): (r: int) {
      h.multiHash([h.projectionHash(projection), ctrIdx, targetBorderIdx, priorIdx, borderCount])
    }
  }

  /** TCtr(): the default projection and zero indices. */
  function DefaultCtr(): (c: Ctr)
    ensures c.projection == DefaultProjection
    ensures c.ctrIdx == c.targetBorderIdx == c.priorIdx == c.borderCount == 0
  {
    Ctr(DefaultProjection, 0, 0, 0, 0)
  }

  lemma CtrHashConsistent(h: Hasher, a: Ctr, b: Ctr)
    requires a.Equals(b)
    ensures a.Hash(h) == b.Hash(h)
  {
  }

  /**
   * What a candidate's equality and hash actually read: the split kind and
   * the one payload field that kind makes active.
   */
  datatype CandidateKey = FloatKey(featureIdx: i32) | OneHotKey(featureIdx: i32) | CtrKey(ctr: Ctr)
  {
    function Kind(): (t: SplitType) {
      match this
      case FloatKey(_) => FloatFeature
      case OneHotKey(_) => OneHotFeature
      case CtrKey(_) => OnlineCtr
    }
  }

  /** TSplitCandidate: a flat struct whose `splitType` selects the active field. */
  datatype SplitCandidate = SplitCandidate(ctr: Ctr, featureIdx: i32, splitType: SplitType)
  {
    /** The active part of the candidate; the inactive field does not occur in it. */
    function Key(): (k: CandidateKey)
      ensures k.Kind() == splitType
      ensures splitType != OnlineCtr ==> k.featureIdx == featureIdx
      ensures splitType == OnlineCtr ==> k.ctr == ctr
    {
      match splitType
      case FloatFeature => FloatKey(featureIdx)
      case OneHotFeature => OneHotKey(featureIdx)
      case OnlineCtr => CtrKey(ctr)
    }

    /**
     * operator==: same kind, and the same feature index for the two numeric
     * kinds or an equal Ctr for OnlineCtr. Equal exactly when the keys are.
     */
    function Equals(other: SplitCandidate): (r: bool)
      ensures r <==> Key() == other.Key()
    {
      splitType == other.splitType &&
      (((splitType == FloatFeature || splitType == OneHotFeature) && featureIdx == other.featureIdx)
       || (splitType == OnlineCtr && ctr.Equals(other.ctr)))
    }

    /** GetHash: a per-kind base hash combined with the active field. */
    function Hash(h: Hasher): (r: int) {
      if splitType == FloatFeature then
        h.multiHash([h.floatFeatureBaseHash, featureIdx])
      else if splitType == OnlineCtr then
        h.multiHash([h.ctrBaseHash, ctr.Hash(h)])
      else
        h.multiHash([h.oneHotFeatureBaseHash, featureIdx])
    }
  }

  /** The hash of a key, as the candidate's GetHash computes it. */
  function KeyHash(h: Hasher, k: CandidateKey): (r: int) {
    match k
    case FloatKey(i) => h.multiHash([h.floatFeatureBaseHash, i])
    case OneHotKey(i) => h.multiHash([h.oneHotFeatureBaseHash, i])
    case CtrKey(c) => h.multiHash([h.ctrBaseHash, c.Hash(h)])
  }

  /** The default TSplitCandidate: default Ctr, FeatureIdx -1, FloatFeature. */
  function DefaultCandidate(): (c: SplitCandidate)
    ensures c.Key() == FloatKey(-1)
    ensures c.ctr == DefaultCtr()
  {
    SplitCandidate(DefaultCtr(), -1, FloatFeature)
  }

  /** GetHash reads only what equality reads: it is a function of the key. */
  lemma CandidateHashFromKey(h: Hasher, a: SplitCandidate)
    ensures a.Hash(h) == KeyHash(h, a.Key())
  {
  }

  /** Equal candidates hash equally. */
  lemma CandidateHashConsistent(h: Hasher, a: SplitCandidate, b: SplitCandidate)
    requires a.Equals(b)
    ensures a.Hash(h) == b.Hash(h)
  {
    CandidateHashFromKey(h, a);
    CandidateHashFromKey(h, b);
  }

  /** Candidate equality is reflexive, symmetric and transitive. */
  lemma CandidateEqualsIsEquivalence(a: SplitCandidate, b: SplitCandidate, c: SplitCandidate)
    ensures a.Equals(a)
    ensures a.Equals(b) ==> b.Equals(a)
    ensures a.Equals(b) && b.Equals(c) ==> a.Equals(c)
  {
  }

  /** Two Float (or two OneHot) candidates are equal iff their feature indices are, whatever their Ctr. */
  lemma NumericCandidatesEqual(a: SplitCandidate, b: SplitCandidate)
    requires a.splitType == b.splitType && a.splitType != OnlineCtr
    ensures a.Equals(b) <==> a.featureIdx == b.featureIdx
  {
  }

  /** Two OnlineCtr candidates are equal iff their Ctrs are, whatever their feature indices. */
  lemma CtrCandidatesEqual(a: SplitCandidate, b: SplitCandidate)
    requires a.splitType == OnlineCtr && b.splitType == OnlineCtr
    ensures a.Equals(b) <==> a.ctr == b.ctr
  {
  }

  /** Candidates of different kinds are never equal. */
  lemma DifferentKindsNotEqual(a: SplitCandidate, b: SplitCandidate)
    requires a.splitType != b.splitType
    ensures !a.Equals(b)
  {
  }

  /** A stale feature index in an OnlineCtr candidate changes neither its equality nor its hash. */
  lemma StaleFeatureIdxIgnored(h: Hasher, c: Ctr, i: i32, j: i32)
    ensures SplitCandidate(c, i, OnlineCtr).Equals(SplitCandidate(c, j, OnlineCtr))
    ensures SplitCandidate(c, i, OnlineCtr).Hash(h) == SplitCandidate(c, j, OnlineCtr).Hash(h)
  {
  }

  /** Likewise a stale Ctr in a Float or OneHot candidate. */
  lemma StaleCtrIgnored(h: Hasher, c: Ctr, d: Ctr, i: i32, t: SplitType)
    requires t != OnlineCtr
    ensures SplitCandidate(c, i, t).Equals(SplitCandidate(d, i, t))
    ensures SplitCandidate(c, i, t).Hash(h) == SplitCandidate(d, i, t).Hash(h)
  {
  }
}
