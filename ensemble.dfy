/**
 * TSplitEnsemble, the three-way variant that generalises a split candidate to
 * references into binary-feature packs and exclusive-feature bundles, and
 * TSplitEnsembleSpec, the shape descriptor derived from it.
 */
module Ensemble {
  import opened Features
  import opened Candidate

  /** ESplitEnsembleType: which payload field of an ensemble is active. */
  datatype EnsembleType = OneFeature | BinarySplits | ExclusiveBundle

  /** TBinarySplitsPackRef: the index of a pack of bit-packed binary features. */
  datatype BinarySplitsPackRef = BinarySplitsPackRef(packIdx: u32)

  /** TExclusiveFeaturesBundleRef: the index of an exclusive-features bundle. */
  datatype ExclusiveFeaturesBundleRef = ExclusiveFeaturesBundleRef(bundleIdx: u32)

  /** Default-constructed references hold the largest ui32 ("unset"). */
  const DefaultPackRef: BinarySplitsPackRef := BinarySplitsPackRef(MaxU32)
  const DefaultBundleRef: ExclusiveFeaturesBundleRef := ExclusiveFeaturesBundleRef(MaxU32)

  /** Salts that set the hashes of pack and bundle references apart. */
  const BinarySplitsPackHash: int := 118223
  const ExclusiveBundleHash: int := 981490

  /** What an ensemble's equality and hash read: its tag and the active payload. */
  datatype EnsembleKey = OneKey(candidate: CandidateKey) | PackKey(packIdx: u32) | BundleKey(bundleIdx: u32)

  /**
   * TSplitEnsemble: a flat struct holding all three payloads; only the one
   * `ensembleType` selects is meaningful, the others keep whatever they held.
   */
  datatype SplitEnsemble = SplitEnsemble(
    ensembleType: EnsembleType,
    splitCandidate: SplitCandidate,
    binarySplitsPackRef: BinarySplitsPackRef,
    exclusiveFeaturesBundleRef: ExclusiveFeaturesBundleRef)
  {
    /** The active part of the ensemble. */
    function Key(): (k: EnsembleKey)
      ensures ensembleType == OneFeature <==> k.OneKey?
      ensures ensembleType == BinarySplits <==> k.PackKey?
      ensures k.OneKey? ==> k.candidate == splitCandidate.Key()
      ensures k.PackKey? ==> k.packIdx == binarySplitsPackRef.packIdx
      ensures k.BundleKey? ==> k.bundleIdx == exclusiveFeaturesBundleRef.bundleIdx
    {
      match ensembleType
      case OneFeature => OneKey(splitCandidate.Key())
      case BinarySplits => PackKey(binarySplitsPackRef.packIdx)
      case ExclusiveBundle => BundleKey(exclusiveFeaturesBundleRef.bundleIdx)
    }

    /** operator==: dispatches on this ensemble's tag and compares the active payload only. */
    function Equals(other: SplitEnsemble): (r: bool)
      ensures r <==> Key() == other.Key()
    {
      match ensembleType
      case OneFeature =>
        other.ensembleType == OneFeature && splitCandidate.Equals(other.splitCandidate)
      case BinarySplits =>
        other.ensembleType == BinarySplits && binarySplitsPackRef == other.binarySplitsPackRef
      case ExclusiveBundle =>
        other.ensembleType == ExclusiveBundle && exclusiveFeaturesBundleRef == other.exclusiveFeaturesBundleRef
    }

    /** GetHash: the candidate's own hash, or a salt combined with the pack or bundle index. */
    function Hash(h: Hasher): (r: int) {
      match ensembleType
      case OneFeature => splitCandidate.Hash(h)
      case BinarySplits => h.multiHash([BinarySplitsPackHash, binarySplitsPackRef.packIdx])
      case ExclusiveBundle => h.multiHash([ExclusiveBundleHash, exclusiveFeaturesBundleRef.bundleIdx])
    }

    /** IsSplitOfType: a single-feature ensemble whose candidate has kind `t`. */
    function IsSplitOfType(t: SplitType): (r: bool)
      ensures r <==> Key().OneKey? && Key().candidate.Kind() == t
    {
      ensembleType == OneFeature && splitCandidate.splitType == t
    }
  }

  /** The hash of a key, as the ensemble's GetHash computes it. */
  function EnsembleKeyHash(h: Hasher, k: EnsembleKey): (r: int) {
    match k
    case OneKey(c) => KeyHash(h, c)
    case PackKey(i) => h.multiHash([BinarySplitsPackHash, i])
    case BundleKey(i) => h.multiHash([ExclusiveBundleHash, i])
  }

  /** TSplitEnsemble(): a single-feature ensemble over the default candidate. */
  function DefaultEnsemble(): (e: SplitEnsemble)
    ensures e.ensembleType == OneFeature && e.Key() == OneKey(FloatKey(-1))
    ensures e.binarySplitsPackRef.packIdx == MaxU32
    ensures e.exclusiveFeaturesBundleRef.bundleIdx == MaxU32
  {
    SplitEnsemble(OneFeature, DefaultCandidate(), DefaultPackRef, DefaultBundleRef)
  }

  /** TSplitEnsemble(TSplitCandidate&&): sets OneFeature only. */
  function EnsembleOfCandidate(c: SplitCandidate): (e: SplitEnsemble)
    ensures e.ensembleType == OneFeature && e.Key() == OneKey(c.Key())
    ensures e.binarySplitsPackRef.packIdx == MaxU32
    ensures e.exclusiveFeaturesBundleRef.bundleIdx == MaxU32
  {
    SplitEnsemble(OneFeature, c, DefaultPackRef, DefaultBundleRef)
  }

  /** TSplitEnsemble(TBinarySplitsPackRef&&): sets BinarySplits only. */
  function EnsembleOfPackRef(r: BinarySplitsPackRef): (e: SplitEnsemble)
    ensures e.ensembleType == BinarySplits && e.Key() == PackKey(r.packIdx)
    ensures e.splitCandidate == DefaultCandidate()
    ensures e.exclusiveFeaturesBundleRef.bundleIdx == MaxU32
  {
    SplitEnsemble(BinarySplits, DefaultCandidate(), r, DefaultBundleRef)
  }

  /** TSplitEnsemble(TExclusiveFeaturesBundleRef&&): sets ExclusiveBundle only. */
  function EnsembleOfBundleRef(r: ExclusiveFeaturesBundleRef): (e: SplitEnsemble)
    ensures e.ensembleType == ExclusiveBundle && e.Key() == BundleKey(r.bundleIdx)
    ensures e.splitCandidate == DefaultCandidate()
    ensures e.binarySplitsPackRef.packIdx == MaxU32
  {
    SplitEnsemble(ExclusiveBundle, DefaultCandidate(), DefaultPackRef, r)
  }

  /** GetHash reads only what equality reads. */
  lemma EnsembleHashFromKey(h: Hasher, e: SplitEnsemble)
    ensures e.Hash(h) == EnsembleKeyHash(h, e.Key())
  {
  }

  /** Equal ensembles hash equally. */
  lemma EnsembleHashConsistent(h: Hasher, a: SplitEnsemble, b: SplitEnsemble)
    requires a.Equals(b)
    ensures a.Hash(h) == b.Hash(h)
  {
    EnsembleHashFromKey(h, a);
    EnsembleHashFromKey(h, b);
  }

  /** Ensemble equality is reflexive, symmetric and transitive, though written as a one-sided switch. */
  lemma EnsembleEqualsIsEquivalence(a: SplitEnsemble, b: SplitEnsemble, c: SplitEnsemble)
    ensures a.Equals(a)
    ensures a.Equals(b) ==> b.Equals(a)
    ensures a.Equals(b) && b.Equals(c) ==> a.Equals(c)
  {
  }

  /** A single-feature ensemble hashes and compares exactly as its candidate. */
  lemma OneFeatureAsCandidate(h: Hasher, a: SplitCandidate, b: SplitCandidate)
    ensures EnsembleOfCandidate(a).Hash(h) == a.Hash(h)
    ensures EnsembleOfCandidate(a).Equals(EnsembleOfCandidate(b)) <==> a.Equals(b)
  {
  }

  /** Two bundle ensembles with the same bundle index are equal whatever their unused payloads. */
  lemma BundleEnsemblesEqual(a: SplitEnsemble, b: SplitEnsemble)
    requires a.ensembleType == ExclusiveBundle && b.ensembleType == ExclusiveBundle
    ensures a.Equals(b) <==> a.exclusiveFeaturesBundleRef.bundleIdx == b.exclusiveFeaturesBundleRef.bundleIdx
  {
  }

  /** Two pack ensembles with the same pack index are equal whatever their unused payloads. */
  lemma PackEnsemblesEqual(a: SplitEnsemble, b: SplitEnsemble)
    requires a.ensembleType == BinarySplits && b.ensembleType == BinarySplits
    ensures a.Equals(b) <==> a.binarySplitsPackRef.packIdx == b.binarySplitsPackRef.packIdx
  {
  }

  /** Ensembles with different tags are never equal. */
  lemma DifferentTagsNotEqual(a: SplitEnsemble, b: SplitEnsemble)
    requires a.ensembleType != b.ensembleType
    ensures !a.Equals(b)
  {
  }

  /** IsSplitOfType is false for pack and bundle ensembles, and agrees on equal ensembles. */
  lemma IsSplitOfTypeRespectsEquals(a: SplitEnsemble, b: SplitEnsemble, t: SplitType)
    ensures a.ensembleType != OneFeature ==> !a.IsSplitOfType(t)
    ensures a.Equals(b) ==> (a.IsSplitOfType(t) <==> b.IsSplitOfType(t))
  {
  }

  /** Exactly one kind is "of type" for a single-feature ensemble. */
  lemma IsSplitOfTypeUnique(e: SplitEnsemble, t: SplitType, u: SplitType)
    requires e.IsSplitOfType(t) && e.IsSplitOfType(u)
    ensures t == u
  {
  }

  /**
   * TSplitEnsembleSpec: the ensemble's tag, the candidate kind (meaningful for
   * OneFeature only) and a bundle layout (meaningful for ExclusiveBundle only).
   */
  datatype SplitEnsembleSpec = SplitEnsembleSpec(
    ensembleType: EnsembleType,
    oneSplitType: SplitType,
    exclusiveFeaturesBundle: ExclusiveFeaturesBundle)
  {
    /** What a spec's equality reads. */
    function Shape(): (s: SpecShape)
      ensures ensembleType == OneFeature <==> s.OneShape?
      ensures ensembleType == BinarySplits <==> s.PackShape?
      ensures s.OneShape? ==> s.splitType == oneSplitType
      ensures s.BundleShape? ==> s.bundle == exclusiveFeaturesBundle
    {
      match ensembleType
      case OneFeature => OneShape(oneSplitType)
      case BinarySplits => PackShape
      case ExclusiveBundle => BundleShape(exclusiveFeaturesBundle)
    }

    /** operator==: the tag, and the split kind or the layout where the tag makes them meaningful. */
    function Equals(other: SplitEnsembleSpec): (r: bool)
      ensures r <==> Shape() == other.Shape()
    {
      match ensembleType
      case OneFeature =>
        other.ensembleType == OneFeature && oneSplitType == other.oneSplitType
      case BinarySplits =>
        other.ensembleType == BinarySplits
      case ExclusiveBundle =>
        other.ensembleType == ExclusiveBundle && exclusiveFeaturesBundle == other.exclusiveFeaturesBundle
    }
  }

  datatype SpecShape = OneShape(splitType: SplitType) | PackShape | BundleShape(bundle: ExclusiveFeaturesBundle)

  /** TSplitEnsembleSpec::OneSplit. */
  function OneSplitSpec(t: SplitType): (s: SplitEnsembleSpec)
    ensures s.Shape() == OneShape(t)
    ensures s.exclusiveFeaturesBundle == DefaultBundle
  {
    SplitEnsembleSpec(OneFeature, t, DefaultBundle)
  }

  /** TSplitEnsembleSpec::BinarySplitsPack. */
  function BinarySplitsPackSpec(): (s: SplitEnsembleSpec)
    ensures s.Shape() == PackShape
    ensures s.oneSplitType == FloatFeature && s.exclusiveFeaturesBundle == DefaultBundle
  {
    SplitEnsembleSpec(BinarySplits, FloatFeature, DefaultBundle)
  }

  /** TSplitEnsembleSpec::ExclusiveFeatureBundle; the split kind is a dummy FloatFeature. */
  function ExclusiveFeatureBundleSpec(b: ExclusiveFeaturesBundle): (s: SplitEnsembleSpec)
    ensures s.Shape() == BundleShape(b)
    ensures s.oneSplitType == FloatFeature
  {
    SplitEnsembleSpec(ExclusiveBundle, FloatFeature, b)
  }

  /** The caller's guarantee for building a spec: a bundle ensemble's index is in range. */
  predicate BundleIdxInRange(e: SplitEnsemble, bundles: seq<ExclusiveFeaturesBundle>) {
    e.ensembleType == ExclusiveBundle ==> e.exclusiveFeaturesBundleRef.bundleIdx < |bundles|
  }

  /**
   * TSplitEnsembleSpec(splitEnsemble, exclusiveFeaturesBundles): copies the tag
   * and the candidate's kind, and looks the layout up for a bundle ensemble.
   */
  function SpecOf(e: SplitEnsemble, bundles: seq<ExclusiveFeaturesBundle>): (s: SplitEnsembleSpec)
    requires BundleIdxInRange(e, bundles)
    ensures s.ensembleType == e.ensembleType
    ensures s.oneSplitType == e.splitCandidate.splitType
    ensures e.ensembleType == ExclusiveBundle ==>
      s.exclusiveFeaturesBundle == bundles[e.exclusiveFeaturesBundleRef.bundleIdx]
    ensures e.ensembleType != ExclusiveBundle ==> s.exclusiveFeaturesBundle == DefaultBundle
  {
    SplitEnsembleSpec(
      e.ensembleType,
      e.splitCandidate.splitType,
      if e.ensembleType == ExclusiveBundle then bundles[e.exclusiveFeaturesBundleRef.bundleIdx]
      else DefaultBundle)
  }

  /** Spec equality is reflexive, symmetric and transitive. */
  lemma SpecEqualsIsEquivalence(a: SplitEnsembleSpec, b: SplitEnsembleSpec, c: SplitEnsembleSpec)
    ensures a.Equals(a)
    ensures a.Equals(b) ==> b.Equals(a)
    ensures a.Equals(b) && b.Equals(c) ==> a.Equals(c)
  {
  }

  /** All pack specs are equal, whatever their unused fields. */
  lemma PackSpecsEqual(a: SplitEnsembleSpec, b: SplitEnsembleSpec)
    requires a.ensembleType == BinarySplits && b.ensembleType == BinarySplits
    ensures a.Equals(b)
  {
  }

  /** The spec built from an ensemble equals the factory-made spec of its variant. */
  lemma SpecOfMatchesFactory(e: SplitEnsemble, bundles: seq<ExclusiveFeaturesBundle>)
    requires BundleIdxInRange(e, bundles)
    ensures e.ensembleType == OneFeature ==>
      SpecOf(e, bundles).Equals(OneSplitSpec(e.splitCandidate.splitType))
    ensures e.ensembleType == BinarySplits ==>
      SpecOf(e, bundles).Equals(BinarySplitsPackSpec())
    ensures e.ensembleType == ExclusiveBundle ==>
      SpecOf(e, bundles).Equals(ExclusiveFeatureBundleSpec(bundles[e.exclusiveFeaturesBundleRef.bundleIdx]))
  {
  }

  /** Equal ensembles have equal specs over the same bundle list. */
  lemma SpecOfRespectsEquals(a: SplitEnsemble, b: SplitEnsemble, bundles: seq<ExclusiveFeaturesBundle>)
    requires BundleIdxInRange(a, bundles) && BundleIdxInRange(b, bundles)
    requires a.Equals(b)
    ensures SpecOf(a, bundles).Equals(SpecOf(b, bundles))
  {
  }

  /**
   * UseForCalcScores: a categorical bundle part takes part in score
   * calculation only if its size plus one is at most oneHotMaxSize; every
   * other part always does.
   */
  function UseForCalcScores(part: ExclusiveBundlePart, oneHotMaxSize: u32): (r: bool)
    ensures part.featureType != Categorical ==> r
    ensures part.featureType == Categorical ==> (r <==> BoundsSize(part.bounds) < oneHotMaxSize)
  {
    if part.featureType == Categorical then
      BoundsSize(part.bounds) + 1 <= oneHotMaxSize
    else
      true
  }

  /** Raising the threshold never takes a part out of score calculation. */
  lemma UseForCalcScoresMonotone(part: ExclusiveBundlePart, m: u32, n: u32)
    requires m <= n
    ensures UseForCalcScores(part, m) ==> UseForCalcScores(part, n)
  {
  }

  /** The inclusive boundary: four categories fit under a threshold of five, five do not. */
  lemma UseForCalcScoresBoundary(idx: u32, t: FeatureType)
    ensures UseForCalcScores(ExclusiveBundlePart(Categorical, idx, Bounds(10, 14)), 5)
    ensures !UseForCalcScores(ExclusiveBundlePart(Categorical, idx, Bounds(10, 15)), 5)
    ensures t != Categorical ==> UseForCalcScores(ExclusiveBundlePart(t, idx, Bounds(0, 1000)), 0)
  {
  }
}
