/**
 * Value types that the split data model consumes from its collaborators:
 * fixed-width integers, the split-kind enumeration, the projection a CTR is
 * computed over, the layout of an exclusive-features bundle, and the hashing
 * primitives. Only their value equality and their hashes are used.
 */
module Features {

  type u8 = x: int | 0 <= x < 0x100
  type u32 = x: int | 0 <= x < 0x1_0000_0000
  type i32 = x: int | -0x8000_0000 <= x < 0x8000_0000

  /** The largest ui32, used as the "unset" index of pack and bundle references. */
  const MaxU32: u32 := 0xFFFF_FFFF

  /** ESplitType: the kind of a single split axis. */
  datatype SplitType = FloatFeature | OneHotFeature | OnlineCtr

  /** TBinFeature: a float feature index and a border index. */
  datatype BinFeature = BinFeature(floatFeature: i32, splitIdx: i32)

  /** TOneHotSplit: a categorical feature index and the category value. */
  datatype OneHotSplit = OneHotSplit(catFeatureIdx: i32, value: i32)

  /**
   * TProjection: the combination of categorical features (and earlier binary
   * and one-hot splits) that a CTR is computed over. Its equality is value
   * equality; its hash is supplied by a `Hasher`.
   */
  datatype Projection = Projection(
    catFeatures: seq<i32>,
    binFeatures: seq<BinFeature>,
    oneHotFeatures: seq<OneHotSplit>)

  const DefaultProjection: Projection := Projection([], [], [])

  /** EFeatureType of a part of an exclusive bundle. */
  datatype FeatureType = Float | Categorical

  /** TBoundsInBundle: the half-open range [begin, end) of bucket values a part occupies. */
  datatype RawBounds = Bounds(begin: u32, end: u32)
  type BoundsInBundle = b: RawBounds | b.begin <= b.end witness Bounds(0, 0)

  /** GetSize of a bounds range: the number of bucket values in it. */
  function BoundsSize(b: BoundsInBundle): (n: nat)
    ensures n < 0x1_0000_0000
    ensures b.begin + n == b.end
  {
    b.end - b.begin
  }

  /** TExclusiveBundlePart: one feature merged into an exclusive bundle. */
  datatype ExclusiveBundlePart = ExclusiveBundlePart(
    featureType: FeatureType,
    featureIdx: u32,
    bounds: BoundsInBundle)

  /** TExclusiveFeaturesBundle: the layout of one bundle. */
  datatype ExclusiveFeaturesBundle = ExclusiveFeaturesBundle(
    sizeInBytes: u32,
    parts: seq<ExclusiveBundlePart>)

  const DefaultBundle: ExclusiveFeaturesBundle := ExclusiveFeaturesBundle(0, [])

  /**
   * The hashing primitives the model does not define: MultiHash (an
   * order-sensitive combination of its arguments), TProjection::GetHash, and
   * the base hashes of the three split kinds, whose values live outside this
   * model. Every hash in the model is computed from one `Hasher`, so what is
   * proved about hashes holds for every choice of these.
   */
  datatype Hasher = Hasher(
    multiHash: seq<int> -> int,
    projectionHash: Projection -> int,
    floatFeatureBaseHash: int,
    ctrBaseHash: int,
    oneHotFeatureBaseHash: int)
}
