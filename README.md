# CatBoost split and tree data model in Dafny

This project models `catboost/libs/algo/split.h`. That file holds the value identities that CatBoost's split search uses as keys of its statistics caches, plus the structure that holds one oblivious decision tree:

- **`TCtr`**: the identity of a categorical target statistic. It is made of a projection and four ui8 indices. Equality compares all five fields, and the hash combines all five.
- **`TSplitCandidate`**: a flat struct with a `Type` tag: FloatFeature, OneHotFeature or OnlineCtr. Equality and hash read only the field the tag makes active: `FeatureIdx` for the two numeric kinds, `Ctr` for OnlineCtr.
- **`TSplitEnsemble`**: a flat struct that acts as a three-way variant. It is a single candidate, a reference to a pack of bit-packed binary features, or a reference to an exclusive-features bundle. Equality and hash dispatch on the tag. `IsSplitOfType` recognises single candidates of one kind.
- **`TSplitEnsembleSpec`**: the shape of an ensemble. It is built from an ensemble and the dataset's list of bundle layouts.
- **`UseForCalcScores`**: the threshold that decides whether a bundled feature takes part in score calculation.
- **`TSplit`**: a candidate resolved to a bin border. The border plays no part in equality or hashing.
- **`TSplitTree`**: the splits of one tree, root to leaves. It grows by `AddSplit`, is pruned by `DeleteSplit`, has depth n and 2^n leaves, and gives three per-kind views of its splits.

Modules:

- `features.dfy` (`Features`): the collaborator types the core consumes. These are the fixed-width integers, `ESplitType`, the projection, the bundle layout and its parts, and `Hasher`. A `Hasher` carries the hashing primitives this model does not define: `MultiHash`, `TProjection::GetHash`, and the three base hashes of the split kinds, whose values are defined outside split.h. Every hash is computed from a `Hasher` argument, so each hash property is proved for every choice of these primitives.
- `candidate.dfy` (`Candidate`): `TCtr` and `TSplitCandidate`.
- `ensemble.dfy` (`Ensemble`): the pack and bundle references, `TSplitEnsemble`, `TSplitEnsembleSpec` and `UseForCalcScores`.
- `tree.dfy` (`Tree`): `TSplit` and `TSplitTree`.

Each `operator==` is a member function `Equals`. Its partner is a `Key()` (for specs, `Shape()`) that projects out exactly the fields the equality reads. `Equals` is proved to hold exactly when the keys are equal. That proves equality is an equivalence relation, that it ignores inactive fields, and that each `GetHash` is a function of the key. Together these give "equal values hash equally".

`TSplitTree` is a class with a `splits: seq<Split>` field. `AddSplit` and `DeleteSplit` reassign that field. The three view methods loop over the splits and push results, as the source does. Each view method is proved equal to a filter-and-project function, `Project`. `ProjectAtPositions` then proves that a view holds exactly the images of the splits of its kind, in increasing position order.

Serialised field orders (the SAVELOAD declarations) are not modelled as streams. They are:

- Ctr: (Projection, CtrIdx, TargetBorderIdx, PriorIdx, BorderCount).
- SplitCandidate: (Ctr, FeatureIdx, Type).
- SplitEnsemble: (Type, SplitCandidate, BinarySplitsPackRef, ExclusiveFeaturesBundleRef).
- SplitEnsembleSpec: (Type, OneSplitType, ExclusiveFeaturesBundle).
- Split: the candidate's fields, then BinBorder.
- SplitTree: (Splits).

The kinds' hashes combine distinct base constants through `MultiHash`, which does not rule out collisions between kinds, so the model makes no claim about them.

## Model

| member | source | states |
|---|---|---|
| Candidate.Ctr.Equals | catboost/libs/algo/split.h:46-49 | The five-field comparison holds exactly when the two Ctrs are the same value. |
| Candidate.DefaultCtr | catboost/libs/algo/split.h:27-35 | A default TCtr has the default projection and all four indices 0. |
| Candidate.CtrHashConsistent | catboost/libs/algo/split.h:46-60 | Equal Ctrs have equal GetHash, for any MultiHash and projection hash. |
| Candidate.SplitCandidate.Key | catboost/libs/algo/split.h:70-85 | The active part of a candidate has the candidate's kind. It carries FeatureIdx for the numeric kinds and Ctr for OnlineCtr. |
| Candidate.SplitCandidate.Equals | catboost/libs/algo/split.h:80-85 | Candidate equality holds exactly when the active parts (kind plus active field) are equal. |
| Candidate.DefaultCandidate | catboost/libs/algo/split.h:70-73 | A default candidate is FloatFeature with FeatureIdx -1 and the default Ctr. |
| Candidate.CandidateHashFromKey | catboost/libs/algo/split.h:90-99 | GetHash depends only on the active part: the kind's base hash combined with FeatureIdx or with the Ctr's hash. |
| Candidate.CandidateHashConsistent | catboost/libs/algo/split.h:80-99 | Equal candidates have equal hashes. |
| Candidate.CandidateEqualsIsEquivalence | catboost/libs/algo/split.h:80-85 | Candidate equality is reflexive, symmetric and transitive, so it can key a hash map. |
| Candidate.NumericCandidatesEqual | catboost/libs/algo/split.h:80-83 | Two Float (or two OneHot) candidates are equal iff their FeatureIdx match, whatever their Ctr. |
| Candidate.CtrCandidatesEqual | catboost/libs/algo/split.h:80-84 | Two OnlineCtr candidates are equal iff their Ctrs are, whatever their FeatureIdx. |
| Candidate.DifferentKindsNotEqual | catboost/libs/algo/split.h:80-81 | Candidates of different kinds are never equal. |
| Candidate.StaleFeatureIdxIgnored | catboost/libs/algo/split.h:80-99 | A stale FeatureIdx in an OnlineCtr candidate changes neither its equality nor its hash. |
| Candidate.StaleCtrIgnored | catboost/libs/algo/split.h:80-99 | A stale Ctr in a Float or OneHot candidate changes neither its equality nor its hash. |
| Ensemble.SplitEnsemble.Key | catboost/libs/algo/split.h:139-146 | The tag selects which payload is active, and the key carries that payload only. |
| Ensemble.SplitEnsemble.Equals | catboost/libs/algo/split.h:177-189 | Ensemble equality, written as a switch on this side's tag, holds exactly when the tags and the active payloads agree. |
| Ensemble.SplitEnsemble.IsSplitOfType | catboost/libs/algo/split.h:204-206 | True exactly for single-feature ensembles whose candidate has the given kind. |
| Ensemble.DefaultEnsemble | catboost/libs/algo/split.h:111-154 | The default ensemble is OneFeature over the default candidate, and both indices are the largest ui32. |
| Ensemble.EnsembleOfCandidate | catboost/libs/algo/split.h:156-159 | Sets OneFeature with the given candidate active. Pack and bundle indices stay at the largest ui32. |
| Ensemble.EnsembleOfPackRef | catboost/libs/algo/split.h:164-167 | Sets BinarySplits with the given pack index active. The candidate is the default, and the bundle index is the largest ui32. |
| Ensemble.EnsembleOfBundleRef | catboost/libs/algo/split.h:172-175 | Sets ExclusiveBundle with the given bundle index active. The candidate is the default, and the pack index is the largest ui32. |
| Ensemble.EnsembleHashFromKey | catboost/libs/algo/split.h:193-202 | Ensemble GetHash depends only on the active part. It is the candidate's own hash, or a fixed salt (118223 or 981490) combined with the index. |
| Ensemble.EnsembleHashConsistent | catboost/libs/algo/split.h:177-202 | Equal ensembles have equal hashes. |
| Ensemble.EnsembleEqualsIsEquivalence | catboost/libs/algo/split.h:177-189 | Ensemble equality is reflexive, symmetric and transitive. |
| Ensemble.OneFeatureAsCandidate | catboost/libs/algo/split.h:177-196 | A single-feature ensemble has its candidate's hash, and two such ensembles are equal iff their candidates are. |
| Ensemble.BundleEnsemblesEqual | catboost/libs/algo/split.h:185-187 | Two bundle ensembles are equal iff their bundle indices match, whatever their unused candidate and pack fields. |
| Ensemble.PackEnsemblesEqual | catboost/libs/algo/split.h:182-184 | Two pack ensembles are equal iff their pack indices match, whatever their unused fields. |
| Ensemble.DifferentTagsNotEqual | catboost/libs/algo/split.h:177-189 | Ensembles with different tags are never equal. |
| Ensemble.IsSplitOfTypeRespectsEquals | catboost/libs/algo/split.h:204-206 | IsSplitOfType is false for pack and bundle ensembles, and it agrees on equal ensembles. |
| Ensemble.IsSplitOfTypeUnique | catboost/libs/algo/split.h:204-206 | An ensemble is "of type" for at most one kind. |
| Ensemble.SplitEnsembleSpec.Shape | catboost/libs/algo/split.h:217-221 | The split kind is meaningful only for OneFeature specs, and the layout only for ExclusiveBundle specs. |
| Ensemble.SplitEnsembleSpec.Equals | catboost/libs/algo/split.h:249-259 | Spec equality holds exactly when the meaningful parts agree, so all BinarySplits specs are equal. |
| Ensemble.OneSplitSpec | catboost/libs/algo/split.h:261-263 | The OneSplit factory gives a OneFeature spec of the given kind. |
| Ensemble.BinarySplitsPackSpec | catboost/libs/algo/split.h:265-267 | The BinarySplitsPack factory gives a BinarySplits spec with default remaining fields. |
| Ensemble.ExclusiveFeatureBundleSpec | catboost/libs/algo/split.h:269-277 | The bundle factory gives an ExclusiveBundle spec with the given layout and a dummy FloatFeature kind. |
| Ensemble.SpecOf | catboost/libs/algo/split.h:234-245 | Building a spec copies the tag and the candidate's kind. For a bundle ensemble whose index is in range, it also takes the layout at that index; otherwise the layout is the default. |
| Ensemble.SpecEqualsIsEquivalence | catboost/libs/algo/split.h:249-259 | Spec equality is reflexive, symmetric and transitive. |
| Ensemble.PackSpecsEqual | catboost/libs/algo/split.h:253-254 | Any two BinarySplits specs are equal. |
| Ensemble.SpecOfMatchesFactory | catboost/libs/algo/split.h:234-277 | The spec built from an ensemble equals the factory-made spec of its variant. |
| Ensemble.SpecOfRespectsEquals | catboost/libs/algo/split.h:234-259 | Equal ensembles give equal specs over the same bundle list. |
| Ensemble.UseForCalcScores | catboost/libs/algo/split.h:289-294 | A non-categorical part is always used. A categorical part is used iff its size is strictly below oneHotMaxSize, which is the same as size + 1 <= oneHotMaxSize. |
| Ensemble.UseForCalcScoresMonotone | catboost/libs/algo/split.h:289-294 | Raising oneHotMaxSize never takes a part out of score calculation. |
| Ensemble.UseForCalcScoresBoundary | catboost/libs/algo/split.h:289-294 | The boundary is inclusive: size 4 with maximum 5 is used, size 5 with maximum 5 is not, and a non-categorical part is used even with maximum 0. |
| Tree.Split.Equals | catboost/libs/algo/split.h:298-311 | Split equality is candidate equality: the border plays no part. |
| Tree.DefaultSplit | catboost/libs/algo/split.h:303-306 | A default split has the default candidate and border 0. |
| Tree.BorderIgnored | catboost/libs/algo/split.h:298-311 | Two splits on the same candidate with different borders are equal and hash equally. |
| Tree.SplitHashConsistent | catboost/libs/algo/split.h:298-311 | Equal splits hash equally. |
| Tree.SplitTree.AddSplit | catboost/libs/algo/split.h:339-341 | Appends the split and leaves the existing prefix unchanged. Each view grows by the new split's image at most. Below depth 30 the leaf count doubles. |
| Tree.SplitTree.DeleteSplit | catboost/libs/algo/split.h:343-345 | For an index in range, the splits become `old[..i] + old[i+1..]`. Earlier splits stay in place and later ones shift down by one. The views of other kinds are unchanged. Below depth 31 the leaf count halves. |
| Tree.ProjectAfterDelete | catboost/libs/algo/split.h:343-383 | After a deletion, a view is the view of the prefix followed by the view of the suffix. Deleting a split of another kind leaves the view as it was. |
| Tree.SplitTree.GetDepth | catboost/libs/algo/split.h:351-353 | The depth is the number of splits. |
| Tree.SplitTree.GetLeafCount | catboost/libs/algo/split.h:347-349 | For fewer than 31 splits, the leaf count is computed as the 32-bit shift `1 << n` and proved equal to 2^depth, which is positive and at most 2^30. |
| Tree.ShiftLeftOneIsPow2 | catboost/libs/algo/split.h:347-349 | The 32-bit shift `1 << n` equals 2^n for every n below 31, where it stays below the sign bit. |
| Tree.SplitTree.GetBinFeatures | catboost/libs/algo/split.h:355-363 | The loop returns the (FeatureIdx, BinBorder) pairs of the float splits, in tree order, without changing the tree. |
| Tree.SplitTree.GetOneHotFeatures | catboost/libs/algo/split.h:365-373 | The loop returns the (FeatureIdx, BinBorder) pairs of the one-hot splits, in tree order, without changing the tree. |
| Tree.SplitTree.GetCtrSplits | catboost/libs/algo/split.h:375-383 | The loop returns the Ctrs of the online-CTR splits, in tree order, without changing the tree. |
| Tree.ProjectAtPositions | catboost/libs/algo/split.h:355-383 | A view holds one element per split of its kind. Its k-th element is the image of the k-th such split, and positions increase, so the filter is stable. |
| Tree.ProjectAppend | catboost/libs/algo/split.h:339-383 | The view of a concatenation of split sequences is the concatenation of their views. |
| Tree.Positions | catboost/libs/algo/split.h:355-383 | The positions of the splits of a kind are increasing and in range, and they include every such split. |

## Left out

- `GetBucketCount` (split.h:281-286): only its declaration is in split.h, and its body is defined elsewhere.
- `TSplit::GetModelSplit` (split.h:323-325): declared only. It depends on the learning context and a category-value map that are not part of this model.
- `TSplit::EmulateUi8Rounding` (split.h:327-329): float arithmetic.
- `TTreeStats` (split.h:386-391): a vector of doubles with no operations.
- Serialisation (`SAVELOAD`, `Y_SAVELOAD_DEFINE`, `Save`/`Load`): stream plumbing. The field orders are listed above.
- `TCtr::operator!=` and the `THash<>` specialisations: each only negates `Equals` or calls `Hash`.
- `MultiHash`, `TProjection::GetHash` and the three candidate base hashes: uninterpreted. They are fields of `Hasher`, so no property depends on their values or on the absence of collisions.
- `TProjection`: projection.h is not part of this model. The `Projection` datatype is a concrete stand-in defined by three fields. The model uses only its value equality and the hash a `Hasher` supplies for it.
- `TExclusiveFeaturesBundle`, `TExclusiveBundlePart` and `TBoundsInBundle`: exclusive_feature_bundling.h is not part of this model. These datatypes are concrete stand-ins defined by field. The model uses only their value equality and the fields `UseForCalcScores` reads.
- `BoundsSize`: assumes that bounds satisfy `begin <= end` and that `GetSize()` is `end - begin`. Both facts are about code outside split.h. Under that assumption, a ui32 wrap-around of `End - Begin` is not modelled.
- Ensemble.UseForCalcScores: computes `GetSize() + 1` on unbounded integers, so it does not model a ui32 wrap-around at a size of 2^32 - 1. The return type of `GetSize` is declared outside split.h.
- Tree.SplitTree.GetLeafCount: requires fewer than 31 splits. The int shift `1 << n` overflows from 31 on, and that case is not modelled.
- Tree.SplitTree.DeleteSplit: requires an index in range. An out-of-range `erase` is undefined in the source.
- Ensemble.SpecOf: requires the bundle index to be in range for a bundle ensemble. An out-of-range lookup is undefined in the source.
- Concurrency: the types are plain values, and tree mutation is single-threaded by convention.
