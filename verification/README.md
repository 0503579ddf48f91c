# nanovc indexing — a Dafny model

This project models the core of the `io.nanovc.indexing` library. The library
answers nearest-neighbour queries over items placed along one or more
dimensions. The project also models the unit-suffix label formatter used by
the library's performance plots. The model covers:

- **Ranges and hyper cubes.** The sealed range algebra and its
  `RangeCalculator`: membership, `inverse`, `splitRange` and the
  `create*Range` builders. Also dimensions, hyper cube definitions and
  hyper cubes, and the division coordinates with their `equals`/`hashCode`
  contract.
- **Arithmetic strategies.** The integer and string strategies, with
  Java's 32-bit `int` wrap-around written out. The emoji-first string
  comparator. The item map that gives each item a global key.
- **Nearest-neighbour indexes.**
  - The linear index. It is the reference answer: the first item at the
    least distance, or an exact match.
  - The binary-tree index.
  - The one-dimensional grid index with its division slots.
  - Bentley's k-d tree, with the in-place `SELECT` partition and `build`
    over the `perm` array.
  - Each index is proved against the linear reference or against a
    definition of "first least distance".
- **Repo-backed indexes.** The in-memory bookkeeping of the repo-backed
  one-dimensional and k-dimensional indexes: division maps, sub-grid
  hand-over, neighbour-division lookup, the merge of division answers, and
  the full scans of content areas. Also the repo path tree that those
  indexes use to address content.
- **The Python formatter.** `number_suffix_format` from the analysis
  scripts.

Objects whose fields the library updates in place are Dafny classes with
`modifies`/`reads` frames: the indexes, the item map, the hyper cube
definition, the path tree and the k-d tree. Immutable records and pure
calculators are datatypes and functions.

**Parameters.** The library's plug-in interfaces are function parameters:
extractors, distance measurers, range finders, range splitters, sub-grid
searches and content readers. Their preconditions are stated where the code
relies on them, for example that a range finder yields an index within the
divisions.

**Distances** are integers compared in their natural order.

**Errors.** Where the Java code returns `null` the model returns an
`Option`. Where it throws, the model returns a `Result` whose failure names
the exception.

## Model

| member | source | states |
|---|---|---|
| IntegerArithmetic.Add | src/main/java/io/nanovc/indexing/repo/arithmetic/IntegerArithmetic.java:16-19 | the sum wrapped to 32 bits: congruent to `a + b` modulo 2^32, and equal to it when it fits |
| IntegerArithmetic.Subtract | src/main/java/io/nanovc/indexing/repo/arithmetic/IntegerArithmetic.java:29-32 | the difference wrapped to 32 bits, exact when it fits |
| IntegerArithmetic.Multiply | src/main/java/io/nanovc/indexing/repo/arithmetic/IntegerArithmetic.java:42-45 | the product wrapped to 32 bits, exact when it fits |
| IntegerArithmetic.Divide | src/main/java/io/nanovc/indexing/repo/arithmetic/IntegerArithmetic.java:55-58 | division by zero throws `ArithmeticException`; otherwise truncation toward zero, with `MIN_VALUE / -1` wrapping to `MIN_VALUE` |
| IntegerArithmetic.HalveValue | src/main/java/io/nanovc/indexing/repo/arithmetic/IntegerArithmetic.java:67-70 | `value >> 1` is the floor of half: `2r <= v < 2r + 2` |
| IntegerArithmetic.DoubleValue | src/main/java/io/nanovc/indexing/repo/arithmetic/IntegerArithmetic.java:79-82 | `value << 1` is twice the value wrapped to 32 bits |
| IntegerArithmetic.HalveUndoesDouble | src/main/java/io/nanovc/indexing/repo/arithmetic/IntegerArithmetic.java:67-82 | halving undoes doubling whenever the double fits in 32 bits |
| IntegerArithmetic.HalveDiffersFromDivide | src/main/java/io/nanovc/indexing/repo/arithmetic/IntegerArithmetic.java:55-70 | `halveValue` agrees with `divide(v, 2)` except on odd negatives, where the shift is one lower |
| StringArithmetic.Compare | src/main/java/io/nanovc/indexing/repo/arithmetic/StringArithmetic.java:23-26 | `String.compareTo`: zero exactly on equal strings, and antisymmetric |
| StringArithmetic.CompareIsComparator | src/main/java/io/nanovc/indexing/repo/arithmetic/StringArithmetic.java:23-26 | the string compare meets the `Comparator` contract (sign antisymmetry, transitivity, consistent zero) |
| StringArithmetic.Add | src/main/java/io/nanovc/indexing/repo/arithmetic/StringArithmetic.java:36-39 | concatenation: the left string followed by the right one |
| StringArithmetic.HalveValue | src/main/java/io/nanovc/indexing/repo/arithmetic/StringArithmetic.java:100-103 | the first `length / 2` code units, a prefix of the value |
| StringArithmetic.DoubleValue | src/main/java/io/nanovc/indexing/repo/arithmetic/StringArithmetic.java:112-115 | the value twice over, both halves equal to the value |
| StringArithmetic.HalveUndoesDouble | src/main/java/io/nanovc/indexing/repo/arithmetic/StringArithmetic.java:100-115 | halving a doubled string gives the string back |
| StringArithmetic.UnsupportedOperationsFail | src/main/java/io/nanovc/indexing/repo/arithmetic/StringArithmetic.java:49-154 | subtract, multiply, divide, midPoint, both scalings and quantize always throw `UnsupportedOperationException` |
| Dimensions.RangeBetween | src/main/java/io/nanovc/indexing/repo/Dimension.java:73-76 | a value is in the range between the bounds iff it lies between them under the dimension's comparator and is in the dimension's own range |
| Dimensions.UnitIntegerDimension | src/main/java/io/nanovc/indexing/repo/Dimension.java:61-64 | an integer dimension over [0, 1] holds 0 and 1 and neither -1 nor 2 |
| Dimensions.IsInRange | src/main/java/io/nanovc/indexing/repo/Dimension.java:61-64 | membership in the dimension's own range under its calculator's compare |
| DivisionCoords.GetValue | src/main/java/io/nanovc/indexing/repo/DivisionCoord.java:29-32 | the value at the index, and `IndexOutOfBounds` exactly when the index is outside the values |
| DivisionCoords.GetValueOf | src/main/java/io/nanovc/indexing/repo/DivisionCoord.java:19-22 | the value at the dimension's index |
| DivisionCoords.WithNextValue | src/main/java/io/nanovc/indexing/repo/DivisionCoord.java:46-58 | one value longer: the receiver's values, then the new value |
| DivisionCoords.ArraysEquals | src/main/java/io/nanovc/indexing/repo/DivisionCoord.java:103-111 | `Arrays.equals`: same length and same entries |
| DivisionCoords.Equals | src/main/java/io/nanovc/indexing/repo/DivisionCoord.java:103-111 | two coordinates are equal iff their value sequences are |
| DivisionCoords.EqualsImpliesSameHash | src/main/java/io/nanovc/indexing/repo/DivisionCoord.java:103-137 | equal coordinates have equal hash codes |
| DivisionCoords.HashFromAppend | src/main/java/io/nanovc/indexing/repo/DivisionCoord.java:133-137 | `Arrays.hashCode` folds each appended value in as `31 * h + v`, wrapped to 32 bits |
| DivisionCoords.HashOfNextValue | src/main/java/io/nanovc/indexing/repo/DivisionCoord.java:46-137 | the hash of `withNextValue(v)` is `31 * hash + v`, wrapped |
| DivisionCoords.SmallHashCodes | src/main/java/io/nanovc/indexing/repo/DivisionCoord.java:133-137 | the empty coordinate hashes to 1 and a one-value coordinate `a` to `31 + a` |
| DivisionCoords.ToString | src/main/java/io/nanovc/indexing/repo/DivisionCoord.java:34-39 | the text is `<[`, the values joined by `, `, then `]>`; the contract states the brackets, and `ToStringInjective` that the text determines the values |
| DivisionCoords.Rendered | src/main/java/io/nanovc/indexing/repo/DivisionCoord.java:34-39 | one decimal rendering per value, in order, each the `Integer.toString` of that value |
| DivisionCoords.ToStringInjective | src/main/java/io/nanovc/indexing/repo/DivisionCoord.java:34-39 | two coordinates with the same text have the same values |
| DivisionCoords.HashCode | src/main/java/io/nanovc/indexing/repo/DivisionCoord.java:133-137 | `Arrays.hashCode(values)` in 32-bit arithmetic; its properties are `HashFromAppend`, `SmallHashCodes` and `EqualsImpliesSameHash` |
| EmojiFirst.CompareTo | src/main/java/io/nanovc/indexing/repo/EmojiFirstComparator.java:59-106 | zero exactly on equal strings |
| EmojiFirst.Compare | src/main/java/io/nanovc/indexing/repo/EmojiFirstComparator.java:45-48 | a null argument throws `NullPointerException`; otherwise the static `compareTo` |
| EmojiFirst.OrderIsRankThenString | src/main/java/io/nanovc/indexing/repo/EmojiFirstComparator.java:59-106 | the order is by group (empty, surrogate-first, other) and then `String.compareTo` |
| EmojiFirst.Rank | src/main/java/io/nanovc/indexing/repo/EmojiFirstComparator.java:59-106 | the group a string sorts in: 0 for empty, 1 for a leading surrogate, 2 otherwise |
| EmojiFirst.StartsWithEmoji | src/main/java/io/nanovc/indexing/repo/EmojiFirstComparator.java:68-71 | the first code unit is a UTF-16 surrogate (`Character.isSurrogate`) |
| EmojiFirst.Antisymmetric | src/main/java/io/nanovc/indexing/repo/EmojiFirstComparator.java:59-106 | `sign(compare(x, y)) == -sign(compare(y, x))` |
| EmojiFirst.Transitive | src/main/java/io/nanovc/indexing/repo/EmojiFirstComparator.java:59-106 | `compare(x, y) > 0` and `compare(y, z) > 0` give `compare(x, z) > 0` |
| EmojiFirst.IsComparator | src/main/java/io/nanovc/indexing/repo/EmojiFirstComparator.java:45-106 | the comparator meets the full `Comparator` contract |
| Ranges.MembershipOfShapes | src/main/java/io/nanovc/indexing/repo/ranges/RangeCalculator.java:27-43 | for a comparator: the unbounded range holds everything and the never range nothing; single, multi, min and max shapes hold exactly the values their bound or set admits, both directions |
| Ranges.IsInRange | src/main/java/io/nanovc/indexing/repo/ranges/RangeCalculator.java:27-47 | `isInRange` by shape: negation, union and intersection for the combined ranges, the comparator for the bounded ones and set membership for value sets; stated shape by shape in `MembershipOfShapes` |
| Ranges.MembershipOfIntervals | src/main/java/io/nanovc/indexing/repo/ranges/RangeCalculator.java:44-47 | the four two-bound shapes hold exactly the values between their bounds, inclusive or exclusive on each side as named |
| Ranges.HalfOpenIntegerRange | src/main/java/io/nanovc/indexing/repo/ranges/RangeCalculator.java:44-46 | with `Integer::compare`, 0 is in [0, 1) and 1 is not, 1 is in [0, 1] and 0 is not in (0, 1] |
| Ranges.Inverse | src/main/java/io/nanovc/indexing/repo/ranges/NotRange.java:11-15 | the not range inverts to its inner range; single and multi value ranges invert to their negations and back |
| Ranges.InverseComplementsMembership | src/main/java/io/nanovc/indexing/repo/ranges/RangeCalculator.java:27-47 | for each variant with an `inverse()` body, a value is in the inverse exactly when it is not in the range |
| Ranges.InverseTwicePreservesMembership | src/main/java/io/nanovc/indexing/repo/ranges/RangeCalculator.java:27-47 | inverting twice gives a range with the same members |
| Ranges.InversePairs | src/main/java/io/nanovc/indexing/repo/ranges/MaxInclusiveRange.java:13-16 | not-wrapping and inverting cancel; `<=x` and `>x` invert into each other; `<x` inverts to `>=x`; never inverts to unbounded; and/or and the two-bound inclusive-min shapes invert by wrapping in not |
| Ranges.SplitRange | src/main/java/io/nanovc/indexing/repo/ranges/RangeCalculator.java:58-124 | only the half-bounded and bounded shapes split; every other range throws `UnsupportedOperationException` |
| Ranges.BoundedMembership | src/main/java/io/nanovc/indexing/repo/ranges/RangeCalculator.java:40-47 | membership of a splittable range is its lower-bound test and its upper-bound test |
| Ranges.LowerBoundCarries | src/main/java/io/nanovc/indexing/repo/ranges/RangeCalculator.java:40-47 | a value at or above one that meets the lower bound meets it too |
| Ranges.UpperBoundCarries | src/main/java/io/nanovc/indexing/repo/ranges/RangeCalculator.java:40-47 | a value at or below one that meets the upper bound meets it too |
| Ranges.SplitHalvesFromBounds | src/main/java/io/nanovc/indexing/repo/ranges/RangeCalculator.java:72-121 | each half of a split holds the range's values on its side of the split value, given the bound facts for the value |
| Ranges.SplitRangeHalves | src/main/java/io/nanovc/indexing/repo/ranges/RangeCalculator.java:58-124 | splitting at a value inside the range: the lower half holds exactly the range's values below the split value, the higher half those above, and the split value goes where the inclusion says |
| Ranges.SplitRangePartitions | src/main/java/io/nanovc/indexing/repo/ranges/RangeCalculator.java:58-124 | the halves cover the range; with Lower or Higher they are disjoint and the split value is in the named half only; with Both they share exactly the split value |
| Ranges.CreateRangeLessThanOrEqualTo | src/main/java/io/nanovc/indexing/repo/ranges/RangeCalculator.java:127-130 | holds exactly the values at or below the given value |
| Ranges.CreateRangeLessThan | src/main/java/io/nanovc/indexing/repo/ranges/RangeCalculator.java:132-135 | holds exactly the values below the given value |
| Ranges.CreateRangeEqualTo | src/main/java/io/nanovc/indexing/repo/ranges/RangeCalculator.java:137-140 | holds exactly the values comparing equal to the given value |
| Ranges.CreateRangeGreaterThan | src/main/java/io/nanovc/indexing/repo/ranges/RangeCalculator.java:142-145 | holds exactly the values above the given value |
| Ranges.CreateRangeGreaterThanOrEqualTo | src/main/java/io/nanovc/indexing/repo/ranges/RangeCalculator.java:147-150 | holds exactly the values at or above the given value |
| Ranges.CreateBoundedRangeLessThanOrEqualTo | src/main/java/io/nanovc/indexing/repo/ranges/RangeCalculator.java:153-156 | holds exactly the values at or below the given value that are also in the bounds |
| Ranges.CreateBoundedRangeLessThan | src/main/java/io/nanovc/indexing/repo/ranges/RangeCalculator.java:158-161 | holds exactly the values below the given value that are also in the bounds |
| Ranges.CreateBoundedRangeEqualTo | src/main/java/io/nanovc/indexing/repo/ranges/RangeCalculator.java:163-166 | holds exactly the values equal to the given value that are also in the bounds |
| Ranges.CreateBoundedRangeGreaterThan | src/main/java/io/nanovc/indexing/repo/ranges/RangeCalculator.java:168-171 | holds exactly the values above the given value that are also in the bounds |
| Ranges.CreateBoundedRangeGreaterThanOrEqualTo | src/main/java/io/nanovc/indexing/repo/ranges/RangeCalculator.java:173-176 | holds exactly the values at or above the given value that are also in the bounds |
| Ranges.CreateBoundedRangeBetween | src/main/java/io/nanovc/indexing/repo/ranges/RangeCalculator.java:178-181 | holds exactly the values between the two inclusive bounds that are also in the bounds range |
| Ranges.RenderedForms | src/main/java/io/nanovc/indexing/repo/ranges/MaxInclusiveRange.java:18-21 | `<=x`, `<x`, `NEVER` and `[]` for an empty value set |
| Ranges.RenderedCombinations | src/main/java/io/nanovc/indexing/repo/ranges/AndRange.java:16-19 | for every pair of ranges: `NOT ` before the inner rendering; an and-range is the left rendering, ` && `, then the right rendering; an or-range keeps the record rendering |
| Ranges.ToString | src/main/java/io/nanovc/indexing/repo/ranges/MultiValueRange.java:21-34 | the `toString` of each range variant; its renderings are stated by `RenderedForms` and `RenderedCombinations` |
| HyperCubes.DimensionName | src/main/java/io/nanovc/indexing/repo/HyperCubeDefinition.java:47-48 | never empty; a given non-empty name is kept, otherwise the dimension's index is used |
| HyperCubes.DefaultNamesDistinct | src/main/java/io/nanovc/indexing/repo/HyperCubeDefinition.java:44-48 | dimensions named by distinct indices get distinct names |
| HyperCubes.HyperCubeDefinition.constructor | src/main/java/io/nanovc/indexing/repo/HyperCubeDefinition.java:16-24 | a new definition has no dimensions and no names |
| HyperCubes.HyperCubeDefinition.GetDimensionCount | src/main/java/io/nanovc/indexing/repo/HyperCubeDefinition.java:117-120 | the number of dimensions added so far |
| HyperCubes.HyperCubeDefinition.AddDimension | src/main/java/io/nanovc/indexing/repo/HyperCubeDefinition.java:35-64 | appends a dimension whose index is the count before the call, registers its name (a re-used name now maps to it), keeps the index/name invariant, and the new dimension can be found by index and by name |
| HyperCubes.HyperCubeDefinition.GetDimensionByName | src/main/java/io/nanovc/indexing/repo/HyperCubeDefinition.java:72-76 | present iff some dimension carries the name; then it is the last dimension with that name |
| HyperCubes.HyperCubeDefinition.GetDimension | src/main/java/io/nanovc/indexing/repo/HyperCubeDefinition.java:84-88 | the dimension at the index iff the index is in range; otherwise the list throws `IndexOutOfBoundsException` |
| HyperCubes.HyperCubeDefinition.CreateHyperCube | src/main/java/io/nanovc/indexing/repo/HyperCubeDefinition.java:95-112 | a cube over this definition whose range i is dimension i's range |
| HyperCubes.HyperCubeDefinition.ToString | src/main/java/io/nanovc/indexing/repo/HyperCubeDefinition.java:122-133 | the dimension names in index order joined by commas |
| HyperCubes.IsCoordinateInRange | src/main/java/io/nanovc/indexing/repo/HyperCube.java:64-94 | true iff every component is in its dimension's range; a component beyond the dimensions or ranges, reached before a failing one, throws `IndexOutOfBoundsException` |
| HyperCubes.IsHyperCoordInRange | src/main/java/io/nanovc/indexing/repo/HyperCube.java:53-56 | the same answer as the varargs form on the coordinate's values |
| HyperCubes.CubeOfRangeBetween | src/main/java/io/nanovc/indexing/repo/HyperCube.java:64-94 | a one-dimensional cube over `rangeBetween(lo, hi)` holds exactly the values in `[lo, hi]` that are also in the dimension's range |
| HyperCubes.CubeToString | src/main/java/io/nanovc/indexing/repo/HyperCube.java:96-115 | `name:range` per dimension joined by newlines; throws iff there are fewer ranges than dimensions |
| ItemGlobalMaps.ItemGlobalMap.constructor | src/main/java/io/nanovc/indexing/repo/ItemGlobalMap.java:16-29 | an empty map whose counter starts at 0 |
| ItemGlobalMaps.ItemGlobalMap.GetKeyForItem | src/main/java/io/nanovc/indexing/repo/ItemGlobalMap.java:68-71 | a key iff the item was added; then the key is the position of its first addition |
| ItemGlobalMaps.ItemGlobalMap.GetItem | src/main/java/io/nanovc/indexing/repo/ItemGlobalMap.java:78-81 | an item iff the key was handed out; then the item added under it |
| ItemGlobalMaps.ItemGlobalMap.Add | src/main/java/io/nanovc/indexing/repo/ItemGlobalMap.java:37-61 | a known item keeps its key and nothing changes; a new item gets the counter's value and the counter moves on; afterwards key and item look each other up |
| ItemGlobalMaps.ItemGlobalMap.Visited | src/main/java/io/nanovc/indexing/repo/ItemGlobalMap.java:87-100 | `forEach` and the iterator visit each stored item exactly once and nothing else |
| ItemGlobalMaps.KeysAreNeverReused | src/main/java/io/nanovc/indexing/repo/ItemGlobalMap.java:37-61 | distinct keys name distinct items |
| ItemGlobalMaps.MapsAreInverse | src/main/java/io/nanovc/indexing/repo/ItemGlobalMap.java:68-81 | `getKeyForItem(item) == key` iff `getItem(key) == item` |
| Nearest.FirstLeast | src/main/java/io/nanovc/indexing/linear/LinearIndex1DBase.java:76-103 | the position of a least distance that every earlier distance strictly exceeds: the winner of a best-so-far scan with a strict compare |
| Nearest.FirstLeastUnique | src/main/java/io/nanovc/indexing/linear/LinearIndex1DBase.java:76-103 | there is exactly one such first least position |
| Nearest.FirstLeastAppend | src/main/java/io/nanovc/indexing/linear/LinearIndex1DBase.java:82-101 | one more distance at the end takes over exactly when it is strictly smaller than the current least |
| Nearest.FirstLeastCons | src/main/java/io/nanovc/indexing/binarytree/BinaryTreeIndex1DBase.java:218-226 | one more distance in front takes over exactly when it is not greater than the current least |
| Nearest.FirstNearest | src/main/java/io/nanovc/indexing/linear/LinearIndex1DBase.java:63-106 | none exactly for no items; otherwise an item at the first least distance |
| LinearIndexes.LinearNearest | src/main/java/io/nanovc/indexing/linear/LinearIndex1DBase.java:63-106 | none iff the index is empty; otherwise an indexed item no farther than any other, and every item before it is strictly farther |
| LinearIndexes.LeastIsNearest | src/main/java/io/nanovc/indexing/linear/LinearIndex1DBase.java:63-106 | the item at the first least distance is no farther than any indexed item |
| LinearIndexes.NearestAfterAdd | src/main/java/io/nanovc/indexing/linear/LinearIndex1DBase.java:53-106 | after `add(x)` the answer becomes `x` exactly when the index was empty or `x` is strictly nearer than the previous answer; otherwise it is unchanged |
| LinearIndexes.ScanNearest | src/main/java/io/nanovc/indexing/linear/LinearIndex1DBase.java:66-105 | the loop with its first-distance and strict-improvement branches returns the first nearest item |
| LinearIndexes.LinearIndex1DBase.constructor | src/main/java/io/nanovc/indexing/linear/LinearIndex1DBase.java:42-46 | an empty index with the given measurer |
| LinearIndexes.LinearIndex1DBase.Add | src/main/java/io/nanovc/indexing/linear/LinearIndex1DBase.java:53-56 | appends the item after the existing ones |
| LinearIndexes.LinearIndex1DBase.SearchNearest | src/main/java/io/nanovc/indexing/linear/LinearIndex1DBase.java:63-106 | the first nearest item of the index |
| LinearIndexes.LinearIndex1D.constructor | src/main/java/io/nanovc/indexing/LinearIndex1D.java:34-38 | an empty index with the given measurer |
| LinearIndexes.LinearIndex1D.Add | src/main/java/io/nanovc/indexing/LinearIndex1D.java:45-48 | appends the item after the existing ones |
| LinearIndexes.LinearIndex1D.SearchNearest | src/main/java/io/nanovc/indexing/LinearIndex1D.java:55-94 | the first nearest item of the index |
| RepoPathTrees.RepoPathNode.constructor | src/main/java/io/nanovc/indexing/repo/RepoPathNode.java:35-39 | a node under the parent with the name; its path is the parent's path plus the name, with no cached path and no children map yet |
| RepoPathTrees.RepoPathNode.IsRootNode | src/main/java/io/nanovc/indexing/repo/RepoPathNode.java:54-57 | true iff the node stands for the root path |
| RepoPathTrees.RepoPathNode.HasChildren | src/main/java/io/nanovc/indexing/repo/RepoPathNode.java:45-48 | true iff the children map exists and is not empty |
| RepoPathTrees.RepoPathNode.GetRepoPath | src/main/java/io/nanovc/indexing/repo/RepoPathNode.java:82-109 | the node's path (the root path, or the parent's resolved with the name), cached here and in the ancestors it computed; children maps untouched |
| RepoPathTrees.RepoPathNode.GetChildrenByName | src/main/java/io/nanovc/indexing/repo/RepoPathNode.java:115-126 | an empty map created on first use, afterwards always the same map |
| RepoPathTrees.NodesAreLinked | src/main/java/io/nanovc/indexing/repo/RepoPathTree.java:23-65 | every node of the tree has a consistent parent chain |
| RepoPathTrees.AncestorsInTree | src/main/java/io/nanovc/indexing/repo/RepoPathTree.java:23-65 | the ancestors of every node of the tree are nodes of the tree |
| RepoPathTrees.ExtendedPathIsChild | src/main/java/io/nanovc/indexing/repo/RepoPathTree.java:44-55 | a node's path extended by a name is in the tree iff the name is in the node's children map, and then it is that child |
| RepoPathTrees.AttachKeepsTrie | src/main/java/io/nanovc/indexing/repo/RepoPathTree.java:48-55 | filing a new child under a fresh name keeps the trie shape and adds exactly the child's path |
| RepoPathTrees.PrefixClosed | src/main/java/io/nanovc/indexing/repo/RepoPathTree.java:23-65 | every prefix of a path in the tree is in the tree |
| RepoPathTrees.ChildrenKept | src/main/java/io/nanovc/indexing/repo/RepoPathTree.java:23-65 | when a tree only grows, every child filed before is still filed under the same name |
| RepoPathTrees.GrownKeepsTree | src/main/java/io/nanovc/indexing/repo/RepoPathTree.java:23-65 | after growth every prefix of an added path has a node and no earlier child is lost |
| RepoPathTrees.RepoPathTree.constructor | src/main/java/io/nanovc/indexing/repo/RepoPathTree.java:16 | a tree holding only a new root node, which stands for the root path and has no cached path and no children map |
| RepoPathTrees.RepoPathTree.AddPath | src/main/java/io/nanovc/indexing/repo/RepoPathTree.java:23-65 | null gives null and changes nothing; otherwise the node for the path, creating only missing nodes along it, so every prefix has a node, existing children and cached paths are kept, and a known path returns its existing node with the tree unchanged; the nodes it creates have no cached path, every cached path in the tree stays its node's path, and the returned node's ancestors are nodes of the tree |
| RepoPathTrees.RepoPathTree.GetOrCreateChild | src/main/java/io/nanovc/indexing/repo/RepoPathTree.java:45-58 | the child under the name, created and filed when missing and otherwise the existing one with the tree unchanged |
| RepoPathTrees.AddPathThenGetRepoPath | src/main/java/io/nanovc/indexing/repo/RepoPathNode.java:82-109 | `addPath` then `getRepoPath` on the returned node: the node is named by the last segment and answers the path, and the tree stays well formed |
| RepoPathTrees.AddPathsThenGetRepoPaths | src/test/java/io/nanovc/indexing/repo/RepoPathTreeTests.java:46-57 | on a new tree, adding `/a` then `/a/b` gives nodes named `a` and `b` whose repo paths are `/a` and `/a/b` |
| BinaryTreeIndexes.AddRecursively | src/main/java/io/nanovc/indexing/binarytree/BinaryTreeIndex1DBase.java:75-138 | the result always has a node at the top (the empty root takes the item) |
| BinaryTreeIndexes.AddStoresOnce | src/main/java/io/nanovc/indexing/binarytree/BinaryTreeIndex1DBase.java:75-138 | the added item is stored exactly once more and every other item's count is unchanged |
| BinaryTreeIndexes.AddKeepsOrdered | src/main/java/io/nanovc/indexing/binarytree/BinaryTreeIndex1DBase.java:89-137 | adding keeps the search-tree order: left subtree below, bucket equal, right subtree above the node's item |
| BinaryTreeIndexes.AddLeftKeepsOrdered | src/main/java/io/nanovc/indexing/binarytree/BinaryTreeIndex1DBase.java:106-120 | the left descent keeps the order |
| BinaryTreeIndexes.AddRightKeepsOrdered | src/main/java/io/nanovc/indexing/binarytree/BinaryTreeIndex1DBase.java:121-136 | the right descent keeps the order |
| BinaryTreeIndexes.OrderedNode | src/main/java/io/nanovc/indexing/binarytree/BinaryTreeIndex1DBase.java:75-138 | a node over ordered subtrees on the correct sides, with an equal non-empty bucket, is ordered |
| BinaryTreeIndexes.AddKeepsDepths | src/main/java/io/nanovc/indexing/binarytree/BinaryTreeIndex1DBase.java:110-130 | a new node's depth is one more than its parent's, at every level |
| BinaryTreeIndexes.SearchPath | src/main/java/io/nanovc/indexing/binarytree/BinaryTreeIndex1DBase.java:173-206 | the comparator-guided path is empty exactly for the empty tree |
| BinaryTreeIndexes.SearchPathIsStored | src/main/java/io/nanovc/indexing/binarytree/BinaryTreeIndex1DBase.java:173-206 | every item on the search path is stored in the tree |
| BinaryTreeIndexes.OnlyLastOfPathIsEqual | src/main/java/io/nanovc/indexing/binarytree/BinaryTreeIndex1DBase.java:185-194 | only the last item of the path can compare equal to the query, since an equal node stops the descent |
| BinaryTreeIndexes.AddGrowsUnlessEqual | src/main/java/io/nanovc/indexing/binarytree/BinaryTreeIndex1DBase.java:89-137 | adding creates one node unless an equal item is on the path, in which case it goes into that node's bucket |
| BinaryTreeIndexes.AddThenSearchIsExact | src/main/java/io/nanovc/indexing/binarytree/BinaryTreeIndex1DBase.java:64-206 | after adding an item, searching for it meets an equal node |
| BinaryTreeIndexes.SearchFrom | src/main/java/io/nanovc/indexing/binarytree/BinaryTreeIndex1DBase.java:173-228 | an empty subtree leaves the context alone; a newly set exact flag comes with an equal nearest node |
| BinaryTreeIndexes.SearchFromFresh | src/main/java/io/nanovc/indexing/binarytree/BinaryTreeIndex1DBase.java:155-228 | from a fresh context the recursion ends with the exact node if the path meets one, otherwise with the first least distance scanning the path from the leaf back to the root with a non-strict compare |
| BinaryTreeIndexes.SearchLeafStep | src/main/java/io/nanovc/indexing/binarytree/BinaryTreeIndex1DBase.java:196-227 | at the end of the path the node's own distance is taken |
| BinaryTreeIndexes.SearchInnerStep | src/main/java/io/nanovc/indexing/binarytree/BinaryTreeIndex1DBase.java:196-227 | after a non-exact recursive call the node replaces the best so far when its distance is not greater |
| BinaryTreeIndexes.TreeNearest | src/main/java/io/nanovc/indexing/binarytree/BinaryTreeIndex1DBase.java:155-164 | an empty tree throws `NullPointerException`; otherwise a stored item, equal to the query when an equal node lies on the path, else the item of first least distance on the search path |
| BinaryTreeIndexes.SearchContext.constructor | src/main/java/io/nanovc/indexing/binarytree/BinaryTreeIndex1DBase.java:267-284 | a fresh context: no exact match, no distance, no node |
| BinaryTreeIndexes.SearchNearestRecursively | src/main/java/io/nanovc/indexing/binarytree/BinaryTreeIndex1DBase.java:173-228 | leaves in the context exactly what the recursive definition of the search leaves |
| BinaryTreeIndexes.BinaryTreeIndex1DBase.constructor | src/main/java/io/nanovc/indexing/binarytree/BinaryTreeIndex1DBase.java:52-57 | an empty tree with the given comparator and measurer |
| BinaryTreeIndexes.BinaryTreeIndex1DBase.Add | src/main/java/io/nanovc/indexing/binarytree/BinaryTreeIndex1DBase.java:64-67 | stores the item once more and keeps the tree ordered |
| BinaryTreeIndexes.BinaryTreeIndex1DBase.SearchNearest | src/main/java/io/nanovc/indexing/binarytree/BinaryTreeIndex1DBase.java:155-164 | the answer of the recursive search from a fresh context |
| GridIndexes.ListNearest | src/main/java/io/nanovc/indexing/grid/GridIndex1DBase.java:505-560 | an item equal to the query is an exact match without a distance; an empty list gives nothing; otherwise the first nearest item with its distance, which no item of the list undercuts |
| GridIndexes.SlotNearest | src/main/java/io/nanovc/indexing/grid/GridIndex1DBase.java:505-513 | nothing exactly when the division has no list |
| GridIndexes.LastUsedDownFrom | src/main/java/io/nanovc/indexing/grid/GridIndex1DBase.java:271-288 | walking left from an index stops at the first division with a list, or at 0, and skips only divisions without one |
| GridIndexes.PreviousSlot | src/main/java/io/nanovc/indexing/grid/GridIndex1DBase.java:270-288 | the previous division with a list, 0 when none is found on the way, and -1 only at the left edge |
| GridIndexes.FirstUsedUpFrom | src/main/java/io/nanovc/indexing/grid/GridIndex1DBase.java:310-327 | walking right stops at the first division with a list, or past the last one, skipping only divisions without one |
| GridIndexes.NextSlot | src/main/java/io/nanovc/indexing/grid/GridIndex1DBase.java:309-327 | the next division with a list after the index, or the division count when there is none |
| GridIndexes.Choose | src/main/java/io/nanovc/indexing/grid/GridIndex1DBase.java:349-495 | nothing only when no division answered; otherwise one of the answers, no farther than any of them; the own division wins every tie it takes part in; previous against next with equal distances goes to next without an own answer and to previous when previous already beat the own answer |
| GridIndexes.GridNearestNone | src/main/java/io/nanovc/indexing/grid/GridIndex1DBase.java:257-496 | with no empty lists stored, no answer exactly when the consulted divisions hold no items |
| GridIndexes.GridNearestExact | src/main/java/io/nanovc/indexing/grid/GridIndex1DBase.java:265-302 | an item equal to the query in a consulted division is returned |
| GridIndexes.GridNearestIsNearest | src/main/java/io/nanovc/indexing/grid/GridIndex1DBase.java:257-496 | without an exact match the answer is an item of the consulted divisions no farther from the query than any of them |
| GridIndexes.GridNearest | src/main/java/io/nanovc/indexing/grid/GridIndex1DBase.java:257-496 | `searchNearest` over the own, previous and next non-null divisions; its properties are `GridNearestNone`, `GridNearestExact` and `GridNearestIsNearest` |
| GridIndexes.GridIndex1DBase.constructor | src/main/java/io/nanovc/indexing/grid/GridIndex1DBase.java:79-99 | for a non-negative division count: the given range, count, measurer and finder, the splits from the splitter with the extra right-most split, and one empty division per count; `NewGridIndex` is the call with its exception |
| GridIndexes.NewGridIndex | src/main/java/io/nanovc/indexing/grid/GridIndex1DBase.java:79-99 | a negative division count throws `IllegalArgumentException`; otherwise a new index in the constructor's initial state |
| GridIndexes.GridIndex1DBase.GetDivisionMinRange | src/main/java/io/nanovc/indexing/grid/GridIndex1DBase.java:120-127 | the division's lower split, through the shared division-bounds rule |
| GridIndexes.GridIndex1DBase.GetDivisionMaxRange | src/main/java/io/nanovc/indexing/grid/GridIndex1DBase.java:134-144 | the division's upper split, through the shared division-bounds rule |
| GridIndexes.GridIndex1DBase.GetItemsAtDivision | src/main/java/io/nanovc/indexing/grid/GridIndex1DBase.java:197-203 | the division's list, or null when it has none |
| GridIndexes.GridIndex1DBase.GetOrCreateItemsAtDivision | src/main/java/io/nanovc/indexing/grid/GridIndex1DBase.java:212-230 | the existing list, or a new empty list stored at the division; nothing else changes |
| GridIndexes.GridIndex1DBase.AddItemToIndex | src/main/java/io/nanovc/indexing/grid/GridIndex1DBase.java:181-188 | appends the item to the division's list, creating it when missing; no other division changes |
| GridIndexes.GridIndex1DBase.Add | src/main/java/io/nanovc/indexing/grid/GridIndex1DBase.java:151-158 | appends the item to the division the range finder gives for it |
| GridIndexes.GridIndex1DBase.ClearItemsAtDivision | src/main/java/io/nanovc/indexing/grid/GridIndex1DBase.java:237-240 | removes the division's list and changes nothing else |
| GridIndexes.GridIndex1DBase.SearchNearestAtIndex | src/main/java/io/nanovc/indexing/grid/GridIndex1DBase.java:505-560 | the nearest answer of the division's list, as defined above |
| GridIndexes.GridIndex1DBase.SearchNearest | src/main/java/io/nanovc/indexing/grid/GridIndex1DBase.java:257-496 | the answer of the own, previous and next divisions with their exact-match short cuts and the tie rules above |
| GridIndexes.GridIndex1DBase.Decide | src/main/java/io/nanovc/indexing/grid/GridIndex1DBase.java:349-495 | the nested comparisons return the item of the chosen answer |
| GridIndexes.AddKeepsNoEmptyList | src/main/java/io/nanovc/indexing/grid/GridIndex1DBase.java:181-188 | adding never leaves an empty list behind |
| GridIndexes.AddStoresItem | src/main/java/io/nanovc/indexing/grid/GridIndex1DBase.java:181-188 | the grid holds the same items plus the new one |
| GridIndexes.ClearDropsSlot | src/main/java/io/nanovc/indexing/grid/GridIndex1DBase.java:237-240 | clearing a division removes exactly that division's items |
| DivisionBounds.Clamp | src/main/java/io/nanovc/indexing/grid/GridIndex1DBase.java:123 | `max(0, min(size - 1, index))`: the index itself when in range, 0 below, the last index above |
| DivisionBounds.DivisionMin | src/main/java/io/nanovc/indexing/grid/GridIndex1DBase.java:120-127 | the split at the clamped index; an empty split list throws `IndexOutOfBoundsException` |
| DivisionBounds.DivisionMax | src/main/java/io/nanovc/indexing/grid/GridIndex1DBase.java:134-144 | the lower bound of the next division, where `index + 1` wraps to `Integer.MIN_VALUE` for the largest index |
| KdSelect.SampleBounds | src/main/java/io/nanovc/indexing/kdtree/bentley1990/KDTree.java:500-506 | the sampled sub-range `[LL, RR]` stays within `[L, R]`, computed with the exact products `I * S` and `(N - I) * S` (the 32-bit version is `SampleBoundsAsWritten`, see Findings) |
| KdSelect.SampleBoundsBracket | src/main/java/io/nanovc/indexing/kdtree/bentley1990/KDTree.java:500-506 | with exact products, a non-negative sample size and a deviation that moves neither bound past `K`, the sub-range contains `K` |
| KdSelect.SampleBoundsAsWritten | src/main/java/io/nanovc/indexing/kdtree/bentley1990/KDTree.java:500-506 | the sub-range as the Java `int` arithmetic computes it, wrapping `I * S`, `(N - I) * S` and the sums at 32 bits; it stays within `[L, R]` |
| KdSelect.SampleBoundsAsWrittenMissesK | src/main/java/io/nanovc/indexing/kdtree/bentley1990/KDTree.java:500-506 | for a million points, `K` in the middle, no deviation and a sample size from 4295 to 5000, the wrapped lower bound lands past `K`, while the exact one does not |
| KdSelect.CarryAtLeast | src/main/java/io/nanovc/indexing/kdtree/bentley1990/KDTree.java:492-576 | a rearrangement inside a range keeps "every element samples at least v" |
| KdSelect.CarryAtMost | src/main/java/io/nanovc/indexing/kdtree/bentley1990/KDTree.java:492-576 | a rearrangement inside a range keeps "every element samples at most v" |
| KdSelect.CarryAttained | src/main/java/io/nanovc/indexing/kdtree/bentley1990/KDTree.java:492-576 | a rearrangement inside a range keeps some element sampling to v |
| KdSelect.PermuteInside | src/main/java/io/nanovc/indexing/kdtree/bentley1990/KDTree.java:492-576 | permuting a sub-range and fixing the rest permutes the enclosing range |
| KdSelect.Exchange | src/main/java/io/nanovc/indexing/kdtree/bentley1990/KDTree.java:517-521 | swaps the two entries and nothing else; the range is permuted |
| KdSelect.PartitionStart | src/main/java/io/nanovc/indexing/kdtree/bentley1990/KDTree.java:509-532 | takes `T` from `X[K]`, swaps it to `L` and puts the larger of `X[L]`, `X[R]` at `R`, establishing the partition invariant with the range permuted |
| KdSelect.PartitionRound | src/main/java/io/nanovc/indexing/kdtree/bentley1990/KDTree.java:534-549 | one swap and the two scans keep the partition invariant and strictly narrow `I` and `J` |
| KdSelect.Partition | src/main/java/io/nanovc/indexing/kdtree/bentley1990/KDTree.java:509-571 | after the final swap `X[J]` samples to `T`, nothing left of `J` samples above it, nothing right of it below, and the range is permuted with nothing outside it touched |
| KdSelect.RearrangeKeeps | src/main/java/io/nanovc/indexing/kdtree/bentley1990/KDTree.java:492-576 | the selection invariant survives rearranging the window still being narrowed |
| KdSelect.SplitKeeps | src/main/java/io/nanovc/indexing/kdtree/bentley1990/KDTree.java:574-575 | moving `L` past `J` or `R` before `J` keeps the selection invariant |
| KdSelect.SelectingDone | src/main/java/io/nanovc/indexing/kdtree/bentley1990/KDTree.java:492 | once the window is empty, position K splits the range: no earlier element samples above it and no later one below |
| KdSelect.Narrow | src/main/java/io/nanovc/indexing/kdtree/bentley1990/KDTree.java:494-575 | one round of the outer loop keeps the selection invariant and strictly shrinks the window |
| KdSelect.Select | src/main/java/io/nanovc/indexing/kdtree/bentley1990/KDTree.java:477-577 | `SELECT` rearranges `X[L..R]` as a permutation, leaves the rest of the array alone, and puts at K an element that no earlier element exceeds and no later element undercuts in dimension d |
| KdTrees.Identity | src/main/java/io/nanovc/indexing/kdtree/bentley1990/KDTree.java:146-150 | the identity permutation: position k holds k |
| KdTrees.CutDimension | src/main/java/io/nanovc/indexing/kdtree/bentley1990/KDTree.java:205-209 | `level % numberOfDimensions` with Java's remainder, a valid dimension for a non-negative level |
| KdTrees.BucketScan | src/main/java/io/nanovc/indexing/kdtree/bentley1990/KDTree.java:380-393 | the bucket loop never increases the best distance |
| KdTrees.Rnn | src/main/java/io/nanovc/indexing/kdtree/bentley1990/KDTree.java:378-415 | the recursive search never increases the best distance |
| KdTrees.BucketScanImproves | src/main/java/io/nanovc/indexing/kdtree/bentley1990/KDTree.java:380-393 | after the bucket loop the best distance is at most every distance in the bucket and is attained by the point it names, or nothing changed |
| KdTrees.BucketScanEarliest | src/main/java/io/nanovc/indexing/kdtree/bentley1990/KDTree.java:380-393 | when the bucket loop changes the answer, it names the first point in the bucket at that distance |
| KdTrees.ImprovesCompose | src/main/java/io/nanovc/indexing/kdtree/bentley1990/KDTree.java:401-413 | searching one half and then the other improves over the whole range |
| KdTrees.PruneHigh | src/main/java/io/nanovc/indexing/kdtree/bentley1990/KDTree.java:404-406 | the high son may be skipped when the target plus the best distance does not pass the cut value, given a distance no smaller than the coordinate gap |
| KdTrees.PruneLow | src/main/java/io/nanovc/indexing/kdtree/bentley1990/KDTree.java:410-412 | the low son may be skipped when the target minus the best distance does not fall below the cut value, under the same condition |
| KdTrees.SearchTreeBucketsWithin | src/main/java/io/nanovc/indexing/kdtree/bentley1990/KDTree.java:164-192 | every bucket of a search tree lies within the permutation |
| KdTrees.CutBelowImproves | src/main/java/io/nanovc/indexing/kdtree/bentley1990/KDTree.java:401-406 | a target below the cut: the low son then, when needed, the high son improve over the node's range |
| KdTrees.CutAboveImproves | src/main/java/io/nanovc/indexing/kdtree/bentley1990/KDTree.java:407-413 | a target at or above the cut: the high son then, when needed, the low son improve over the node's range |
| KdTrees.RnnFindsNearest | src/main/java/io/nanovc/indexing/kdtree/bentley1990/KDTree.java:378-415 | with a metric distance, the search over a search tree ends with a best distance at most every distance in the node's range |
| KdTrees.RnnBelowFindsNearest | src/main/java/io/nanovc/indexing/kdtree/bentley1990/KDTree.java:401-406 | the same for a cut node with the target below the cut |
| KdTrees.RnnAboveFindsNearest | src/main/java/io/nanovc/indexing/kdtree/bentley1990/KDTree.java:407-413 | the same for a cut node with the target at or above the cut |
| KdTrees.CoversRange | src/main/java/io/nanovc/indexing/kdtree/bentley1990/KDTree.java:144-150 | a permutation of 0..n-1 only holds numbers below n |
| KdTrees.PositionOf | src/main/java/io/nanovc/indexing/kdtree/bentley1990/KDTree.java:144-150 | each point number has a position in the permutation |
| KdTrees.RnnFindsIndexedNearest | src/main/java/io/nanovc/indexing/kdtree/bentley1990/KDTree.java:370-376 | when some point is nearer than the start distance, the search names a point no farther than any indexed point |
| KdTrees.ImprovedOverAll | src/main/java/io/nanovc/indexing/kdtree/bentley1990/KDTree.java:370-376 | improving over the whole permutation names an indexed point no farther than any other |
| KdTrees.LeastIsLinearNearest | src/main/java/io/nanovc/indexing/linear/LinearIndex1DBase.java:63-106 | a point no farther than any other is as near as the linear index's answer |
| KdTrees.NearestAgreesWithLinear | src/main/java/io/nanovc/indexing/kdtree/bentley1990/KDTree.java:349-415 | the tree's answer is at the same distance as the linear scan's answer over the indexed points |
| KdTrees.SearchTreeFrame | src/main/java/io/nanovc/indexing/kdtree/bentley1990/KDTree.java:164-192 | a subtree is unaffected by positions outside its range |
| KdTrees.SearchTreeAppend | src/main/java/io/nanovc/indexing/kdtree/bentley1990/KDTree.java:583-586 | adding points after indexing keeps the tree a search tree over the indexed points |
| KdTrees.SplitReady | src/main/java/io/nanovc/indexing/kdtree/bentley1990/KDTree.java:185-187 | after selecting the median, the cut value is the median's coordinate and splits the range |
| KdTrees.CutReadyKept | src/main/java/io/nanovc/indexing/kdtree/bentley1990/KDTree.java:188-189 | building each son, which only permutes its own half, keeps the split |
| KdTrees.CutBuilt | src/main/java/io/nanovc/indexing/kdtree/bentley1990/KDTree.java:179-190 | a cut node over built sons and a split range is built |
| KdTrees.CutMade | src/main/java/io/nanovc/indexing/kdtree/bentley1990/KDTree.java:179-190 | the node `build` makes from a selected range and two built sons is a built search tree over the final permutation |
| KdTrees.HalvesRearranged | src/main/java/io/nanovc/indexing/kdtree/bentley1990/KDTree.java:185-189 | selecting and then building both halves only permutes the node's range |
| KdTrees.Select | src/main/java/io/nanovc/indexing/kdtree/bentley1990/KDTree.java:443-446 | `select` permutes `perm[l..u]` only and puts at `m` a point that splits the range in dimension d |
| KdTrees.Build | src/main/java/io/nanovc/indexing/kdtree/bentley1990/KDTree.java:164-192 | a bucket for at most `cutoff` positions, otherwise a cut in the cycling dimension at the median; the result is a search tree over `perm[l..u]`, which is only permuted |
| KdTrees.IndexedAppend | src/main/java/io/nanovc/indexing/kdtree/bentley1990/KDTree.java:583-586 | `add` keeps the index over the points indexed before |
| KdTrees.IndexedBuilt | src/main/java/io/nanovc/indexing/kdtree/bentley1990/KDTree.java:135-154 | a built tree over a permutation of all the points is an index over them |
| KdTrees.CoordinatesPermuted | src/main/java/io/nanovc/indexing/kdtree/bentley1990/KDTree.java:164-192 | rearranging the point numbers rearranges their coordinates as a multiset |
| KdTrees.CutValueUnique | src/main/java/io/nanovc/indexing/kdtree/bentley1990/KDTree.java:164-192 | two splits of the same values into lower and upper parts of the same size, each at its cut value, have the same cut value and the same parts |
| KdTrees.BuiltOneDimensionUnique | src/main/java/io/nanovc/indexing/kdtree/bentley1990/KDTree.java:164-192 | in one dimension two built trees over segments holding the same coordinates are the same tree: same shape, cut values and bucket bounds |
| KdTrees.SameTreeEitherOrder | src/test/java/io/nanovc/indexing/kdtree/bentley1990/KDTreeTests.java:199-255 | indexing 1, 2, 3, 4 and 4, 3, 2, 1 with one point per bucket builds the same tree, cuts at 2 then 1 and 3, with the points ordered 1, 2, 3, 4 in both |
| KdTrees.KDTree.constructor | src/main/java/io/nanovc/indexing/kdtree/bentley1990/KDTree.java:103-120 | the given extractor, measurer, maximum distance and dimension count, no points, cutoff 1 and no tree |
| KdTrees.KDTree.Index | src/main/java/io/nanovc/indexing/kdtree/bentley1990/KDTree.java:135-154 | stores the points and fills `perm` with the identity; with more points than `cutoff`, no dimensions throw `ArithmeticException`, a cutoff below 1 recurses without end (an empty list with a negative cutoff throws `IndexOutOfBoundsException`); otherwise the built tree covers all the points and the root is replaced only on success |
| KdTrees.KDTree.IndexAdded | src/main/java/io/nanovc/indexing/kdtree/bentley1990/KDTree.java:125-128 | indexes the points added so far, with the same failures as `index` |
| KdTrees.KDTree.X | src/main/java/io/nanovc/indexing/kdtree/bentley1990/KDTree.java:230-233 | `x(i, j)`: coordinate j of point number i through the extractor; a number outside the list throws `IndexOutOfBoundsException` |
| KdTrees.KDTree.Px | src/main/java/io/nanovc/indexing/kdtree/bentley1990/KDTree.java:218-221 | `px(i, j)`: coordinate j of the point at position i of `perm`; a position outside `perm`, or a number there outside the list, throws an index-out-of-bounds exception |
| KdTrees.NewIdentity | src/main/java/io/nanovc/indexing/kdtree/bentley1990/KDTree.java:146-150 | a new array holding `0, 1, ..., n - 1` |
| KdTrees.KDTree.RnnWithExternalTarget | src/main/java/io/nanovc/indexing/kdtree/bentley1990/KDTree.java:378-415 | leaves in the fields exactly what the recursive search definition gives |
| KdTrees.KDTree.NnWithExternalTarget | src/main/java/io/nanovc/indexing/kdtree/bentley1990/KDTree.java:370-376 | sets the target, starts from the maximum distance and the previous point number, and returns the point number the search gives |
| KdTrees.KDTree.SearchNearest | src/main/java/io/nanovc/indexing/kdtree/bentley1990/KDTree.java:349-353 | no tree throws `NullPointerException`; otherwise the point the search names, at the same distance as the linear scan's answer when some point is nearer than the maximum distance |
| KdTrees.KDTree.Add | src/main/java/io/nanovc/indexing/kdtree/bentley1990/KDTree.java:583-586 | appends the item to the points and keeps an existing index valid |
| RepoIndexes1D.SlotAt | src/main/java/io/nanovc/indexing/repo/RepoIndex1DBase.java:751-757 | the division's list when the map holds one, null otherwise |
| RepoIndexes1D.SubGridAt | src/main/java/io/nanovc/indexing/repo/RepoIndex1DBase.java:671-674 | the division's sub-grid exactly when one was created |
| RepoIndexes1D.Held | src/main/java/io/nanovc/indexing/repo/RepoIndex1DBase.java:612-662 | a division holds its sub-grid's items and its local items |
| RepoIndexes1D.Measured | src/main/java/io/nanovc/indexing/repo/RepoIndex1DBase.java:892-903 | no item gives null; an item equal to the query carries no distance; any other item carries `measure(query, item)` |
| RepoIndexes1D.AddKeepsItems | src/main/java/io/nanovc/indexing/repo/RepoIndex1DBase.java:612-662 | a successful `addItemToIndex` leaves the division holding what it held plus the item; a failing one changes nothing |
| RepoIndexes1D.AddLeavesOthers | src/main/java/io/nanovc/indexing/repo/RepoIndex1DBase.java:612-662 | `addItemToIndex` changes no other division's list or sub-grid |
| RepoIndexes1D.RepoIndex1DBase.constructor | src/main/java/io/nanovc/indexing/repo/RepoIndex1DBase.java:161-202 | for a non-negative division count: the given range, count, measurer and thresholds, the splits with the extra right-most split, and no lists or sub-grids; `NewRepoIndex1D` is the call with its exception |
| RepoIndexes1D.NewRepoIndex1D | src/main/java/io/nanovc/indexing/repo/RepoIndex1DBase.java:161-202 | a negative division count throws `IllegalArgumentException`; otherwise a new index in the constructor's initial state |
| RepoIndexes1D.RepoIndex1DBase.GetItemsAtDivision | src/main/java/io/nanovc/indexing/repo/RepoIndex1DBase.java:751-757 | the division's list, or null |
| RepoIndexes1D.RepoIndex1DBase.GetSubGridAtDivision | src/main/java/io/nanovc/indexing/repo/RepoIndex1DBase.java:671-674 | the division's sub-grid, or null |
| RepoIndexes1D.RepoIndex1DBase.CanSplit | src/main/java/io/nanovc/indexing/repo/RepoIndex1DBase.java:690-696 | a sub-grid may be made iff the distance between the clamped division bounds exceeds `smallestSplittingDistance`; an empty split list throws |
| RepoIndexes1D.RepoIndex1DBase.GetOrCreateItemsAtDivision | src/main/java/io/nanovc/indexing/repo/RepoIndex1DBase.java:766-784 | the existing list, or a new empty one stored at the division; nothing else changes |
| RepoIndexes1D.RepoIndex1DBase.ClearItemsAtDivision | src/main/java/io/nanovc/indexing/repo/RepoIndex1DBase.java:791-811 | removes the division's list; with no list there it throws `NullPointerException` and changes nothing |
| RepoIndexes1D.RepoIndex1DBase.AddItemToIndexLocal | src/main/java/io/nanovc/indexing/repo/RepoIndex1DBase.java:544-563 | appends the item to the division's list, creating it when missing, and registers the item in the global item map |
| RepoIndexes1D.RepoIndex1DBase.GetOrCreateSubGridAtDivision | src/main/java/io/nanovc/indexing/repo/RepoIndex1DBase.java:685-742 | an existing sub-grid is returned; a division too narrow gives null and changes nothing; otherwise a sub-grid receives the division's items and the local list is removed, and a division without a list throws after the sub-grid is registered |
| RepoIndexes1D.RepoIndex1DBase.AddItemToIndex | src/main/java/io/nanovc/indexing/repo/RepoIndex1DBase.java:612-662 | to the sub-grid when one exists, locally below the threshold, and at the threshold into a new sub-grid when one can be made, otherwise still locally; a local add registers a new item in the shared item map, a sub-grid add leaves the map as it was |
| RepoIndexes1D.AddsLocally | src/main/java/io/nanovc/indexing/repo/RepoIndex1DBase.java:612-662 | the add ends locally exactly when there is no sub-grid and the list is absent, below the threshold, or the division is too narrow to split |
| RepoIndexes1D.RepoIndex1DBase.SearchNearestAtIndexLocal | src/main/java/io/nanovc/indexing/repo/RepoIndex1DBase.java:820-875 | the nearest answer of the division's local list: exact match, first nearest with its distance, or null |
| RepoIndexes1D.RepoIndex1DBase.SearchNearestAtIndex | src/main/java/io/nanovc/indexing/repo/RepoIndex1DBase.java:884-930 | a division with a sub-grid answers with the sub-grid's item measured from the query; otherwise the local answer |
| RepoIndexesKD.ContentPathNameUnits | src/main/java/io/nanovc/indexing/repo/RepoIndexKDBase.java:38 | the content name is the emoji U+1F4C4, one surrogate pair in UTF-16, and so starts with an emoji |
| RepoIndexesKD.ContentItems | src/main/java/io/nanovc/indexing/repo/RepoIndexKDBase.java:975-1017 | the items read from the area are at most its entries |
| RepoIndexesKD.ItemOf | src/main/java/io/nanovc/indexing/repo/RepoIndexKDBase.java:981-989 | an entry yields at most one item |
| RepoIndexesKD.ContentItemsMembers | src/main/java/io/nanovc/indexing/repo/RepoIndexKDBase.java:975-1017 | an item is read from the area iff some entry whose path ends with the content name holds it |
| RepoIndexesKD.IndexItemsHas | src/main/java/io/nanovc/indexing/repo/RepoIndexKDBase.java:1049-1095 | every item of every division's area is among the items of the whole index |
| RepoIndexesKD.ScanNearest | src/main/java/io/nanovc/indexing/repo/RepoIndexKDBase.java:968-1034 | nothing for no items; an item equal to the query is an exact match without a distance; otherwise a scanned item no farther than any other, carrying its distance, and the first such one |
| RepoIndexesKD.BestSoFarStep | src/main/java/io/nanovc/indexing/repo/RepoIndexKDBase.java:1005-1015 | one more item replaces the best so far exactly when it is strictly nearer, and the scan invariant holds after it |
| RepoIndexesKD.BestSoFarIsScan | src/main/java/io/nanovc/indexing/repo/RepoIndexKDBase.java:1020-1033 | without an exact match the best so far at the end is the scan's answer |
| RepoIndexesKD.Find | src/main/java/io/nanovc/indexing/repo/RepoIndexKDBase.java:1180-1183 | a division with the index when one exists, and then the one stored |
| RepoIndexesKD.Lower | src/main/java/io/nanovc/indexing/repo/RepoIndexKDBase.java:1214-1219 | `lowerEntry`: none iff no stored index is below; otherwise the stored division with the greatest index below |
| RepoIndexesKD.Higher | src/main/java/io/nanovc/indexing/repo/RepoIndexKDBase.java:1227-1232 | `higherEntry`: none iff no stored index is above; otherwise the stored division with the least index above |
| RepoIndexesKD.Insert | src/main/java/io/nanovc/indexing/repo/RepoIndexKDBase.java:1191-1205 | inserting a division with a new index keeps the map sorted and adds exactly that division |
| RepoIndexesKD.FirstExact | src/main/java/io/nanovc/indexing/repo/RepoIndexKDBase.java:840-856 | the position of the first exact answer, with none before it, or the count when there is none |
| RepoIndexesKD.Answered | src/main/java/io/nanovc/indexing/repo/RepoIndexKDBase.java:840-867 | the answers that were given, in order |
| RepoIndexesKD.AnswerDistances | src/main/java/io/nanovc/indexing/repo/RepoIndexKDBase.java:858 | one distance per answer |
| RepoIndexesKD.MergeAnswersNone | src/main/java/io/nanovc/indexing/repo/RepoIndexKDBase.java:830-871 | the merged answer is null iff no division answered |
| RepoIndexesKD.AnsweredHas | src/main/java/io/nanovc/indexing/repo/RepoIndexKDBase.java:846-866 | every answer given is among the answers collected |
| RepoIndexesKD.AnsweredEmpty | src/main/java/io/nanovc/indexing/repo/RepoIndexKDBase.java:830-834 | with no answers nothing is collected |
| RepoIndexesKD.MergeAnswersLeast | src/main/java/io/nanovc/indexing/repo/RepoIndexKDBase.java:840-871 | without exact answers the merged item is an answer of least distance, and every earlier answer is strictly farther |
| RepoIndexesKD.FirstLeastAnswer | src/main/java/io/nanovc/indexing/repo/RepoIndexKDBase.java:858-865 | the position of the first least answer, which no answer undercuts and every earlier answer strictly exceeds |
| RepoIndexesKD.RepoIndexKDBase.constructor | src/main/java/io/nanovc/indexing/repo/RepoIndexKDBase.java:154-186 | for a non-negative division count: the given range, count, measurer and finder, the splits with the extra right-most split, and no divisions; `NewRepoIndexKD` is the call with its exception |
| RepoIndexesKD.NewRepoIndexKD | src/main/java/io/nanovc/indexing/repo/RepoIndexKDBase.java:154-186 | a negative division count throws `IllegalArgumentException`; otherwise a new index in the constructor's initial state |
| RepoIndexesKD.RepoIndexKDBase.GetDivisionMinRange | src/main/java/io/nanovc/indexing/repo/RepoIndexKDBase.java:208-216 | the division's lower split, through the shared division-bounds rule |
| RepoIndexesKD.RepoIndexKDBase.GetDivisionMaxRange | src/main/java/io/nanovc/indexing/repo/RepoIndexKDBase.java:223-233 | the division's upper split, through the shared division-bounds rule |
| RepoIndexesKD.RepoIndexKDBase.GetDivision | src/main/java/io/nanovc/indexing/repo/RepoIndexKDBase.java:1180-1183 | none iff no division has the index; otherwise the stored division with it |
| RepoIndexesKD.RepoIndexKDBase.GetOrCreateDivision | src/main/java/io/nanovc/indexing/repo/RepoIndexKDBase.java:1191-1205 | an existing division is returned unchanged; otherwise a new division with the clamped bounds and an empty area is added, keeping the map sorted; an empty split list throws |
| RepoIndexesKD.RepoIndexKDBase.GetNearestLowerDivision | src/main/java/io/nanovc/indexing/repo/RepoIndexKDBase.java:1214-1219 | the stored division with the greatest index below, or null |
| RepoIndexesKD.RepoIndexKDBase.GetNearestHigherDivision | src/main/java/io/nanovc/indexing/repo/RepoIndexKDBase.java:1227-1232 | the stored division with the least index above, or null |
| RepoIndexesKD.RepoIndexKDBase.DivisionsToSearch | src/main/java/io/nanovc/indexing/repo/RepoIndexKDBase.java:813-826 | at most three divisions, none iff no division exists, the own division first when it exists |
| RepoIndexesKD.RepoIndexKDBase.Answers | src/main/java/io/nanovc/indexing/repo/RepoIndexKDBase.java:840-843 | each division's answer from `searchNearestInDivision`, in order |
| RepoIndexesKD.RepoIndexKDBase.SearchNearest | src/main/java/io/nanovc/indexing/repo/RepoIndexKDBase.java:800-872 | the merge of the answers of the own, lower and higher divisions: the first exact match, else the first answer of least distance, else null |
| RepoIndexesKD.RepoIndexKDBase.SearchDivisionWithFullScan | src/main/java/io/nanovc/indexing/repo/RepoIndexKDBase.java:968-1034 | the full-scan answer over the items of the division's area |
| RepoIndexesKD.RepoIndexKDBase.SearchIndexWithFullScan | src/main/java/io/nanovc/indexing/repo/RepoIndexKDBase.java:1042-1112 | the full-scan answer over the items of every division, in index order |
| RepoIndexesKD.FindUnique | src/main/java/io/nanovc/indexing/repo/RepoIndexKDBase.java:70 | in the sorted map a stored division is the one found under its index |
| RepoIndexesKD.ScanMeasured | src/main/java/io/nanovc/indexing/repo/RepoIndexKDBase.java:981-1015 | an item entry that is not the query updates the best so far as the scan does |
| RepoIndexesKD.ScanSkipped | src/main/java/io/nanovc/indexing/repo/RepoIndexKDBase.java:981 | an entry whose path does not end with the content name changes nothing |
| RepoIndexesKD.MergeStep | src/main/java/io/nanovc/indexing/repo/RepoIndexKDBase.java:843-866 | one more division's answer: an exact one ends the merge, none changes nothing, a strictly nearer one takes over |
| RepoIndexesKD.MergeDone | src/main/java/io/nanovc/indexing/repo/RepoIndexKDBase.java:871 | after all answers the best so far is the merged answer |
| NumberSuffixFormat.SymbolsFor | analysis/performance/formatters/number_suffix_format.py:38-63 | nine symbols starting with the empty one; the thousand symbol is `k` for `si` and `K` for every other unit name |
| NumberSuffixFormat.BaseFor | analysis/performance/formatters/number_suffix_format.py:38-52 | the base is 1000 exactly for `si` and 1024 otherwise |
| NumberSuffixFormat.PowGrows | analysis/performance/formatters/number_suffix_format.py:65-67 | powers of a base of at least 2 are positive and strictly increasing in the exponent |
| NumberSuffixFormat.Powers | analysis/performance/formatters/number_suffix_format.py:65-67 | `float(base) ** [1..n]`: entry i is the (i + 1)-th float64 threshold |
| NumberSuffixFormat.Threshold | analysis/performance/formatters/number_suffix_format.py:65-67 | `float(base) ** k`: the power itself, except `1000 ** 8` and `1000 ** 9`, which are their nearest float64 values |
| NumberSuffixFormat.ThresholdsNearest | analysis/performance/formatters/number_suffix_format.py:65-67 | each threshold is the float64 value nearest the exact power, and equals it exactly for every binary power and for decimal powers up to 7 |
| NumberSuffixFormat.ThresholdsGrow | analysis/performance/formatters/number_suffix_format.py:65-67 | for either unit system the thresholds are positive and strictly increase |
| NumberSuffixFormat.PowersIncrease | analysis/performance/formatters/number_suffix_format.py:65-67 | the powers are positive and sorted |
| NumberSuffixFormat.BisectRight | analysis/performance/formatters/number_suffix_format.py:74 | `bisect_right` on a sorted list: every entry before the result is at most the value and the entry at it, if any, is above |
| NumberSuffixFormat.BisectCounts | analysis/performance/formatters/number_suffix_format.py:74 | on a sorted list `bisect_right` counts the entries at most the value |
| NumberSuffixFormat.BisectMonotone | analysis/performance/formatters/number_suffix_format.py:74 | `bisect_right` does not decrease as the value grows |
| NumberSuffixFormat.Create | analysis/performance/formatters/number_suffix_format.py:32-68 | a symbol that is neither `auto` nor one of the unit's symbols raises `ValueError`; otherwise a formatter keeping the arguments with the unit's base, symbols and powers |
| NumberSuffixFormat.DefaultFormatter | analysis/performance/formatters/number_suffix_format.py:32 | the defaults (`auto`, `si`, `{:.0f} `, no suffix) are accepted and give base 1000 |
| NumberSuffixFormat.IndexOf | analysis/performance/formatters/number_suffix_format.py:77 | `match` finds the first position of the symbol |
| NumberSuffixFormat.Labels | analysis/performance/formatters/number_suffix_format.py:70-85 | one label per value; failure is only an `IndexError` |
| NumberSuffixFormat.SymbolOf | analysis/performance/formatters/number_suffix_format.py:73-78 | a fixed symbol is used for every value |
| NumberSuffixFormat.AutoMagnitude | analysis/performance/formatters/number_suffix_format.py:73-75 | with `auto`, a value in `[float(base) ** k, float(base) ** (k + 1))` gets magnitude k and the k-th symbol |
| NumberSuffixFormat.Magnitude | analysis/performance/formatters/number_suffix_format.py:73-78 | a fixed symbol gives its position in the symbol list; `auto` gives a bisection point, below the threshold at it |
| NumberSuffixFormat.ExampleSymbolsRounded | analysis/performance/formatters/number_suffix_format.py:73-75 | with `si`, `10 ** 24 - 1` already gets magnitude 8, and `10 ** 27` still gets `Y` rather than an `IndexError`, because of the rounded thresholds |
| NumberSuffixFormat.ExampleSymbolsSi | analysis/performance/formatters/number_suffix_format.py:25-29 | with `si` units, 1000, 1000000 and 400000 get `k`, `M` and `k` |
| NumberSuffixFormat.ExampleSymbolsBinary | analysis/performance/formatters/number_suffix_format.py:25-27 | with binary units, 1000, 1000000 and 400000 get no symbol, `K` and `K` |
| NumberSuffixFormat.AutoMagnitudeMonotone | analysis/performance/formatters/number_suffix_format.py:74 | larger values never get a smaller magnitude, and values up to 0 get magnitude 0 |
| NumberSuffixFormat.LabelsFail | analysis/performance/formatters/number_suffix_format.py:74-75 | labelling fails exactly when the symbol is `auto` and some value reaches `float(base) ** 9`, one past the last symbol |
| NumberSuffixFormat.LabelsEndWith | analysis/performance/formatters/number_suffix_format.py:83-84 | each label ends with its symbol followed by the suffix |
| JavaLang.Wrap32 | src/main/java/io/nanovc/indexing/repo/arithmetic/IntegerArithmetic.java:16-19 | a 32-bit `int` congruent to the exact result modulo 2^32, equal to it when it fits |
| JavaLang.TruncDiv | src/main/java/io/nanovc/indexing/repo/arithmetic/IntegerArithmetic.java:55-58 | Java `/`: the magnitude is the quotient of the magnitudes, with a negative sign exactly when the operands differ in sign |
| JavaLang.TruncRem | src/main/java/io/nanovc/indexing/kdtree/bentley1990/KDTree.java:203-209 | Java `%`: smaller than the divisor in magnitude and with the sign of the dividend |
| JavaLang.IntToString | src/main/java/io/nanovc/indexing/repo/DivisionCoord.java:34-39 | `Integer.toString`: never empty, and starts with `-` exactly for a negative number |
| JavaLang.JoinCommaSpaceInjective | src/main/java/io/nanovc/indexing/repo/DivisionCoord.java:34-39 | joining non-empty comma-free parts with `, ` loses nothing: equal joins come from equal parts |
| JavaLang.Utf16 | src/main/java/io/nanovc/indexing/repo/RepoIndexKDBase.java:38 | the UTF-16 code units Java stores for a literal, one or two per character |
| JavaLang.CompareTo | src/main/java/io/nanovc/indexing/repo/arithmetic/StringArithmetic.java:23-26 | `String.compareTo`: zero exactly on equal strings |

## Left out

- `RepoPathTrees.RepoPathNode.GetChildrenByName`: the children map is a `TreeMap` ordered by `String.compareTo` (`RepoPathNode.java` line 123). The model keeps it as an unordered `map`, so the key order is not stated; no modelled operation iterates the map.
- `KdTrees.KDTree.SearchNearest`: the `distanceAdder` and `distanceSubtractor` of the constructor (`KDTree.java` lines 79-117) are fixed to exact integer `+` and `-`, and the `distanceComparator` to the integer order. The 32-bit wrap of an `Integer::sum` adder is not modelled: with it, `thisx + nndist` can wrap negative and skip a son that holds the nearest point (for example `thisx` = 2000000000, `nndist` = 200000000 and a cut at 2000000001). `NearestAgreesWithLinear` is proved for the exact adder only.
- `KdTrees.KDTree.NnWithExternalTarget`: uses the same exact adder and subtractor as `SearchNearest`.
- `KdTrees.KDTree.RnnWithExternalTarget`: its pruning tests (`KDTree.java` lines 404 and 411) use exact `+` and `-` instead of the configured operators.
- `KdTrees.Rnn`: the recursive search definition uses exact `+` and `-` in its pruning tests, as above.
- `KdTrees.KDTree.Index`: a cutoff below 1 makes `build` recurse without end in the Java code; the model reports this as a `StackOverflow` failure instead of running out of stack. After that failure the order `perm` was left in is not stated.
- `KdTrees.KDTree.Index`: `index` keeps the caller's list by reference and `add` appends to that same list (`KDTree.java` lines 138 and 585). The model copies the list into a value sequence, so aliasing between the caller's list and the tree is not modelled.
- `RepoIndexes1D.RepoIndex1DBase.AddItemToIndex`: when the item goes to a sub-grid, the sub-grid's own registration in the shared item map is not modelled; the map is left as it was.
- The division-count check of the three index constructors (`GridIndex1DBase.java` line 90, `RepoIndex1DBase.java` line 191, `RepoIndexKDBase.java` line 184) is modelled by the factory methods `NewGridIndex`, `NewRepoIndex1D` and `NewRepoIndexKD`, because a Dafny constructor cannot fail. The constructors themselves take a non-negative count.
- `DoubleArithmetic` and the floating-point distance functions: floating point is not modelled. Distances and coordinates are integers.
- `KdSelect.Select`: uses the exact-product `SampleBounds`, not the 32-bit wrap-around of `I * S` that the Java code performs (see Findings). It models the sampling branch of `SELECT` (more than 600 entries) abstractly. The branch computes its sample size and deviation with `Math.log`, `exp` and `sqrt`. Here they are the `sampleSize`/`sampleDeviation` parameters, required only to give a shorter sub-interval of `[L, R]` that contains `K`.
- `NumberSuffixFormat.Labels`: the scaled value's `{:.0f}` rendering and numpy's floating-point division are a `render` parameter. Values are integers, compared exactly with the float64 thresholds; a value that is not itself a float64 is not rounded before the comparison.
- The formatter's docstring example shows binary units, but the code defaults to `units="si"` and `suffix=""`. The model follows the code (`ExampleSymbolsSi`, `ExampleSymbolsBinary`).
- The nanovc repository API is not part of this model:
  - a content area is a sequence of path/content entries;
  - a `RepoPath` is a sequence of segments;
  - path parsing (`Scanner`, `toAbsolutePath`) is not modelled.
- `RepoIndex1DBase.add`/`searchNearest` and `RepoIndexKDBase`'s byte-trie `addItemToDivisionTrieApproach`/`searchNearestInDivision` are left out. They are built on that API and on `RepoPathTree` methods that `RepoPathTree.java` does not declare. The per-division search of `searchNearest` is a parameter.
- A sub-grid of the repo-backed one-dimensional index is the sequence of items handed to it. Its own `add`/`searchNearest` is that library's grid, and its search is a parameter.
- `RepoIndexesKD.RepoIndexKDBase.GetOrCreateDivision`: the new division's path tree and content area are not modelled. The area starts empty.
- `RepoIndexKDBase.addItemToKDNode` and `getOrCreateDivisionCell(Recursively)` are left out. They use node fields that the node classes do not declare, and `RangeCalculator.midPoint`, which `RangeCalculator.java` does not declare.
- `Dimension.getRangeMidPoint` (`Dimension.java` lines 143-146) is left out: it only delegates to `RangeCalculator.midPoint`, which `RangeCalculator.java` does not declare.
- The records `MinInclusiveRange`, `MinExclusiveMaxInclusiveRange`, `MinExclusiveMaxExclusiveRange` and `UnBoundedRange` do not declare the `inverse()` that `Range` requires, so there is no inverse of theirs to model. Those variants are modelled for membership only.
- `IntegerArithmetic` does not implement `compare`, `midPoint`, `scaleByMultiplier`, `scaleByDivisor` or `quantize`, which `Arithmetic` declares abstract, so they are not modelled for the integer strategy.
- The `instance()` singletons of the arithmetic strategies are left out: each strategy is a stateless module, so there is no object identity to model.
- `KDTree.searchNearest(int pointIndex)` and `nn(int)` are not modelled. The search for an external item, which `searchNearest(item)` uses, is modelled.
- The box-drawing `toString` renderings of the indexes and the k-d tree are left out. So is the default `Object.toString` fallback of `HyperCube.toString` when its definition or ranges are null.
- `RepoIndexKDBase`'s `numberOfDimensions`, `extractor` and `hyperCubeDefinition` fields are left out. Only the trie and k-d cell code, which is not modelled, reads them.
- The `divisionsByIndex` `TreeMap` of `RepoIndexKDBase` is a sequence sorted by key. A `HashMap` is a Dafny `map`, and so is the children map of a `RepoPathNode` (see `RepoPathTrees.RepoPathNode.GetChildrenByName` above).
- `null` arguments are not modelled, except where a comparator or a search throws on them. A `null` result is an `Option`.
- The `AtomicInteger` key counter of `ItemGlobalMap` is a plain integer field. There is no concurrency.
- `bisect_right` is a linear scan here. `BisectCounts` shows it gives the same index as a count of the thresholds at or below the value.
- The `(l + u) / 2` midpoint of the k-d tree build is computed on unbounded integers. Its 32-bit overflow, which would need more than a billion points, is not modelled.
- Plain getters that only return a field are left out; the fields are readable directly.
- Interfaces, thin subclasses and data holders with no logic are left out. This includes the `*Implementation` subclasses, the hierarchical grids, `PluggableArithmetic`, `Division*` and `KD*Node` holders, and `MeasuredItem`.
- The test and performance-test classes and the CSV loading script are left out.

## Findings

| source | as written | input that shows it | evidently intended | confidence | as-written member | corrected member |
|---|---|---|---|---|---|---|
| src/main/java/io/nanovc/indexing/kdtree/bentley1990/KDTree.java:505-506 | `I * S / N` and `(N - I) * S / N` are computed in 32-bit `int`, so the products wrap | N = 1000000, K = 499999 (the middle), S from 4295 to 5000, SD = 0: `I * S` is above `Integer.MAX_VALUE`, wraps negative, and `LL` lands past `K` | the exact products, giving a sub-range that contains `K` | not executed | KdSelect.SampleBoundsAsWrittenMissesK | KdSelect.SampleBoundsBracket |
