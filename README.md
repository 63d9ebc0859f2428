# FoamFix hashing strategies, modelled in Dafny

FoamFix deduplicates model data in Trove hash containers. To do that it plugs in
equality-and-hash strategies that compare by structure instead of by reference.
`HashingStrategies` holds those strategies as stateless singletons:

- `BYTE_ARRAY`, `INT_ARRAY` and `FLOAT_ARRAY` delegate to `java.util.Arrays.hashCode`
  and `Arrays.equals`.
- `FLOAT_ARRAY_ARRAY` folds the row hashes of a `float[][]` and compares it row by row.
- `ITEM_TRANSFORM_VEC3F` hashes the three vectors of an item transform (rotation,
  scale, translation). `ITEM_CAMERA_TRANSFORMS` hashes the eight transform slots of a
  set of camera transforms. Both walk through `ImmutableSet.of(...)`.

The model uses these Java semantics:

- A Java `int` is an `Int32`. Each `*` and `+` wraps around modulo 2^32 (`Wrap`,
  `Mul32`, `Add32`).
- A `byte` is an `Int8`.
- A `float` is its raw IEEE 754 bit pattern. `FloatToIntBits` collapses every NaN to
  `0x7fc00000`, as `Float.floatToIntBits` does. No floating-point arithmetic is needed.
- A reference that may be `null` is a `Nullable<T>` (`Null` or `NonNull(value)`).
- Arrays are values (`seq`), because no strategy writes to them.

Modules:

- `JavaTypes` (java_types.dfy): the Java primitives above.
- `PolynomialHash` (polynomial_hash.dfy): the documented `Arrays.hashCode` fold
  `acc = 31 * acc + e`. Its closed form `31^n + e0*31^(n-1) + ... + e(n-1)` is proved,
  reduced to a Java `int`.
- `ArrayStrategies` (array_strategies.dfy): the four array strategies.
  - The flat ones are functions. `BYTE_ARRAY` and `INT_ARRAY` share one pair,
    `ArraysHashCode` and `ArraysEquals`; a `byte[]` enters it sign-extended (`Promote`).
  - `FLOAT_ARRAY_ARRAY`'s two loops are methods, proved against the specification
    functions `MatrixHash` and `MatrixEquals`.
- `ImmutableSets` (immutable_sets.dfy): the iteration order of `ImmutableSet.of`.
  Elements come in argument order, and an element equal to an earlier one is dropped.
- `TransformStrategies` (transform_strategies.dfy): the two transform strategies.
  - The hash loops are methods, proved against `TransformHash` and `CameraHash`.
  - The shared inner loop is the method `HashVectors`.

Each hash is paired with its equality by a consistency lemma: equal values hash
alike. Each hash is also tied to the polynomial closed form.

### Behaviour of the code worth knowing

- **Null second argument.** `FloatArrayArray.equals` (line 157) and
  `ItemCameraTransformsStrategy.equals` (line 67) dereference `o2` once `o1` is
  non-null. A non-null `o1` with a null `o2` therefore throws
  `NullPointerException` instead of returning false. The model requires `o2` to be
  non-null whenever `o1` is.
- **Slots visited by the camera hash.** The camera hash (lines 53-55) folds only the
  *distinct* slots, because `ImmutableSet.of` drops repeats. Likewise only the
  distinct vectors of each transform are folded. The iteration order is still
  deterministic, because `ImmutableSet.of` keeps the order of first occurrence.
  `CameraHashOfDistinctSlots`, `TransformHashOfEqualVectors` and
  `CameraHashOfUniformSlots` show the effect.
- **NaN payloads.** `Float.floatToIntBits` collapses NaNs of every payload to one
  pattern. NaNs with different payloads therefore compare equal and hash alike
  (`FloatToIntBitsCanonical`, `FloatArrayNaNPayloads`).

## Model

All source paths are under `src/main/java/pl/asie/foamfix/util/`; the table gives them in full.

| member | source | states |
|---|---|---|
| JavaTypes.Wrap | src/main/java/pl/asie/foamfix/util/HashingStrategies.java:147 | a Java `int` result is the exact value when it fits and otherwise differs from it by a multiple of 2^32 |
| JavaTypes.FloatToIntBits | src/main/java/pl/asie/foamfix/util/HashingStrategies.java:57 | `floatToIntBits` yields a NaN pattern exactly when its argument is NaN |
| JavaTypes.FloatToIntBitsCanonical | src/main/java/pl/asie/foamfix/util/HashingStrategies.java:83 | two floats get the same `floatToIntBits` iff their raw bits are equal or both are NaN; the result is a fixed point |
| PolynomialHash.HashStepWrap | src/main/java/pl/asie/foamfix/util/HashingStrategies.java:147 | wrapping after the `*31` and after the `+e`, as Java does, equals wrapping `31*acc + e` once |
| PolynomialHash.PolyHashClosedForm | src/main/java/pl/asie/foamfix/util/HashingStrategies.java:108-110 | the fold from `acc` over `s` equals `acc*31^n + s[0]*31^(n-1) + ... + s[n-1]` reduced to an `int` |
| PolynomialHash.PolyHashAppend | src/main/java/pl/asie/foamfix/util/HashingStrategies.java:53-59 | folding a concatenation continues the fold of the first part with the second |
| ArrayStrategies.ArraysHashCode | src/main/java/pl/asie/foamfix/util/HashingStrategies.java:106-128 | `Arrays.hashCode` as BYTE_ARRAY and INT_ARRAY call it (lines 109, 121): a null array hashes to 0; otherwise the hash is `31^n + Σ a[i]*31^(n-1-i)` mod 2^32 |
| ArrayStrategies.ArraysEquals | src/main/java/pl/asie/foamfix/util/HashingStrategies.java:106-128 | `Arrays.equals` as BYTE_ARRAY and INT_ARRAY call it (lines 114, 126): true iff both are null, or both are non-null with equal length and equal elements at every index |
| ArrayStrategies.ArraysHashConsistent | src/main/java/pl/asie/foamfix/util/HashingStrategies.java:106-128 | equal byte or int arrays have equal hashes |
| ArrayStrategies.ByteArrayEqualsBytewise | src/main/java/pl/asie/foamfix/util/HashingStrategies.java:112-115 | BYTE_ARRAY equality holds iff both are null, or both are non-null with equal length and equal bytes at every index |
| ArrayStrategies.ByteArraySignExtended | src/main/java/pl/asie/foamfix/util/HashingStrategies.java:108-110 | bytes enter the hash signed: `[-1]` hashes to 30, `[-128, 127]` to `31*31 - 128*31 + 127` |
| ArrayStrategies.IntArrayOrderSensitive | src/main/java/pl/asie/foamfix/util/HashingStrategies.java:120-127 | `[1,2]` and `[2,1]` are unequal and hash to 994 and 1024 |
| ArrayStrategies.FloatArrayHashCode | src/main/java/pl/asie/foamfix/util/HashingStrategies.java:132-134 | a null array hashes to 0; otherwise the hash is the closed-form polynomial over the elements' `floatToIntBits` |
| ArrayStrategies.FloatArrayEquals | src/main/java/pl/asie/foamfix/util/HashingStrategies.java:137-139 | true iff both are null, or both are non-null with equal length and equal `floatToIntBits` at every index |
| ArrayStrategies.FloatArrayHashConsistent | src/main/java/pl/asie/foamfix/util/HashingStrategies.java:130-140 | equal float arrays have equal hashes |
| ArrayStrategies.FloatArrayEqualsEquivalence | src/main/java/pl/asie/foamfix/util/HashingStrategies.java:137-139 | float-array equality is reflexive (NaN elements included), symmetric and transitive |
| ArrayStrategies.FloatArrayNaNPayloads | src/main/java/pl/asie/foamfix/util/HashingStrategies.java:130-140 | arrays that differ only in NaN payloads are equal and hash alike |
| ArrayStrategies.FloatArrayArrayHashCode | src/main/java/pl/asie/foamfix/util/HashingStrategies.java:144-150 | for a non-null outer array: the fold from 1 of `hash*31 + Arrays.hashCode(row)` over the rows in order (a null row adds 0), and its closed form |
| ArrayStrategies.FloatArrayArrayEquals | src/main/java/pl/asie/foamfix/util/HashingStrategies.java:153-167 | a null `o1` equals only null; otherwise (with `o2` non-null) true iff the lengths agree and every row pair is `Arrays.equals` |
| ArrayStrategies.FloatArrayArrayHashConsistent | src/main/java/pl/asie/foamfix/util/HashingStrategies.java:142-168 | equal non-null matrices have equal hashes |
| ArrayStrategies.MatrixEqualsReflexive | src/main/java/pl/asie/foamfix/util/HashingStrategies.java:153-167 | every matrix, null or not, NaNs included, equals itself |
| ImmutableSets.Distinct | src/main/java/pl/asie/foamfix/util/HashingStrategies.java:82 | the elements iterated by `ImmutableSet.of` are pairwise different, each is an argument, and every argument is among them |
| ImmutableSets.DistinctOrder | src/main/java/pl/asie/foamfix/util/HashingStrategies.java:82 | they come in the order of their first occurrence among the arguments |
| ImmutableSets.DistinctOfNoDuplicates | src/main/java/pl/asie/foamfix/util/HashingStrategies.java:53-55 | with pairwise different arguments, every argument is iterated in argument order |
| ImmutableSets.DistinctOfRepeated | src/main/java/pl/asie/foamfix/util/HashingStrategies.java:53-55 | one value repeated any number of times is iterated once |
| TransformStrategies.FoldVectorsIsPolyHash | src/main/java/pl/asie/foamfix/util/HashingStrategies.java:83 | the per-vector step `((h*31+x)*31+y)*31+z`, folded over vectors, is the polynomial hash of their components |
| TransformStrategies.HashVectors | src/main/java/pl/asie/foamfix/util/HashingStrategies.java:82-84 | the inner loop computes the vector fold from its start value, which is the polynomial hash of the components |
| TransformStrategies.TransformVecHashCode | src/main/java/pl/asie/foamfix/util/HashingStrategies.java:80-86 | for a non-null transform: the vector fold from 1 over the distinct vectors among rotation, scale, translation, in that order |
| TransformStrategies.TransformVecEquals | src/main/java/pl/asie/foamfix/util/HashingStrategies.java:89-91 | `Objects.equals`: true iff both are null, or both are non-null with equal rotation, scale and translation |
| TransformStrategies.TransformVecHashConsistent | src/main/java/pl/asie/foamfix/util/HashingStrategies.java:78-92 | equal non-null transforms have equal hashes |
| TransformStrategies.TransformHashOfDistinctVectors | src/main/java/pl/asie/foamfix/util/HashingStrategies.java:82-84 | with three different vectors, the hash is the polynomial hash from 1 of all nine components in order |
| TransformStrategies.TransformHashOfEqualVectors | src/main/java/pl/asie/foamfix/util/HashingStrategies.java:82-84 | with three equal vectors, the hash folds that vector once |
| TransformStrategies.FoldTransformsIsPolyHash | src/main/java/pl/asie/foamfix/util/HashingStrategies.java:53-59 | the nested loop is one polynomial hash over the components of each visited transform's distinct vectors |
| TransformStrategies.ItemCameraTransformsHashCode | src/main/java/pl/asie/foamfix/util/HashingStrategies.java:51-61 | for a non-null object with all slots non-null: from 1, the vector fold over the distinct vectors of each distinct slot, slots in declaration order |
| TransformStrategies.ItemCameraTransformsEquals | src/main/java/pl/asie/foamfix/util/HashingStrategies.java:64-75 | a null `o1` equals only null; otherwise (with `o2` non-null) true iff all eight slots are pairwise `Objects.equals` |
| TransformStrategies.ItemCameraTransformsHashConsistent | src/main/java/pl/asie/foamfix/util/HashingStrategies.java:49-76 | equal camera transforms whose hash is defined have equal hashes, and the hash of the other is defined too |
| TransformStrategies.CameraHashOfDistinctSlots | src/main/java/pl/asie/foamfix/util/HashingStrategies.java:53-59 | with eight pairwise different slots, every slot is folded, in declaration order |
| TransformStrategies.CameraHashOfUniformSlots | src/main/java/pl/asie/foamfix/util/HashingStrategies.java:53-59 | eight equal slots hash exactly as the single transform does |

## Left out

- `IDENTITY` (Trove's `IdentityHashingStrategy`) is not modelled. It rests on reference identity and `System.identityHashCode`.
- `GENERIC` (`ObjectStrategy`) is not modelled. It delegates to `Objects.hashCode` and `Objects.equals` of arbitrary objects whose methods are not part of this model.
- `equals` and `hashCode` of `Vector3f` and `ItemTransformVec3f` are not part of this model. They are assumed to be equality of the `floatToIntBits` values of the components. That same equality decides which elements `ImmutableSet.of` drops.
  - If the real `Vector3f.equals` compares floats with `==`, then 0.0 and -0.0 would be equal but hash differently, and NaN would differ from itself. The transform consistency lemmas hold only under the assumption.
- `ImmutableSet.of`'s own hashing and storage are not modelled, only the order in which it iterates. Which of several equal elements it keeps does not matter, because the hash reads only the bit patterns.
- Reference identity and aliasing are not modelled. `Arrays.equals` returns true at once for the same array, and the model reaches the same result by comparing elements.
- `NullPointerException` is modelled as a precondition, not as an error outcome:
  - `FloatArrayArrayHashCode` on a null outer array.
  - `FloatArrayArrayEquals` and `ItemCameraTransformsEquals` with a non-null `o1` and a null `o2`.
  - `TransformVecHashCode` on a null transform.
  - `ItemCameraTransformsHashCode` on a null object or a null slot.
  - A null vector inside a transform cannot be expressed: `Vector3f` fields are not nullable in the model.
- IEEE 754 arithmetic and comparison are not modelled. Only bit patterns enter the strategies.
- The Trove containers that call the strategies are not modelled. Thread safety is also not modelled: the strategies have no state.
