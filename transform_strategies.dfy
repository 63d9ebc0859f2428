/**
 * The strategies ITEM_TRANSFORM_VEC3F and ITEM_CAMERA_TRANSFORMS.
 *
 * A transform is three float vectors (rotation, scale, translation); a set
 * of camera transforms is eight nullable transform slots. Both hashes fold
 * the `floatToIntBits` values of the vector components, but they iterate
 * through `ImmutableSet.of(...)`, so a vector (or slot) equal to an earlier
 * one is skipped.
 *
 * The `equals` of the vector and transform types is not part of this
 * model; it is taken to be component-wise equality of the
 * `floatToIntBits` values, and the same equality decides which elements
 * `ImmutableSet.of` drops.
 */
module TransformStrategies {
  import opened JavaTypes
  import opened PolynomialHash
  import opened ImmutableSets

  datatype Vector3f = Vector3f(x: Float, y: Float, z: Float)

  datatype ItemTransformVec3f = ItemTransformVec3f(rotation: Vector3f, scale: Vector3f, translation: Vector3f)

  datatype ItemCameraTransforms = ItemCameraTransforms(
    firstpersonLeft: Nullable<ItemTransformVec3f>,
    firstpersonRight: Nullable<ItemTransformVec3f>,
    fixed: Nullable<ItemTransformVec3f>,
    ground: Nullable<ItemTransformVec3f>,
    gui: Nullable<ItemTransformVec3f>,
    head: Nullable<ItemTransformVec3f>,
    thirdpersonLeft: Nullable<ItemTransformVec3f>,
    thirdpersonRight: Nullable<ItemTransformVec3f>)

  /** The `floatToIntBits` values of a vector's x, y and z. */
  type VectorBits = (Int32, Int32, Int32)

  function Bits(v: Vector3f): VectorBits
  {
    (FloatToIntBits(v.x), FloatToIntBits(v.y), FloatToIntBits(v.z))
  }

  /** The vector equality assumed for `Vector3f.equals`. */
  predicate VectorEquals(u: Vector3f, v: Vector3f)
  {
    Bits(u) == Bits(v)
  }

  /** The vectors of a transform, in the order the hash visits them. */
  function Vectors(t: ItemTransformVec3f): seq<Vector3f>
  {
    [t.rotation, t.scale, t.translation]
  }

  function TransformBits(t: ItemTransformVec3f): (r: seq<VectorBits>)
    ensures |r| == 3 && forall i :: 0 <= i < 3 ==> r[i] == Bits(Vectors(t)[i])
  {
    [Bits(t.rotation), Bits(t.scale), Bits(t.translation)]
  }

  // ---------------------------------------------------------------------
  // The hash fold
  // ---------------------------------------------------------------------

  /** `((hash * 31 + x) * 31 + y) * 31 + z`, each operation wrapping. */
  function VectorStep(hash: Int32, v: VectorBits): Int32
  {
    HashStep(HashStep(HashStep(hash, v.0), v.1), v.2)
  }

  /** `VectorStep` folded over `vs` from left to right. */
  function FoldVectors(hash: Int32, vs: seq<VectorBits>): Int32
    decreases |vs|
  {
    if vs == [] then hash else VectorStep(FoldVectors(hash, vs[..|vs| - 1]), vs[|vs| - 1])
  }

  /** The components of `vs`, in order. */
  function Flatten(vs: seq<VectorBits>): (r: seq<Int32>)
    ensures |r| == 3 * |vs|
    decreases |vs|
  {
    if vs == [] then [] else
      var v := vs[|vs| - 1];
      Flatten(vs[..|vs| - 1]) + [v.0, v.1, v.2]
  }

  /** Folding vectors is the polynomial hash of their components. */
  lemma {:induction false} FoldVectorsIsPolyHash(hash: Int32, vs: seq<VectorBits>)
    ensures FoldVectors(hash, vs) == PolyHash(hash, Flatten(vs))
    decreases |vs|
  {
    if vs != [] {
      var p, v := vs[..|vs| - 1], vs[|vs| - 1];
      FoldVectorsIsPolyHash(hash, p);
      var h := PolyHash(hash, Flatten(p));
      PolyHashAppend(hash, Flatten(p), [v.0, v.1, v.2]);
      assert [v.0, v.1, v.2][..2] == [v.0, v.1];
      assert [v.0, v.1][..1] == [v.0];
      assert PolyHash(h, [v.0]) == HashStep(h, v.0);
    }
  }

  /** The value ITEM_TRANSFORM_VEC3F's hash computes. */
  function TransformHash(t: ItemTransformVec3f): Int32
  {
    FoldVectors(1, Distinct(TransformBits(t)))
  }

  // ---------------------------------------------------------------------
  // ITEM_TRANSFORM_VEC3F
  // ---------------------------------------------------------------------

  /**
   * The inner loop of both transform hashes: for each vector in turn,
   * `hash = ((hash * 31 + x) * 31 + y) * 31 + z`.
   */
  method HashVectors(start: Int32, vectors: seq<VectorBits>) returns (hash: Int32)
    ensures hash == FoldVectors(start, vectors)
    ensures hash == PolyHash(start, Flatten(vectors))
  {
    hash := start;
    for i := 0 to |vectors|
      invariant hash == FoldVectors(start, vectors[..i])
    {
      assert vectors[..i + 1][..i] == vectors[..i];
      var v := vectors[i];
      hash := Add32(Mul32(Add32(Mul32(Add32(Mul32(hash, 31), v.0), 31), v.1), 31), v.2);
    }
    assert vectors[..|vectors|] == vectors;
    FoldVectorsIsPolyHash(start, vectors);
  }

  /**
   * ItemTransformVecStrategy.computeHashCode: the vector fold from 1 over
   * `ImmutableSet.of(rotation, scale, translation)`. The transform is
   * dereferenced, so it must not be null.
   */
  method TransformVecHashCode(transform: Nullable<ItemTransformVec3f>) returns (hash: Int32)
    requires transform.NonNull?
    ensures hash == TransformHash(transform.value)
    ensures hash == PolyHash(1, Flatten(Distinct(TransformBits(transform.value))))
  {
    hash := HashVectors(1, Distinct(TransformBits(transform.value)));
  }

  /**
   * ItemTransformVecStrategy.equals, `Objects.equals`: two nulls are equal,
   * null differs from non-null, and two transforms are equal when their
   * three vectors are.
   */
  function TransformVecEquals(o1: Nullable<ItemTransformVec3f>, o2: Nullable<ItemTransformVec3f>): (r: bool)
    ensures r <==> (o1.Null? && o2.Null?) ||
                   (o1.NonNull? && o2.NonNull? &&
                    forall i :: 0 <= i < 3 ==> VectorEquals(Vectors(o1.value)[i], Vectors(o2.value)[i]))
  {
    match (o1, o2)
    case (Null, Null) => true
    case (NonNull(s), NonNull(t)) => TransformBits(s) == TransformBits(t)
    case _ => false
  }

  lemma TransformVecHashConsistent(o1: Nullable<ItemTransformVec3f>, o2: Nullable<ItemTransformVec3f>)
    requires o1.NonNull? && TransformVecEquals(o1, o2)
    ensures o2.NonNull? && TransformHash(o1.value) == TransformHash(o2.value)
  {
  }

  /** Three different vectors are all folded: nine components in order. */
  lemma TransformHashOfDistinctVectors(t: ItemTransformVec3f)
    requires NoDuplicates(TransformBits(t))
    ensures TransformHash(t) == PolyHash(1, Flatten(TransformBits(t)))
  {
    DistinctOfNoDuplicates(TransformBits(t));
    FoldVectorsIsPolyHash(1, TransformBits(t));
  }

  /** Three equal vectors are folded once only. */
  lemma TransformHashOfEqualVectors(t: ItemTransformVec3f)
    requires VectorEquals(t.rotation, t.scale) && VectorEquals(t.rotation, t.translation)
    ensures TransformHash(t) == VectorStep(1, Bits(t.rotation))
  {
    var b := Bits(t.rotation);
    var ks := TransformBits(t);
    assert ks == [b, b, b];
    DistinctOfRepeated(ks, b);
    assert [b][..0] == ks[..0];
    assert FoldVectors(1, [b]) == VectorStep(1, b);
  }

  // ---------------------------------------------------------------------
  // ITEM_CAMERA_TRANSFORMS
  // ---------------------------------------------------------------------

  /** The eight slots in declaration order. */
  function Slots(c: ItemCameraTransforms): (r: seq<Nullable<ItemTransformVec3f>>)
    ensures |r| == 8
  {
    [c.firstpersonLeft, c.firstpersonRight, c.fixed, c.ground,
     c.gui, c.head, c.thirdpersonLeft, c.thirdpersonRight]
  }

  /** Names each slot of `Slots`; a helper for `ItemCameraTransformsEquals`. */
  lemma SlotsInDeclarationOrder(c: ItemCameraTransforms)
    ensures Slots(c)[0] == c.firstpersonLeft && Slots(c)[1] == c.firstpersonRight
    ensures Slots(c)[2] == c.fixed && Slots(c)[3] == c.ground
    ensures Slots(c)[4] == c.gui && Slots(c)[5] == c.head
    ensures Slots(c)[6] == c.thirdpersonLeft && Slots(c)[7] == c.thirdpersonRight
  {
  }

  /** `ImmutableSet.of` throws on a null element, so the hash needs every slot. */
  predicate AllSlotsPresent(c: ItemCameraTransforms)
  {
    forall i :: 0 <= i < 8 ==> Slots(c)[i].NonNull?
  }

  function SlotBits(c: ItemCameraTransforms): (r: seq<seq<VectorBits>>)
    requires AllSlotsPresent(c)
    ensures |r| == 8 && forall i :: 0 <= i < 8 ==> r[i] == TransformBits(Slots(c)[i].value)
  {
    seq(8, i requires 0 <= i < 8 => TransformBits(Slots(c)[i].value))
  }

  /** For each transform in turn, the vector fold over its distinct vectors. */
  function FoldTransforms(hash: Int32, ts: seq<seq<VectorBits>>): Int32
    decreases |ts|
  {
    if ts == [] then hash else FoldVectors(FoldTransforms(hash, ts[..|ts| - 1]), Distinct(ts[|ts| - 1]))
  }

  /** The value ITEM_CAMERA_TRANSFORMS's hash computes. */
  function CameraHash(c: ItemCameraTransforms): Int32
    requires AllSlotsPresent(c)
  {
    FoldTransforms(1, Distinct(SlotBits(c)))
  }

  /** The components the camera hash folds, transform by transform. */
  function Components(ts: seq<seq<VectorBits>>): seq<Int32>
    decreases |ts|
  {
    if ts == [] then [] else Components(ts[..|ts| - 1]) + Flatten(Distinct(ts[|ts| - 1]))
  }

  /** The nested fold is one polynomial hash over all the visited components. */
  lemma {:induction false} FoldTransformsIsPolyHash(hash: Int32, ts: seq<seq<VectorBits>>)
    ensures FoldTransforms(hash, ts) == PolyHash(hash, Components(ts))
    decreases |ts|
  {
    if ts != [] {
      var p := ts[..|ts| - 1];
      FoldTransformsIsPolyHash(hash, p);
      FoldVectorsIsPolyHash(FoldTransforms(hash, p), Distinct(ts[|ts| - 1]));
      PolyHashAppend(hash, Components(p), Flatten(Distinct(ts[|ts| - 1])));
    }
  }

  /**
   * ItemCameraTransformsStrategy.computeHashCode: from 1, for each transform
   * of `ImmutableSet.of(<the eight slots>)`, the vector fold over
   * `ImmutableSet.of(rotation, scale, translation)`.
   */
  method ItemCameraTransformsHashCode(camera: Nullable<ItemCameraTransforms>) returns (hash: Int32)
    requires camera.NonNull? && AllSlotsPresent(camera.value)
    ensures hash == CameraHash(camera.value)
    ensures hash == PolyHash(1, Components(Distinct(SlotBits(camera.value))))
  {
    var transforms := Distinct(SlotBits(camera.value));
    hash := 1;
    for i := 0 to |transforms|
      invariant hash == FoldTransforms(1, transforms[..i])
    {
      assert transforms[..i + 1][..i] == transforms[..i];
      hash := HashVectors(hash, Distinct(transforms[i]));
    }
    assert transforms[..|transforms|] == transforms;
    FoldTransformsIsPolyHash(1, transforms);
  }

  /**
   * ItemCameraTransformsStrategy.equals: a null `o1` equals only null;
   * otherwise `o2` is dereferenced (so it must not be null) and the eight
   * slots are compared with `Objects.equals`.
   */
  function ItemCameraTransformsEquals(o1: Nullable<ItemCameraTransforms>, o2: Nullable<ItemCameraTransforms>): (r: bool)
    requires o1.NonNull? ==> o2.NonNull?
    ensures r <==> (o1.Null? && o2.Null?) ||
                   (o1.NonNull? && o2.NonNull? &&
                    forall i :: 0 <= i < 8 ==> TransformVecEquals(Slots(o1.value)[i], Slots(o2.value)[i]))
  {
    if o1.Null? then o2.Null?
    else
      var a, b := o1.value, o2.value;
      SlotsInDeclarationOrder(a);
      SlotsInDeclarationOrder(b);
      TransformVecEquals(a.firstpersonLeft, b.firstpersonLeft)
      && TransformVecEquals(a.firstpersonRight, b.firstpersonRight)
      && TransformVecEquals(a.fixed, b.fixed)
      && TransformVecEquals(a.ground, b.ground)
      && TransformVecEquals(a.gui, b.gui)
      && TransformVecEquals(a.head, b.head)
      && TransformVecEquals(a.thirdpersonLeft, b.thirdpersonLeft)
      && TransformVecEquals(a.thirdpersonRight, b.thirdpersonRight)
  }

  /** Equal camera transforms whose hash is defined have equal hashes. */
  lemma ItemCameraTransformsHashConsistent(o1: Nullable<ItemCameraTransforms>, o2: Nullable<ItemCameraTransforms>)
    requires o1.NonNull? && o2.NonNull? && AllSlotsPresent(o1.value)
    requires ItemCameraTransformsEquals(o1, o2)
    ensures AllSlotsPresent(o2.value)
    ensures CameraHash(o1.value) == CameraHash(o2.value)
  {
    var a, b := o1.value, o2.value;
    forall i | 0 <= i < 8
      ensures Slots(b)[i].NonNull? && TransformBits(Slots(a)[i].value) == TransformBits(Slots(b)[i].value)
    {
      assert TransformVecEquals(Slots(a)[i], Slots(b)[i]);
    }
    assert SlotBits(a) == SlotBits(b);
  }

  /** Eight different slots are all folded, in declaration order. */
  lemma CameraHashOfDistinctSlots(c: ItemCameraTransforms)
    requires AllSlotsPresent(c) && NoDuplicates(SlotBits(c))
    ensures CameraHash(c) == FoldTransforms(1, SlotBits(c))
  {
    DistinctOfNoDuplicates(SlotBits(c));
  }

  /** Eight equal slots are hashed as one transform. */
  lemma CameraHashOfUniformSlots(c: ItemCameraTransforms)
    requires AllSlotsPresent(c)
    requires forall i :: 0 <= i < 8 ==> TransformVecEquals(Slots(c)[i], Slots(c)[0])
    ensures CameraHash(c) == TransformHash(Slots(c)[0].value)
  {
    var first := TransformBits(Slots(c)[0].value);
    var ts := SlotBits(c);
    forall i | 0 <= i < 8
      ensures ts[i] == first
    {
      assert TransformVecEquals(Slots(c)[i], Slots(c)[0]);
    }
    DistinctOfRepeated(ts, first);
    assert [first][..0] == ts[..0];
    assert FoldTransforms(1, [first]) == FoldVectors(1, Distinct(first));
  }
}
