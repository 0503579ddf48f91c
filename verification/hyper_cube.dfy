/**
 * `HyperCubeDefinition`, the growing list of dimensions of a space, and
 * `HyperCube`, a region of that space given by one range per dimension.
 * All dimensions of one definition share the unit type `T`.
 */
module HyperCubes {
  import opened Wrappers
  import opened JavaLang
  import R = Ranges
  import opened Dimensions

  /** The index-ordered names of a list of dimensions. */
  function Names<T(==)>(dims: seq<Dimension<T>>): (names: seq<JString>)
    ensures |names| == |dims| && forall i :: 0 <= i < |dims| ==> names[i] == dims[i].name
  {
    seq(|dims|, i requires 0 <= i < |dims| => dims[i].name)
  }

  /** The name given to a new dimension: its own, or its index when null or empty. */
  function DimensionName(name: Option<JString>, index: nat): (n: JString)
    ensures n != []
    ensures name.Some? && name.value != [] ==> n == name.value
  {
    if name.None? || name.value == [] then IntToString(index) else name.value
  }

  /** Dimension names built from distinct indices never clash. */
  lemma DefaultNamesDistinct(i: nat, j: nat)
    requires i != j
    ensures DimensionName(None, i) != DimensionName(None, j)
  {
    if DimensionName(None, i) == DimensionName(None, j) {
      IntToStringInjective(i, j);
    }
  }

  class HyperCubeDefinition<T(==)> {
    /** The dimensions in index order (an `ArrayList`). */
    var dimensions: seq<Dimension<T>>
    /** The dimensions by name (a `LinkedHashMap`); a re-used name maps to the latest. */
    var dimensionsByName: map<JString, Dimension<T>>

    /**
     * Each dimension sits at its own index, and each name maps to the last
     * dimension carrying that name.
     */
    ghost predicate Valid()
      reads this
    {
      (forall i :: 0 <= i < |dimensions| ==> dimensions[i].dimensionIndex == i)
      && (forall i :: 0 <= i < |dimensions| ==> dimensions[i].name in dimensionsByName)
      && (forall n :: n in dimensionsByName ==>
            dimensionsByName[n].dimensionIndex < |dimensions| &&
            dimensions[dimensionsByName[n].dimensionIndex] == dimensionsByName[n] &&
            dimensionsByName[n].name == n)
      && (forall i, n :: 0 <= i < |dimensions| && n in dimensionsByName && dimensions[i].name == n ==>
            i <= dimensionsByName[n].dimensionIndex)
    }

    constructor ()
      ensures Valid() && dimensions == [] && dimensionsByName == map[]
    {
      dimensions := [];
      dimensionsByName := map[];
    }

    /** `getDimensionCount`. */
    function GetDimensionCount(): (n: nat)
      reads this
      ensures n == |dimensions|
    {
      |dimensions|
    }

    /**
     * `addDimension`: appends a dimension whose index is the count before the
     * call, named by `name` or, when that is null or empty, by its index.
     */
    method AddDimension(compare: (T, T) -> int, name: Option<JString>, range: R.Range<T>) returns (d: Dimension<T>)
      requires Valid()
      modifies this
      ensures Valid()
      ensures d == Dimension(DimensionName(name, |old(dimensions)|), |old(dimensions)|, range, compare)
      ensures dimensions == old(dimensions) + [d]
      ensures dimensionsByName == old(dimensionsByName)[d.name := d]
      ensures GetDimension(d.dimensionIndex) == Ok(d) && GetDimensionByName(d.name) == Some(d)
    {
      var index := |dimensions|;
      var dimensionName := DimensionName(name, index);
      d := Dimension(dimensionName, index, range, compare);
      dimensions := dimensions + [d];
      dimensionsByName := dimensionsByName[dimensionName := d];
    }

    /** `getDimension(String)`: the dimension registered under the name, or null. */
    function GetDimensionByName(name: JString): (r: Option<Dimension<T>>)
      reads this
      requires Valid()
      ensures r.Some? <==> exists i :: 0 <= i < |dimensions| && dimensions[i].name == name
      ensures r.Some? ==> r.value.name == name && r.value in dimensions
      ensures r.Some? ==> forall i :: 0 <= i < |dimensions| && dimensions[i].name == name ==> i <= r.value.dimensionIndex
    {
      if name in dimensionsByName then
        assert dimensions[dimensionsByName[name].dimensionIndex].name == name;
        Some(dimensionsByName[name])
      else None
    }

    /** `getDimension(int)`: the dimension at the index; out of range it throws. */
    function GetDimension(index: int): (r: Result<Dimension<T>>)
      reads this
      requires Valid()
      ensures r.Ok? <==> 0 <= index < |dimensions|
      ensures r.Ok? ==> r.value.dimensionIndex == index && r.value == dimensions[index]
      ensures r.Err? ==> r.error == IndexOutOfBounds
    {
      if 0 <= index < |dimensions| then Ok(dimensions[index]) else Err(IndexOutOfBounds)
    }

    /** `createHyperCube`: a cube whose range i is dimension i's range. */
    method CreateHyperCube() returns (cube: HyperCube<T>)
      requires Valid()
      ensures cube.definition == this
      ensures |cube.ranges| == |dimensions|
      ensures forall i :: 0 <= i < |dimensions| ==> cube.ranges[i] == dimensions[i].range
    {
      var ranges: seq<R.Range<T>> := [];
      var dimIndex := 0;
      while dimIndex < |dimensions|
        invariant 0 <= dimIndex <= |dimensions|
        invariant |ranges| == dimIndex
        invariant forall i :: 0 <= i < dimIndex ==> ranges[i] == dimensions[i].range
      {
        var dimension := GetDimension(dimIndex).value;
        ranges := ranges + [dimension.range];
        dimIndex := dimIndex + 1;
      }
      cube := HyperCube(this, ranges);
    }

    /** `toString`: the dimension names joined with commas in index order. */
    method ToString() returns (s: JString)
      requires Valid()
      ensures s == Join(Names(dimensions), [0x2C])
    {
      s := [];
      var dimensionCount := |dimensions|;
      var dimensionIndex := 0;
      while dimensionIndex < dimensionCount
        invariant 0 <= dimensionIndex <= dimensionCount
        invariant s == Join(Names(dimensions)[..dimensionIndex], [0x2C])
      {
        if dimensionIndex != 0 { s := s + [0x2C]; }
        s := s + dimensions[dimensionIndex].name;
        JoinAppend(Names(dimensions), [0x2C], dimensionIndex);
        dimensionIndex := dimensionIndex + 1;
      }
      assert Names(dimensions)[..dimensionCount] == Names(dimensions);
    }
  }

  /** Extending the joined prefix by one more part. */
  lemma JoinAppend(parts: seq<JString>, sep: JString, i: nat)
    requires i < |parts|
    ensures Join(parts[..i + 1], sep) == if i == 0 then parts[0] else Join(parts[..i], sep) + sep + parts[i]
  {
    assert parts[..i + 1][..i] == parts[..i];
  }

  /** A `HyperCube`: the (shared, growing) definition and one range per dimension. */
  datatype HyperCube<!T(==)> = HyperCube(definition: HyperCubeDefinition<T>, ranges: seq<R.Range<T>>)

  /** A `HyperCoord`: one value per dimension. */
  datatype HyperCoord<T(==)> = HyperCoord(values: seq<T>)

  /** Whether component i of the coordinate is in range i under dimension i's calculator. */
  predicate ComponentInRange<T(==)>(dims: seq<Dimension<T>>, ranges: seq<R.Range<T>>, coord: seq<T>, i: int)
    requires 0 <= i < |coord| && i < |dims| && i < |ranges|
  {
    R.IsInRange(coord[i], ranges[i], dims[i].compare)
  }

  /**
   * `isCoordinateInRange(Object...)`: checks the components in order and
   * answers false at the first one out of range. A component beyond the
   * dimensions or the ranges reached before that throws.
   */
  method IsCoordinateInRange<T(==)>(cube: HyperCube<T>, coord: seq<T>) returns (r: Result<bool>)
    requires cube.definition.Valid()
    ensures var dims, n := cube.definition.dimensions, Min(|cube.definition.dimensions|, |cube.ranges|);
      (r == Ok(true) <==> |coord| <= n && forall i :: 0 <= i < |coord| ==> ComponentInRange(dims, cube.ranges, coord, i))
      && (r.Err? <==> n < |coord| && forall i :: 0 <= i < n ==> ComponentInRange(dims, cube.ranges, coord, i))
      && (r.Err? ==> r.error == IndexOutOfBounds)
  {
    var ranges := cube.ranges;
    var definition := cube.definition;
    var dimIndex := 0;
    while dimIndex < |coord|
      invariant 0 <= dimIndex <= |coord|
      invariant dimIndex <= |definition.dimensions| && dimIndex <= |ranges|
      invariant forall i :: 0 <= i < dimIndex ==> ComponentInRange(definition.dimensions, ranges, coord, i)
    {
      var dimension := definition.GetDimension(dimIndex);
      if dimension.Err? { return Err(dimension.error); }
      if dimIndex >= |ranges| { return Err(IndexOutOfBounds); }
      if !R.IsInRange(coord[dimIndex], ranges[dimIndex], dimension.value.compare) {
        assert !ComponentInRange(definition.dimensions, ranges, coord, dimIndex);
        return Ok(false);
      }
      dimIndex := dimIndex + 1;
    }
    return Ok(true);
  }

  function Min(a: int, b: int): int { if a < b then a else b }

  /** `isCoordinateInRange(HyperCoord)`: the same answer on the coordinate's values. */
  method IsHyperCoordInRange<T(==)>(cube: HyperCube<T>, coord: HyperCoord<T>) returns (r: Result<bool>)
    requires cube.definition.Valid()
    ensures var dims, n := cube.definition.dimensions, Min(|cube.definition.dimensions|, |cube.ranges|);
      (r == Ok(true) <==> |coord.values| <= n && forall i :: 0 <= i < |coord.values| ==> ComponentInRange(dims, cube.ranges, coord.values, i))
      && (r.Err? <==> n < |coord.values| && forall i :: 0 <= i < n ==> ComponentInRange(dims, cube.ranges, coord.values, i))
  {
    r := IsCoordinateInRange(cube, coord.values);
  }

  /**
   * A one-dimensional cube built with `rangeBetween(lo, hi)` holds a value iff
   * it lies in `[lo, hi]` and in the dimension's own range.
   */
  lemma CubeOfRangeBetween<T(!new)>(cube: HyperCube<T>, lo: T, hi: T, v: T)
    requires cube.definition.Valid() && |cube.definition.dimensions| == 1
    requires cube.ranges == [RangeBetween(cube.definition.dimensions[0], lo, hi)]
    ensures var d := cube.definition.dimensions[0];
      ComponentInRange(cube.definition.dimensions, cube.ranges, [v], 0) <==>
        d.compare(lo, v) <= 0 && d.compare(v, hi) <= 0 && IsInRange(d, v)
  {
  }

  /** `toString`: `name:range` per dimension, one per line; a missing range throws. */
  method CubeToString<T(==)>(cube: HyperCube<T>, render: R.Range<T> -> JString) returns (r: Result<JString>)
    requires cube.definition.Valid()
    ensures r.Err? <==> |cube.ranges| < |cube.definition.dimensions|
    ensures r.Ok? ==> r.value == Join(Labels(cube.definition.dimensions, cube.ranges, render), [0x0A])
  {
    var definition := cube.definition;
    var ranges := cube.ranges;
    ghost var labels := Labels(definition.dimensions, ranges, render);
    var s: JString := [];
    var dimensionCount := definition.GetDimensionCount();
    var dimensionIndex := 0;
    while dimensionIndex < dimensionCount
      invariant 0 <= dimensionIndex <= dimensionCount
      invariant dimensionIndex <= |ranges|
      invariant s == Join(labels[..dimensionIndex], [0x0A])
    {
      if dimensionIndex >= |ranges| { return Err(IndexOutOfBounds); }
      var dimension := definition.GetDimension(dimensionIndex).value;
      if dimensionIndex != 0 { s := s + [0x0A]; }
      s := s + (dimension.name + [0x3A] + render(ranges[dimensionIndex]));
      JoinAppend(labels, [0x0A], dimensionIndex);
      dimensionIndex := dimensionIndex + 1;
    }
    assert labels[..dimensionCount] == labels;
    return Ok(s);
  }

  /** The `name:range` label of each dimension that has a range. */
  function Labels<T(==)>(dims: seq<Dimension<T>>, ranges: seq<R.Range<T>>, render: R.Range<T> -> JString): (labels: seq<JString>)
    ensures |labels| == Min(|dims|, |ranges|)
  {
    var n := Min(|dims|, |ranges|);
    seq(n, i requires 0 <= i < n => dims[i].name + [0x3A] + render(ranges[i]))
  }
}
