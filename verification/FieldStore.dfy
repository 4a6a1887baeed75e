/** The coordinate and field store: points, measurements, and the collection that is grown and transformed
    in place. */
module FieldStore {
  import opened Numeric
  import opened Arithmetic
  import opened Evaluators
  import opened ChunkViews
  import opened Indexing

  datatype CoordinateType = Cartesian | Cylindric

  datatype StoreError =
    | EmptyCoordinates
    | EmptyField
    | NotDivisible
    | SameType
    | ChunkSizeZero // thrown by the chunk view, not returned
    | NotThreeDimensional
    | UnsupportedTransformation
    | CoordinatesNotCylindric
    | SizesDiffer

  // ----- Points -----

  datatype PointComponents<T> = PointComponents(components: Triple<T>, coordinateType: CoordinateType)

  /** (x, y, z) as (r, phi, z). */
  function ToCylindric<T>(a: Arith<T>, p: Triple<T>): Triple<T> {
    Triple(a.hypot(p.first, p.second), a.atan2(p.second, p.first), p.third)
  }

  /** (r, phi, z) as (x, y, z). */
  function ToCartesian<T>(a: Arith<T>, p: Triple<T>): Triple<T> {
    Triple(a.mul(p.first, a.cos(p.second)), a.mul(p.first, a.sin(p.second)), p.third)
  }

  function Converted<T>(a: Arith<T>, target: CoordinateType, p: Triple<T>): Triple<T> {
    match target
    case Cylindric => ToCylindric(a, p)
    case Cartesian => ToCartesian(a, p)
  }

  /** `PointComponents::transform_coordinates`: a point already of the target type stays. */
  function Transformed<T>(a: Arith<T>, p: PointComponents<T>, target: CoordinateType): (q: PointComponents<T>)
    ensures q.coordinateType == target
    ensures p.coordinateType == target ==> q == p
  {
    if p.coordinateType == target then p else PointComponents(Converted(a, target, p.components), target)
  }

  // ----- The collection -----

  /** Entry k of the buffer after converting every chunk of `dimension` entries. */
  function ConvertedAt<T>(a: Arith<T>, target: CoordinateType, buffer: seq<T>, dimension: nat, k: nat): T
    requires dimension >= 2 && k < |buffer| && ChunksHavePairs(|buffer|, dimension)
  {
    var start := k - k % dimension;
    PairStart(|buffer|, dimension, k);
    var pair := Converted(a, target, Triple(buffer[start], buffer[start + 1], a.zero));
    if k == start then pair.first else if k == start + 1 then pair.second else buffer[k]
  }

  /** The whole buffer after converting every chunk. */
  ghost predicate IsConverted<T>(a: Arith<T>, target: CoordinateType, before: seq<T>, after: seq<T>, dimension: nat)
    requires ChunksHavePairs(|before|, dimension)
  {
    |after| == |before| && forall k :: 0 <= k < |before| ==> after[k] == ConvertedAt(a, target, before, dimension, k)
  }

  /** Every chunk of the buffer has a first and a second entry. */
  predicate ChunksHavePairs(size: nat, dimension: nat) {
    dimension >= 2 && size % dimension != 1
  }

  lemma PairStart(size: nat, dimension: nat, k: nat)
    requires ChunksHavePairs(size, dimension) && k < size
    ensures k - k % dimension + 1 < size
  {
    var start := k - k % dimension;
    assert start == dimension * (k / dimension);
    if start + 1 == size {
      RemainderOne(size, dimension, k / dimension);
    }
  }

  /** Appending whole triples keeps whole triples. */
  lemma StillTriples(dimension: nat, size: nat, more: nat)
    requires dimension > 0 && more % dimension == 0 && (dimension == 3 ==> size % 3 == 0)
    ensures dimension == 3 ==> (size + more) % 3 == 0
  {
    if dimension == 3 {
      assert more % 3 == 0;
    }
  }

  lemma RemainderOne(size: nat, dimension: nat, q: nat)
    requires dimension >= 2 && size == dimension * q + 1
    ensures size % dimension == 1
  {
    PositionOf(dimension, q, 1);
  }

  class FieldCollection<T(0)> {
    const dimension: nat
    var coordinatesType: CoordinateType
    var fieldType: CoordinateType
    var coordinates: seq<T>
    var field: seq<T>

    /** With three dimensions both buffers always hold whole triples. */
    ghost predicate Valid()
      reads this
    {
      dimension == 3 ==> |coordinates| % 3 == 0 && |field| % 3 == 0
    }

    constructor (dimension: nat, coordinatesType: CoordinateType, fieldType: CoordinateType)
      ensures Valid() && this.dimension == dimension
      ensures this.coordinatesType == coordinatesType && this.fieldType == fieldType
      ensures coordinates == [] && field == []
    {
      this.dimension := dimension;
      this.coordinatesType := coordinatesType;
      this.fieldType := fieldType;
      coordinates := [];
      field := [];
    }

    method Clear()
      modifies this`coordinates, this`field
      ensures Valid() && coordinates == [] && field == []
    {
      coordinates := [];
      field := [];
    }

    method AppendCoordinate(first: T, second: T, third: T)
      requires Valid()
      modifies this`coordinates
      ensures Valid() && coordinates == old(coordinates) + [first, second, third]
    {
      coordinates := coordinates + [first];
      coordinates := coordinates + [second];
      coordinates := coordinates + [third];
    }

    /** The field gets as many entries as there are coordinates; new ones are zero. */
    method ResizeFieldToCoordinates(a: Arith<T>)
      requires Valid()
      modifies this`field
      ensures Valid() && |field| == |coordinates|
      ensures forall k :: 0 <= k < |field| ==> field[k] == if k < |old(field)| then old(field)[k] else a.zero
    {
      if |coordinates| <= |field| {
        field := field[..|coordinates|];
      } else {
        field := field + seq(|coordinates| - |field|, _ => a.zero);
      }
    }

    method InsertCoordinatesRange(data: seq<T>) returns (result: Result<(), StoreError>)
      requires Valid() && (data != [] ==> dimension > 0)
      modifies this`coordinates
      ensures Valid()
      ensures result == Err(EmptyCoordinates) <==> data == []
      ensures result == Err(NotDivisible) <==> data != [] && |data| % dimension != 0
      ensures coordinates == if result.Ok? then old(coordinates) + data else old(coordinates)
    {
      if data == [] {
        return Err(EmptyCoordinates);
      }
      if |data| % dimension != 0 {
        return Err(NotDivisible);
      }
      StillTriples(dimension, |coordinates|, |data|);
      coordinates := coordinates + data;
      result := Ok(());
    }

    method InsertFieldRange(data: seq<T>) returns (result: Result<(), StoreError>)
      requires Valid() && (data != [] ==> dimension > 0)
      modifies this`field
      ensures Valid()
      ensures result == Err(EmptyField) <==> data == []
      ensures result == Err(NotDivisible) <==> data != [] && |data| % dimension != 0
      ensures field == if result.Ok? then old(field) + data else old(field)
    {
      if data == [] {
        return Err(EmptyField);
      }
      if |data| % dimension != 0 {
        return Err(NotDivisible);
      }
      StillTriples(dimension, |field|, |data|);
      field := field + data;
      result := Ok(());
    }

    /** Converts every chunk of the coordinates in place. A chunk without a second entry would be read out
        of range, so the caller has to rule that out; with three dimensions the invariant does. */
    method TransformCoordinates(a: Arith<T>, target: CoordinateType) returns (result: Result<(), StoreError>)
      requires Valid()
      requires coordinates != [] && target != coordinatesType && dimension > 0
         ==> ChunksHavePairs(|coordinates|, dimension)
      modifies this`coordinates, this`coordinatesType
      ensures Valid()
      ensures result == Err(EmptyCoordinates) <==> old(coordinates) == []
      ensures result == Err(SameType) <==> old(coordinates) != [] && target == old(coordinatesType)
      ensures result == Err(ChunkSizeZero)
         <==> old(coordinates) != [] && target != old(coordinatesType) && dimension == 0
      ensures result.Err? ==> coordinates == old(coordinates) && coordinatesType == old(coordinatesType)
      ensures result.Ok? ==>
                && coordinatesType == target && dimension > 0
                && IsConverted(a, target, old(coordinates), coordinates, dimension)
    {
      if coordinates == [] {
        return Err(EmptyCoordinates);
      }
      if target == coordinatesType {
        return Err(SameType);
      }
      var view := MakeChunkView(|coordinates|, dimension);
      if view.Err? {
        return Err(ChunkSizeZero);
      }
      ConvertChunks(a, target);
      coordinatesType := target;
      result := Ok(());
    }

    /** Rotates every vector of the field in place by the azimuth of its point. */
    method TransformField(a: Arith<T>, target: CoordinateType) returns (result: Result<(), StoreError>)
      requires Valid()
      modifies this`field, this`fieldType
      ensures Valid()
      ensures result ==
        if old(field) == [] then Err(EmptyField)
        else if old(fieldType) == target then Ok(())
        else if dimension != 3 then Err(NotThreeDimensional)
        else if !(old(fieldType) == Cylindric && target == Cartesian) then Err(UnsupportedTransformation)
        else if coordinatesType != Cylindric then Err(CoordinatesNotCylindric)
        else if |coordinates| != |old(field)| then Err(SizesDiffer)
        else Ok(())
      ensures result.Ok? ==> fieldType == target
      ensures result.Err? || old(fieldType) == target ==> field == old(field) && fieldType == old(fieldType)
      ensures result.Ok? && old(fieldType) != target ==>
                |field| == |old(field)| && RotatedUpTo(a, coordinates, old(field), field, |field| / 3)
    {
      if field == [] {
        return Err(EmptyField);
      }
      if fieldType == target {
        return Ok(());
      }
      if dimension != 3 {
        return Err(NotThreeDimensional);
      }
      if fieldType != Cylindric || target != Cartesian {
        return Err(UnsupportedTransformation);
      }
      if coordinatesType != Cylindric {
        return Err(CoordinatesNotCylindric);
      }
      if |coordinates| != |field| {
        return Err(SizesDiffer);
      }
      RotateField(a);
      fieldType := Cartesian;
      result := Ok(());
    }

    method RotateField(a: Arith<T>)
      requires dimension == 3 && |coordinates| == |field| && |field| % 3 == 0
      modifies this`field
      ensures |field| == |old(field)| && RotatedUpTo(a, coordinates, old(field), field, |field| / 3)
    {
      ghost var before, done := field, 0;
      var offset := 0;
      while offset < |field|
        invariant |field| == |before| && offset == 3 * done <= |before|
        invariant RotatedUpTo(a, coordinates, before, field, done)
      {
        var phi := coordinates[offset + 1];
        var br := field[offset];
        var bphi := field[offset + 1];
        RotatesNext(a, coordinates, before, field, done);
        field := field[offset := a.sub(a.mul(br, a.cos(phi)), a.mul(bphi, a.sin(phi)))];
        field := field[offset + 1 := a.add(a.mul(br, a.sin(phi)), a.mul(bphi, a.cos(phi)))];
        offset := offset + dimension;
        done := done + 1;
      }
    }

    /** The loop over the chunks. */
    method ConvertChunks(a: Arith<T>, target: CoordinateType)
      requires ChunksHavePairs(|coordinates|, dimension)
      modifies this`coordinates
      ensures IsConverted(a, target, old(coordinates), coordinates, dimension)
    {
      ghost var before, chunk := coordinates, 0;
      var it := new Iterator(0, |coordinates|, dimension);
      while it.current != |coordinates|
        invariant it.Valid() && fresh(it) && it.end == |before| && it.chunkSize == dimension
        invariant it.current == |before| || it.current == chunk * dimension
        invariant ConvertedUpTo(a, target, before, coordinates, dimension, it.current)
        decreases |before| - it.current
      {
        var point := it.Deref();
        var start := point.start;
        ConvertsNext(a, target, before, coordinates, dimension, chunk, start, start + point.length);
        var pair := Converted(a, target, Triple(coordinates[start], coordinates[start + 1], a.zero));
        coordinates := coordinates[start := pair.first][start + 1 := pair.second];
        it.Next();
        chunk := chunk + 1;
      }
    }
  }

  ghost predicate RotatedAt<T>(a: Arith<T>, coordinates: seq<T>, before: seq<T>, now: seq<T>, i: nat) {
    && 3 * i + 2 < |coordinates| && 3 * i + 2 < |before| && 3 * i + 2 < |now|
    && TripleAt(now, i) == Rotate(a, TripleAt(before, i), coordinates[3 * i + 1])
  }

  /** The first `done` vectors are rotated, the others not yet. */
  ghost predicate RotatedUpTo<T>(a: Arith<T>, coordinates: seq<T>, before: seq<T>, now: seq<T>, done: nat) {
    && |now| == |before|
    && (forall i :: 0 <= i < done ==> RotatedAt(a, coordinates, before, now, i))
    && (forall k :: 3 * done <= k < |before| ==> now[k] == before[k])
  }

  lemma RotatesNext<T>(a: Arith<T>, coordinates: seq<T>, before: seq<T>, now: seq<T>, done: nat)
    requires RotatedUpTo(a, coordinates, before, now, done) && |coordinates| == |before| && 3 * done + 2 < |before|
    ensures var phi := coordinates[3 * done + 1];
            var v := Rotate(a, TripleAt(now, done), phi);
            RotatedUpTo(a, coordinates, before, now[3 * done := v.first][3 * done + 1 := v.second], done + 1)
  {
    var v := Rotate(a, TripleAt(now, done), coordinates[3 * done + 1]);
    var next := now[3 * done := v.first][3 * done + 1 := v.second];
    assert RotatedAt(a, coordinates, before, next, done);
    forall i | 0 <= i < done
      ensures RotatedAt(a, coordinates, before, next, i)
    {
      assert RotatedAt(a, coordinates, before, now, i);
      assert TripleAt(next, i) == TripleAt(now, i);
    }
  }

  /** The entries before `done` are converted, the others not yet. */
  ghost predicate ConvertedUpTo<T>(a: Arith<T>, target: CoordinateType, before: seq<T>, now: seq<T>, dimension: nat,
                                   done: nat)
    requires ChunksHavePairs(|before|, dimension)
  {
    && |now| == |before|
    && (forall k :: 0 <= k < done && k < |before| ==> now[k] == ConvertedAt(a, target, before, dimension, k))
    && (forall k :: done <= k < |before| ==> now[k] == before[k])
  }

  lemma ConvertsNext<T>(a: Arith<T>, target: CoordinateType, before: seq<T>, now: seq<T>, dimension: nat,
                        chunk: nat, start: nat, next: nat)
    requires ChunksHavePairs(|before|, dimension) && start == chunk * dimension && start < |before|
    requires start < next <= start + dimension && (next == start + dimension || next == |before|)
    requires ConvertedUpTo(a, target, before, now, dimension, start)
    ensures start + 1 < |before| && (chunk + 1) * dimension == start + dimension
    ensures var pair := Converted(a, target, Triple(now[start], now[start + 1], a.zero));
            ConvertedUpTo(a, target, before, now[start := pair.first][start + 1 := pair.second], dimension, next)
  {
    ChunkPositions(|before|, dimension, chunk, start);
  }

  /** The positions of chunk number `chunk`. */
  lemma ChunkPositions(size: nat, dimension: nat, chunk: nat, start: nat)
    requires ChunksHavePairs(size, dimension) && start == chunk * dimension && start < size
    ensures start + 1 < size
    ensures forall k :: start <= k < start + dimension ==> k - k % dimension == start
    ensures (chunk + 1) * dimension == start + dimension
  {
    forall k | start <= k < start + dimension
      ensures k - k % dimension == start
    {
      RemainderIs(k, dimension, chunk);
    }
    PairStart(size, dimension, start);
    RemainderIs(start, dimension, chunk);
  }

  lemma RemainderIs(k: nat, dimension: nat, q: nat)
    requires dimension > 0 && dimension * q <= k < dimension * q + dimension
    ensures k % dimension == k - dimension * q
  {
    PositionOf(dimension, q, k - dimension * q);
  }
}
