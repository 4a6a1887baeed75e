/** The loops that sum coefficient times mode: the evaluator for one point and the kernel for a whole grid.
    Both are proved against one left-to-right sum, over any arithmetic whatsoever. */
module Evaluators {
  import opened Numeric
  import opened Arithmetic

  /** A basis function takes the mode and the cylindrical coordinates. */
  type BasisFunction<!T> = (nat, T, T, T) -> T

  datatype KernelError = CoordinatesNotTriples | FieldSizeMismatch

  // ----- The sum over the modes -----

  /** Zero plus the first `modes` products, added from the left. */
  ghost function ModeSum<T>(a: Arith<T>, coefficients: seq<T>, f: BasisFunction<T>, p: Triple<T>, modes: nat): T
    requires modes <= |coefficients|
  {
    if modes == 0 then a.zero
    else a.add(ModeSum(a, coefficients, f, p, modes - 1),
               a.mul(coefficients[modes - 1], f(modes - 1, p.first, p.second, p.third)))
  }

  ghost predicate ThreeFunctions<T>(basis: seq<BasisFunction<T>>) {
    |basis| == DIMENSION
  }

  /** The cylindrical field of the coefficients at p. */
  ghost function FieldValue<T>(a: Arith<T>, basis: seq<BasisFunction<T>>, coefficients: seq<T>, p: Triple<T>): Triple<T>
    requires ThreeFunctions(basis)
  {
    var modes := |coefficients|;
    Triple(ModeSum(a, coefficients, basis[0], p, modes),
           ModeSum(a, coefficients, basis[1], p, modes),
           ModeSum(a, coefficients, basis[2], p, modes))
  }

  /** One more coefficient adds its product on the right of the sum so far, in any arithmetic; and the empty sum is
      zero. */
  lemma SumGrowsOnTheRight<T>(a: Arith<T>, f: BasisFunction<T>, p: Triple<T>, coefficients: seq<T>, more: T)
    ensures var n := |coefficients|;
      ModeSum(a, coefficients + [more], f, p, n + 1)
      == a.add(ModeSum(a, coefficients, f, p, n), a.mul(more, f(n, p.first, p.second, p.third)))
    ensures ModeSum(a, [], f, p, 0) == a.zero
  {
    SumOfPrefix(a, f, p, coefficients, coefficients + [more], |coefficients|);
  }

  /** The sum depends only on the coefficients it uses. */
  lemma {:induction false} SumOfPrefix<T>(a: Arith<T>, f: BasisFunction<T>, p: Triple<T>, coefficients: seq<T>,
                                          longer: seq<T>, modes: nat)
    requires modes <= |coefficients| && coefficients <= longer
    ensures ModeSum(a, coefficients, f, p, modes) == ModeSum(a, longer, f, p, modes)
  {
    if modes > 0 {
      SumOfPrefix(a, f, p, coefficients, longer, modes - 1);
    }
  }

  /** The components before `done` have summed one mode more than the others. */
  ghost predicate HaveSummed<T>(a: Arith<T>, basis: seq<BasisFunction<T>>, coefficients: seq<T>, p: Triple<T>,
                                components: seq<T>, mode: nat, done: nat)
    requires ThreeFunctions(basis)
  {
    && |components| == DIMENSION && mode <= |coefficients| && (done > 0 ==> mode < |coefficients|)
    && forall i :: 0 <= i < DIMENSION ==>
         components[i] == ModeSum(a, coefficients, basis[i], p, if i < done then mode + 1 else mode)
  }

  // ----- One point -----

  /** The nested loops of `evaluate_for_point`. */
  method EvaluatePoint<T>(a: Arith<T>, basis: seq<BasisFunction<T>>, coefficients: seq<T>, p: Triple<T>)
    returns (value: Triple<T>)
    requires ThreeFunctions(basis)
    ensures value == FieldValue(a, basis, coefficients, p)
  {
    var components := [a.zero, a.zero, a.zero];
    for mode := 0 to |coefficients|
      invariant HaveSummed(a, basis, coefficients, p, components, mode, 0)
    {
      for i := 0 to DIMENSION
        invariant HaveSummed(a, basis, coefficients, p, components, mode, i)
      {
        components := components[i := a.add(components[i],
                                            a.mul(coefficients[mode], basis[i](mode, p.first, p.second, p.third)))];
      }
    }
    value := Triple(components[0], components[1], components[2]);
  }

  // ----- The grid kernel -----

  ghost function TripleAt<T>(buffer: seq<T>, id: nat): Triple<T>
    requires 3 * id + 2 < |buffer|
  {
    Triple(buffer[3 * id], buffer[3 * id + 1], buffer[3 * id + 2])
  }

  /** Triple id of the field is the field at triple id of the coordinates. */
  ghost predicate HoldsFieldAt<T>(a: Arith<T>, basis: seq<BasisFunction<T>>, coefficients: seq<T>,
                                  coordinates: seq<T>, field: seq<T>, id: nat)
    requires ThreeFunctions(basis)
  {
    && 3 * id + 2 < |coordinates| && 3 * id + 2 < |field|
    && TripleAt(field, id) == FieldValue(a, basis, coefficients, TripleAt(coordinates, id))
  }

  /** The whole field buffer is the field of the coefficients at the coordinates. */
  ghost predicate HoldsField<T>(a: Arith<T>, basis: seq<BasisFunction<T>>, coefficients: seq<T>,
                                coordinates: seq<T>, field: seq<T>)
    requires ThreeFunctions(basis)
  {
    && |field| == |coordinates| && |field| % DIMENSION == 0
    && HoldsFieldUpTo(a, basis, coefficients, coordinates, field, |field| / DIMENSION)
  }

  /** Only triple id differs. */
  ghost predicate SameExcept<T>(before: seq<T>, after: seq<T>, id: nat) {
    |before| == |after| && forall k :: 0 <= k < |before| && !(3 * id <= k < 3 * id + 3) ==> after[k] == before[k]
  }

  method StoreTriple<T>(buffer: array<T>, id: nat, value: Triple<T>)
    requires 3 * id + 2 < buffer.Length
    modifies buffer
    ensures TripleAt(buffer[..], id) == value && SameExcept(old(buffer[..]), buffer[..], id)
  {
    var offset := id * DIMENSION;
    buffer[offset] := value.first;
    buffer[offset + 1] := value.second;
    buffer[offset + 2] := value.third;
  }

  ghost predicate HoldsFieldUpTo<T>(a: Arith<T>, basis: seq<BasisFunction<T>>, coefficients: seq<T>,
                                    coordinates: seq<T>, field: seq<T>, count: nat)
    requires ThreeFunctions(basis)
  {
    forall id :: 0 <= id < count ==> HoldsFieldAt(a, basis, coefficients, coordinates, field, id)
  }

  lemma KeepsFieldAt<T>(a: Arith<T>, basis: seq<BasisFunction<T>>, coefficients: seq<T>, coordinates: seq<T>,
                        before: seq<T>, after: seq<T>, id: nat, i: nat)
    requires ThreeFunctions(basis) && SameExcept(before, after, id) && i != id
    requires HoldsFieldAt(a, basis, coefficients, coordinates, before, i)
    ensures HoldsFieldAt(a, basis, coefficients, coordinates, after, i)
  {
    assert TripleAt(after, i) == TripleAt(before, i);
  }

  lemma ExtendsField<T>(a: Arith<T>, basis: seq<BasisFunction<T>>, coefficients: seq<T>, coordinates: seq<T>,
                        before: seq<T>, after: seq<T>, id: nat, value: Triple<T>)
    requires ThreeFunctions(basis) && SameExcept(before, after, id)
    requires 3 * id + 2 < |coordinates| && 3 * id + 2 < |after|
    requires HoldsFieldUpTo(a, basis, coefficients, coordinates, before, id)
    requires value == FieldValue(a, basis, coefficients, TripleAt(coordinates, id)) && TripleAt(after, id) == value
    ensures HoldsFieldUpTo(a, basis, coefficients, coordinates, after, id + 1)
  {
    forall i | 0 <= i < id
      ensures HoldsFieldAt(a, basis, coefficients, coordinates, after, i)
    {
      KeepsFieldAt(a, basis, coefficients, coordinates, before, after, id, i);
    }
  }

  /** One iteration of the kernel. */
  method EvaluateAt<T>(a: Arith<T>, basis: seq<BasisFunction<T>>, coefficients: seq<T>, coordinates: seq<T>,
                       buffer: array<T>, id: nat)
    requires ThreeFunctions(basis) && buffer.Length == |coordinates| && 3 * id + 2 < |coordinates|
    requires HoldsFieldUpTo(a, basis, coefficients, coordinates, buffer[..], id)
    modifies buffer
    ensures HoldsFieldUpTo(a, basis, coefficients, coordinates, buffer[..], id + 1)
  {
    var offset := id * DIMENSION;
    var r, phi, z := coordinates[offset], coordinates[offset + 1], coordinates[offset + 2];
    ghost var p := Triple(r, phi, z);
    assert p == TripleAt(coordinates, id);
    var components := [a.zero, a.zero, a.zero];
    for mode := 0 to |coefficients|
      invariant HaveSummed(a, basis, coefficients, p, components, mode, 0)
    {
      var coefficient := coefficients[mode];
      for component := 0 to DIMENSION
        invariant HaveSummed(a, basis, coefficients, p, components, mode, component)
      {
        var term := a.mul(coefficient, basis[component](mode, r, phi, z));
        components := components[component := a.add(components[component], term)];
      }
    }
    ghost var before := buffer[..];
    StoreTriple(buffer, id, Triple(components[0], components[1], components[2]));
    ExtendsField(a, basis, coefficients, coordinates, before, buffer[..], id, FieldValue(a, basis, coefficients, p));
  }

  /** `calculate_field_kernel`: fills the field buffer in place, or reports which size is wrong and leaves
      the buffer alone. */
  method CalculateFieldKernel<T>(a: Arith<T>, basis: seq<BasisFunction<T>>, coefficients: seq<T>,
                                 coordinates: seq<T>, buffer: array<T>)
    returns (result: Result<(), KernelError>)
    requires ThreeFunctions(basis)
    modifies buffer
    ensures |coordinates| % DIMENSION != 0 ==> result == Err(CoordinatesNotTriples)
    ensures |coordinates| % DIMENSION == 0 && buffer.Length != |coordinates| ==> result == Err(FieldSizeMismatch)
    ensures |coordinates| % DIMENSION == 0 && buffer.Length == |coordinates| ==>
              result == Ok(()) && HoldsField(a, basis, coefficients, coordinates, buffer[..])
    ensures result.Err? ==> buffer[..] == old(buffer[..])
  {
    if |coordinates| % DIMENSION != 0 {
      return Err(CoordinatesNotTriples);
    }
    var pointCount := |coordinates| / DIMENSION;
    if buffer.Length != pointCount * DIMENSION {
      return Err(FieldSizeMismatch);
    }
    for id := 0 to pointCount
      invariant HoldsFieldUpTo(a, basis, coefficients, coordinates, buffer[..], id)
    {
      EvaluateAt(a, basis, coefficients, coordinates, buffer, id);
    }
    result := Ok(());
  }

  /** The field buffer is determined by the coefficients and the coordinates. */
  lemma FieldIsDetermined<T>(a: Arith<T>, basis: seq<BasisFunction<T>>, coefficients: seq<T>,
                             coordinates: seq<T>, field: seq<T>, other: seq<T>)
    requires ThreeFunctions(basis)
    requires HoldsField(a, basis, coefficients, coordinates, field)
    requires HoldsField(a, basis, coefficients, coordinates, other)
    ensures field == other
  {
    forall id | 0 <= id < |field| / DIMENSION
      ensures TripleAt(field, id) == TripleAt(other, id)
    {
      assert HoldsFieldAt(a, basis, coefficients, coordinates, field, id);
      assert HoldsFieldAt(a, basis, coefficients, coordinates, other, id);
    }
    TriplesDetermine(field, other);
  }

  /** A buffer of triples is determined by them. */
  lemma TriplesDetermine<T>(a: seq<T>, b: seq<T>)
    requires |a| == |b| && |a| % DIMENSION == 0
    requires forall id :: 0 <= id < |a| / DIMENSION ==> TripleAt(a, id) == TripleAt(b, id)
    ensures a == b
  {
    forall k | 0 <= k < |a|
      ensures a[k] == b[k]
    {
      var id := k / 3;
      assert TripleAt(a, id) == TripleAt(b, id);
      assert k == 3 * id || k == 3 * id + 1 || k == 3 * id + 2;
    }
  }
}
