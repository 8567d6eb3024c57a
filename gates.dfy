/**
 * Single-qubit gates on a dense state vector of 2^numQubits amplitudes:
 * `apply_gate`, which updates every amplitude pair that differs only in the
 * target qubit, and the two gates built on it, `h` and `z`.
 *
 * The device's `parallel_for` becomes a sequential loop over the pair
 * numbers; AnyOrder and OrderIrrelevant show that the pairs are disjoint
 * enough for the result not to depend on the order of the work items.
 */
module Gates {
  import opened Complexes
  import opened BitIndex

  /** The matrix [[a, b], [c, d]] applied to each pair (zero amplitude; one amplitude). */
  datatype Gate = Gate(a: Complex, b: Complex, c: Complex, d: Complex)

  /** New zero amplitude: `A * zero_amp + B * one_amp`. */
  function Row0(g: Gate, zero: Complex, one: Complex): (amp: Complex)
  {
    Add(Mul(g.a, zero), Mul(g.b, one))
  }

  /** New one amplitude: `C * zero_amp + D * one_amp`. */
  function Row1(g: Gate, zero: Complex, one: Complex): (amp: Complex)
  {
    Add(Mul(g.c, zero), Mul(g.d, one))
  }

  /** A state of `numQubits` qubits has 2^numQubits amplitudes; `target` names one of its qubits. */
  ghost predicate Shape(len: nat, numQubits: nat, target: nat)
  {
    len == Pow2(numQubits) && target < numQubits
  }

  /** Where index m of a k-qubit state sits among the pairs for target t. */
  lemma IndexFacts(m: nat, k: nat, t: nat)
    requires t < k && m < Pow2(k)
    ensures Compress(m, t) < Pow2(k - 1)
    ensures Bit(m, t) == 0 ==> m == ZeroIndex(Compress(m, t), t) && m + Pow2(t) < Pow2(k)
    ensures Bit(m, t) == 1 ==> m == ZeroIndex(Compress(m, t), t) + Pow2(t)
  {
    CompressBound(m, t, k);
    ZeroIndexCompress(m, t);
    ZeroIndexBound(Compress(m, t), t, k);
  }

  /** Where the two members of pair `id` sit. */
  lemma PairFacts(id: nat, k: nat, t: nat)
    requires t < k && id < Pow2(k - 1)
    ensures ZeroIndex(id, t) + Pow2(t) < Pow2(k)
    ensures Bit(ZeroIndex(id, t), t) == 0 && Bit(ZeroIndex(id, t) + Pow2(t), t) == 1
    ensures Compress(ZeroIndex(id, t), t) == id && Compress(ZeroIndex(id, t) + Pow2(t), t) == id
  {
    ZeroIndexBound(id, t, k);
    CompressPartner(id, t);
  }

  /**
   * The value index m takes once its pair has been updated by g: the first
   * matrix row when bit `target` of m is 0, the second row when it is 1.
   */
  ghost function Updated(s: seq<Complex>, numQubits: nat, target: nat, g: Gate, m: nat): (amp: Complex)
    requires Shape(|s|, numQubits, target) && m < |s|
  {
    IndexFacts(m, numQubits, target);
    var p := Pow2(target);
    if Bit(m, target) == 0 then Row0(g, s[m], s[m + p])
    else Row1(g, s[m - p], s[m])
  }

  /**
   * The state once the pairs numbered below `count` have been updated and
   * every other amplitude left alone: what `apply_gate` leaves behind when
   * called with `numStates == count`.
   */
  ghost function Applied(s: seq<Complex>, numQubits: nat, target: nat, g: Gate, count: nat): (r: seq<Complex>)
    requires Shape(|s|, numQubits, target)
    ensures |r| == |s|
  {
    seq(|s|, m requires 0 <= m < |s| =>
      if Compress(m, target) < count then Updated(s, numQubits, target, g, m) else s[m])
  }

  /** One work item of the parallel loop: the in-place update of pair `id`. */
  ghost function PairStep(s: seq<Complex>, numQubits: nat, target: nat, g: Gate, id: nat): (r: seq<Complex>)
    requires Shape(|s|, numQubits, target) && id < Pow2(numQubits - 1)
    ensures |r| == |s|
  {
    PairFacts(id, numQubits, target);
    var zero := ZeroIndex(id, target);
    var one := zero + Pow2(target);
    s[zero := Row0(g, s[zero], s[one])][one := Row1(g, s[zero], s[one])]
  }

  /** The work items run one after another in the given order. */
  ghost function ApplyInOrder(s: seq<Complex>, numQubits: nat, target: nat, g: Gate, order: seq<nat>): (r: seq<Complex>)
    requires Shape(|s|, numQubits, target)
    requires forall i :: 0 <= i < |order| ==> order[i] < Pow2(numQubits - 1)
    ensures |r| == |s|
  {
    if order == [] then s
    else
      var last := |order| - 1;
      PairStep(ApplyInOrder(s, numQubits, target, g, order[..last]), numQubits, target, g, order[last])
  }

  /** Pair `id`'s work item changes exactly the two members of that pair, as Updated says. */
  lemma PairStepAt(s: seq<Complex>, numQubits: nat, target: nat, g: Gate, id: nat, m: nat)
    requires Shape(|s|, numQubits, target) && id < Pow2(numQubits - 1) && m < |s|
    ensures PairStep(s, numQubits, target, g, id)[m]
         == if Compress(m, target) == id then Updated(s, numQubits, target, g, m) else s[m]
  {
    PairFacts(id, numQubits, target);
    IndexFacts(m, numQubits, target);
    var zero := ZeroIndex(id, target);
    if Compress(m, target) == id {
      if Bit(m, target) == 0 {
        assert m == zero;
      } else {
        assert m == zero + Pow2(target);
      }
    } else {
      assert m != zero && m != zero + Pow2(target);
    }
  }

  /** Updated at m reads only the two members of m's pair. */
  lemma UpdatedAgree(s: seq<Complex>, s': seq<Complex>, numQubits: nat, target: nat, g: Gate, m: nat)
    requires Shape(|s|, numQubits, target) && |s'| == |s| && m < |s|
    requires var zero := ZeroIndex(Compress(m, target), target);
             && zero + Pow2(target) < |s|
             && s'[zero] == s[zero] && s'[zero + Pow2(target)] == s[zero + Pow2(target)]
    ensures Updated(s', numQubits, target, g, m) == Updated(s, numQubits, target, g, m)
  {
    IndexFacts(m, numQubits, target);
  }

  /** AppliedStep at one index. */
  lemma AppliedStepAt(s: seq<Complex>, numQubits: nat, target: nat, g: Gate, id: nat, m: nat)
    requires Shape(|s|, numQubits, target) && id < Pow2(numQubits - 1) && m < |s|
    ensures Applied(s, numQubits, target, g, id + 1)[m]
         == PairStep(Applied(s, numQubits, target, g, id), numQubits, target, g, id)[m]
  {
    var before := Applied(s, numQubits, target, g, id);
    PairStepAt(before, numQubits, target, g, id, m);
    if Compress(m, target) == id {
      PairFacts(id, numQubits, target);
      var zero := ZeroIndex(id, target);
      assert before[zero] == s[zero] && before[zero + Pow2(target)] == s[zero + Pow2(target)];
      UpdatedAgree(s, before, numQubits, target, g, m);
    }
  }

  /** Updating pair `id` after the pairs below it is Applied with one more pair. */
  lemma AppliedStep(s: seq<Complex>, numQubits: nat, target: nat, g: Gate, id: nat)
    requires Shape(|s|, numQubits, target) && id < Pow2(numQubits - 1)
    ensures Applied(s, numQubits, target, g, id + 1)
         == PairStep(Applied(s, numQubits, target, g, id), numQubits, target, g, id)
  {
    forall m | 0 <= m < |s|
      ensures Applied(s, numQubits, target, g, id + 1)[m]
           == PairStep(Applied(s, numQubits, target, g, id), numQubits, target, g, id)[m]
    {
      AppliedStepAt(s, numQubits, target, g, id, m);
    }
  }

  /**
   * `apply_gate`: for every pair number below `numStates`, overwrite the
   * amplitudes at `zero_state = nth_cleared(id, target)` and
   * `one_state = zero_state | (1 << target)` with the matrix product.
   */
  method ApplyGate(state: array<Complex>, numStates: nat, target: nat, g: Gate, ghost numQubits: nat)
    requires Shape(state.Length, numQubits, target) && numStates <= Pow2(numQubits - 1)
    modifies state
    ensures state[..] == Applied(old(state[..]), numQubits, target, g, numStates)
  {
    ghost var s0 := state[..];
    var id := 0;
    while id < numStates
      invariant id <= numStates
      invariant state[..] == Applied(s0, numQubits, target, g, id)
    {
      var zero := NthCleared(id, target);
      var one := Partner(zero, target);
      assert zero == ZeroIndex(id, target) && one == zero + Pow2(target) && one < state.Length by {
        NthClearedIsZeroIndex(id, target);
        PairFacts(id, numQubits, target);
        PartnerAdds(zero, target);
      }
      AppliedStep(s0, numQubits, target, g, id);
      ghost var before := state[..];
      var zeroAmp := state[zero];
      var oneAmp := state[one];
      state[zero] := Add(Mul(g.a, zeroAmp), Mul(g.b, oneAmp));
      state[one] := Add(Mul(g.c, zeroAmp), Mul(g.d, oneAmp));
      assert state[..] == PairStep(before, numQubits, target, g, id) by {
        assert state[..] == before[zero := Row0(g, zeroAmp, oneAmp)][one := Row1(g, zeroAmp, oneAmp)];
      }
      id := id + 1;
    }
  }

  /**
   * Pair view of Applied: each processed pair holds the matrix product of
   * its old amplitudes.
   */
  lemma AppliedPair(s: seq<Complex>, numQubits: nat, target: nat, g: Gate, count: nat, id: nat)
    requires Shape(|s|, numQubits, target) && count <= Pow2(numQubits - 1) && id < count
    ensures var zero := ZeroIndex(id, target);
            var one := zero + Pow2(target);
            && one < |s|
            && Applied(s, numQubits, target, g, count)[zero] == Row0(g, s[zero], s[one])
            && Applied(s, numQubits, target, g, count)[one] == Row1(g, s[zero], s[one])
  {
    PairFacts(id, numQubits, target);
  }

  /** Every index outside the processed pairs keeps its old amplitude. */
  lemma AppliedElsewhere(s: seq<Complex>, numQubits: nat, target: nat, g: Gate, count: nat, m: nat)
    requires Shape(|s|, numQubits, target) && count <= Pow2(numQubits - 1) && m < |s|
    requires forall id :: 0 <= id < count ==> m != ZeroIndex(id, target) && m != ZeroIndex(id, target) + Pow2(target)
    ensures Applied(s, numQubits, target, g, count)[m] == s[m]
  {
    IndexFacts(m, numQubits, target);
    var id := Compress(m, target);
    if id < count {
      assert false;
    }
  }

  /**
   * One more work item, for a pair not yet processed: if `before` holds the
   * updated pairs of `done` and the old amplitudes elsewhere, pair `id` is
   * added to the updated ones.
   */
  lemma AnyOrderAt(s: seq<Complex>, numQubits: nat, target: nat, g: Gate, before: seq<Complex>,
                   done: seq<nat>, id: nat, m: nat)
    requires Shape(|s|, numQubits, target) && |before| == |s|
    requires id < Pow2(numQubits - 1) && id !in done && m < |s|
    requires forall x :: 0 <= x < |s| ==>
      before[x] == if Compress(x, target) in done then Updated(s, numQubits, target, g, x) else s[x]
    ensures PairStep(before, numQubits, target, g, id)[m]
         == if Compress(m, target) in done + [id] then Updated(s, numQubits, target, g, m) else s[m]
  {
    PairStepAt(before, numQubits, target, g, id, m);
    if Compress(m, target) == id {
      PairFacts(id, numQubits, target);
      var zero := ZeroIndex(id, target);
      assert before[zero] == s[zero] && before[zero + Pow2(target)] == s[zero + Pow2(target)];
      UpdatedAgree(s, before, numQubits, target, g, m);
    }
  }

  /**
   * Running the work items in any order without repeats updates exactly the
   * pairs named, each from the amplitudes it had before the call.
   */
  lemma {:induction false} AnyOrder(s: seq<Complex>, numQubits: nat, target: nat, g: Gate, order: seq<nat>)
    requires Shape(|s|, numQubits, target)
    requires forall i :: 0 <= i < |order| ==> order[i] < Pow2(numQubits - 1)
    requires forall i, j :: 0 <= i < j < |order| ==> order[i] != order[j]
    ensures forall m :: 0 <= m < |s| ==>
      ApplyInOrder(s, numQubits, target, g, order)[m]
      == if Compress(m, target) in order then Updated(s, numQubits, target, g, m) else s[m]
  {
    if order != [] {
      var last := |order| - 1;
      var id := order[last];
      var prefix := order[..last];
      AnyOrder(s, numQubits, target, g, prefix);
      var before := ApplyInOrder(s, numQubits, target, g, prefix);
      assert id !in prefix;
      assert order == prefix + [id];
      forall m | 0 <= m < |s|
        ensures ApplyInOrder(s, numQubits, target, g, order)[m]
             == if Compress(m, target) in order then Updated(s, numQubits, target, g, m) else s[m]
      {
        AnyOrderAt(s, numQubits, target, g, before, prefix, id, m);
      }
    }
  }

  /**
   * Any duplicate-free order of the pair numbers below numStates gives the
   * same state as the sequential loop of ApplyGate.
   */
  lemma OrderIrrelevant(s: seq<Complex>, numQubits: nat, target: nat, g: Gate, numStates: nat, order: seq<nat>)
    requires Shape(|s|, numQubits, target) && numStates <= Pow2(numQubits - 1)
    requires forall i, j :: 0 <= i < j < |order| ==> order[i] != order[j]
    requires forall i :: 0 <= i < |order| ==> order[i] < numStates
    requires forall id :: 0 <= id < numStates ==> id in order
    ensures ApplyInOrder(s, numQubits, target, g, order) == Applied(s, numQubits, target, g, numStates)
  {
    AnyOrder(s, numQubits, target, g, order);
  }

  // ---------------------------------------------------------------------
  // The gate library

  /** `h`: coefficients 1, 1, 1, -1, each divided by the square root of 2. */
  function HGate(sqrt2: real): (g: Gate)
    requires sqrt2 != 0.0
  {
    Gate(DivReal(One, sqrt2), DivReal(One, sqrt2), DivReal(One, sqrt2), DivReal(Complex(-1.0, 0.0), sqrt2))
  }

  /** `z`: coefficients 1, 0, 0, -1. */
  const ZGate := Gate(One, Zero, Zero, Complex(-1.0, 0.0))

  /** Every pair of the state updated by g: Applied once all pairs are done. */
  ghost function AllPairs(s: seq<Complex>, numQubits: nat, target: nat, g: Gate): (r: seq<Complex>)
    requires Shape(|s|, numQubits, target)
    ensures |r| == |s|
  {
    seq(|s|, m requires 0 <= m < |s| => Updated(s, numQubits, target, g, m))
  }

  /** Processing all 2^(numQubits-1) pair numbers updates every pair. */
  lemma AppliedAll(s: seq<Complex>, numQubits: nat, target: nat, g: Gate)
    requires Shape(|s|, numQubits, target)
    ensures Applied(s, numQubits, target, g, Pow2(numQubits - 1)) == AllPairs(s, numQubits, target, g)
  {
    forall m | 0 <= m < |s|
      ensures Compress(m, target) < Pow2(numQubits - 1)
    {
      IndexFacts(m, numQubits, target);
    }
  }

  /** The Hadamard matrix with factor k: [[k, k], [k, -k]]. */
  function Hadamard(k: real): (g: Gate)
  {
    Gate(Complex(k, 0.0), Complex(k, 0.0), Complex(k, 0.0), Complex(-k, 0.0))
  }

  /** `h`'s coefficients are the Hadamard matrix with factor 1/sqrt2. */
  lemma HGateIsHadamard(sqrt2: real)
    requires sqrt2 != 0.0
    ensures HGate(sqrt2) == Hadamard(1.0 / sqrt2)
  {
    assert (-1.0) / sqrt2 == -(1.0 / sqrt2);
  }

  /** What `h` leaves: every pair of the state updated by the Hadamard matrix with factor k. */
  ghost function HApplied(s: seq<Complex>, numQubits: nat, target: nat, k: real): (r: seq<Complex>)
    requires Shape(|s|, numQubits, target)
    ensures |r| == |s|
  {
    AllPairs(s, numQubits, target, Hadamard(k))
  }

  /** What `z` leaves: every pair of the state updated by ZGate. */
  ghost function ZApplied(s: seq<Complex>, numQubits: nat, target: nat): (r: seq<Complex>)
    requires Shape(|s|, numQubits, target)
    ensures |r| == |s|
  {
    AllPairs(s, numQubits, target, ZGate)
  }

  /** `std::pow(2, numQubits) / 2`, the number of pairs. */
  lemma HalfPow2(numQubits: nat)
    requires numQubits >= 1
    ensures Pow2(numQubits) / 2 == Pow2(numQubits - 1)
  {
  }

  /**
   * `h`. The square root of 2 that the source computes with
   * `std::sqrt(2.0f)` is passed in, characterised by its square.
   */
  method H(state: array<Complex>, numQubits: nat, target: nat, sqrt2: real)
    requires Shape(state.Length, numQubits, target)
    requires sqrt2 > 0.0 && sqrt2 * sqrt2 == 2.0
    modifies state
    ensures state[..] == HApplied(old(state[..]), numQubits, target, 1.0 / sqrt2)
  {
    HalfPow2(numQubits);
    HGateIsHadamard(sqrt2);
    AppliedAll(state[..], numQubits, target, HGate(sqrt2));
    ApplyGate(state, Pow2(numQubits) / 2, target, HGate(sqrt2), numQubits);
  }

  /** `z`. */
  method Z(state: array<Complex>, numQubits: nat, target: nat)
    requires Shape(state.Length, numQubits, target)
    modifies state
    ensures state[..] == ZApplied(old(state[..]), numQubits, target)
  {
    HalfPow2(numQubits);
    AppliedAll(state[..], numQubits, target, ZGate);
    ApplyGate(state, Pow2(numQubits) / 2, target, ZGate, numQubits);
  }

  // ---------------------------------------------------------------------
  // Properties of the two gates

  /** `z` negates exactly the amplitudes whose bit `target` is set. */
  lemma ZAt(s: seq<Complex>, numQubits: nat, target: nat, m: nat)
    requires Shape(|s|, numQubits, target) && m < |s|
    ensures ZApplied(s, numQubits, target)[m] == if Bit(m, target) == 1 then Neg(s[m]) else s[m]
  {
    IndexFacts(m, numQubits, target);
  }

  /** `z` applied twice restores the state. */
  lemma ZTwice(s: seq<Complex>, numQubits: nat, target: nat)
    requires Shape(|s|, numQubits, target)
    ensures ZApplied(ZApplied(s, numQubits, target), numQubits, target) == s
  {
    var once := ZApplied(s, numQubits, target);
    forall m | 0 <= m < |s|
      ensures ZApplied(once, numQubits, target)[m] == s[m]
    {
      ZAt(s, numQubits, target, m);
      ZAt(once, numQubits, target, m);
    }
  }

  /** The basis state |0...0>: amplitude 1 at index 0, 0 elsewhere. */
  ghost function Ground(numQubits: nat): (s: seq<Complex>)
  {
    seq(Pow2(numQubits), m => if m == 0 then One else Zero)
  }

  /** |0...0> is a fixed point of `z` on every qubit. */
  lemma ZFixesGround(numQubits: nat, target: nat)
    requires target < numQubits
    ensures ZApplied(Ground(numQubits), numQubits, target) == Ground(numQubits)
  {
    var g := Ground(numQubits);
    forall m | 0 <= m < |g|
      ensures ZApplied(g, numQubits, target)[m] == g[m]
    {
      ZAt(g, numQubits, target, m);
      if m == 0 {
        BitOfZero(target);
      }
    }
  }

  /** The factor 1/sqrt2 that `h` multiplies by squares to 1/2. */
  lemma InvSqrt2(sqrt2: real)
    requires sqrt2 > 0.0 && sqrt2 * sqrt2 == 2.0
    ensures (1.0 / sqrt2) * (1.0 / sqrt2) == 0.5
  {
  }

  /** The Hadamard rows are k(x + y) and k(x - y). */
  lemma HRows(k: real, x: Complex, y: Complex)
    ensures Row0(Hadamard(k), x, y) == Scale(k, Add(x, y))
    ensures Row1(Hadamard(k), x, y) == Scale(k, Sub(x, y))
  {
  }

  /** `h` maps each pair (x, y) to (k(x + y), k(x - y)). */
  lemma HPair(s: seq<Complex>, numQubits: nat, target: nat, k: real, id: nat)
    requires Shape(|s|, numQubits, target) && id < Pow2(numQubits - 1)
    ensures var zero := ZeroIndex(id, target);
            var one := zero + Pow2(target);
            && one < |s|
            && HApplied(s, numQubits, target, k)[zero] == Scale(k, Add(s[zero], s[one]))
            && HApplied(s, numQubits, target, k)[one] == Scale(k, Sub(s[zero], s[one]))
  {
    PairFacts(id, numQubits, target);
    var zero := ZeroIndex(id, target);
    HRows(k, s[zero], s[zero + Pow2(target)]);
  }

  /** k(k(x + y) + k(x - y)) == x and k(k(x + y) - k(x - y)) == y when k*k == 1/2. */
  lemma HPairInverse(k: real, x: Complex, y: Complex, once0: Complex, once1: Complex)
    requires k * k == 0.5
    requires once0 == Scale(k, Add(x, y)) && once1 == Scale(k, Sub(x, y))
    ensures Scale(k, Add(once0, once1)) == x
    ensures Scale(k, Sub(once0, once1)) == y
  {
    assert k * (k * (x.re + y.re) + k * (x.re - y.re)) == 2.0 * (k * k) * x.re;
    assert k * (k * (x.im + y.im) + k * (x.im - y.im)) == 2.0 * (k * k) * x.im;
    assert k * (k * (x.re + y.re) - k * (x.re - y.re)) == 2.0 * (k * k) * y.re;
    assert k * (k * (x.im + y.im) - k * (x.im - y.im)) == 2.0 * (k * k) * y.im;
  }

  /** Seen from one pair, the Hadamard matrix applied twice restores both amplitudes. */
  lemma HTwicePair(s: seq<Complex>, numQubits: nat, target: nat, k: real, id: nat)
    requires Shape(|s|, numQubits, target) && id < Pow2(numQubits - 1) && k * k == 0.5
    ensures ZeroIndex(id, target) + Pow2(target) < |s|
    ensures var zero := ZeroIndex(id, target);
            HApplied(HApplied(s, numQubits, target, k), numQubits, target, k)[zero] == s[zero]
    ensures var one := ZeroIndex(id, target) + Pow2(target);
            HApplied(HApplied(s, numQubits, target, k), numQubits, target, k)[one] == s[one]
  {
    var zero := ZeroIndex(id, target);
    var one := zero + Pow2(target);
    var once := HApplied(s, numQubits, target, k);
    var twice := HApplied(once, numQubits, target, k);
    HPair(s, numQubits, target, k, id);
    HPair(once, numQubits, target, k, id);
    HPairInverse(k, s[zero], s[one], once[zero], once[one]);
    assert twice[zero] == Scale(k, Add(once[zero], once[one]));
    assert twice[one] == Scale(k, Sub(once[zero], once[one]));
  }

  /** With k*k == 1/2, the Hadamard pair map keeps |x|^2 + |y|^2. */
  lemma HadamardNorm(k: real, x: Complex, y: Complex)
    requires k * k == 0.5
    ensures Norm2(Scale(k, Add(x, y))) + Norm2(Scale(k, Sub(x, y))) == Norm2(x) + Norm2(y)
  {
    assert (k * (x.re + y.re)) * (k * (x.re + y.re)) + (k * (x.re - y.re)) * (k * (x.re - y.re))
        == 2.0 * (k * k) * (x.re * x.re + y.re * y.re);
    assert (k * (x.im + y.im)) * (k * (x.im + y.im)) + (k * (x.im - y.im)) * (k * (x.im - y.im))
        == 2.0 * (k * k) * (x.im * x.im + y.im * y.im);
  }

  /** `h` keeps the total probability |a|^2 + |b|^2 of every pair. */
  lemma HPairNorm(s: seq<Complex>, numQubits: nat, target: nat, k: real, id: nat)
    requires Shape(|s|, numQubits, target) && id < Pow2(numQubits - 1) && k * k == 0.5
    ensures var zero := ZeroIndex(id, target);
            var one := zero + Pow2(target);
            && one < |s|
            && Norm2(HApplied(s, numQubits, target, k)[zero]) + Norm2(HApplied(s, numQubits, target, k)[one])
               == Norm2(s[zero]) + Norm2(s[one])
  {
    HPair(s, numQubits, target, k, id);
    var zero := ZeroIndex(id, target);
    HadamardNorm(k, s[zero], s[zero + Pow2(target)]);
  }

  /** `h` applied twice to the same qubit restores the state. */
  lemma HTwice(s: seq<Complex>, numQubits: nat, target: nat, sqrt2: real)
    requires Shape(|s|, numQubits, target)
    requires sqrt2 > 0.0 && sqrt2 * sqrt2 == 2.0
    ensures HApplied(HApplied(s, numQubits, target, 1.0 / sqrt2), numQubits, target, 1.0 / sqrt2) == s
  {
    InvSqrt2(sqrt2);
    var k := 1.0 / sqrt2;
    forall m | 0 <= m < |s|
      ensures HApplied(HApplied(s, numQubits, target, k), numQubits, target, k)[m] == s[m]
    {
      HTwiceAt(s, numQubits, target, k, m);
    }
  }

  /** HTwicePair, seen from index m. */
  lemma HTwiceAt(s: seq<Complex>, numQubits: nat, target: nat, k: real, m: nat)
    requires Shape(|s|, numQubits, target) && m < |s| && k * k == 0.5
    ensures HApplied(HApplied(s, numQubits, target, k), numQubits, target, k)[m] == s[m]
  {
    IndexFacts(m, numQubits, target);
    HTwicePair(s, numQubits, target, k, Compress(m, target));
  }

  // ---------------------------------------------------------------------
  // Total probability

  /** `z` keeps the total probability of the state. */
  lemma ZSumNorm(s: seq<Complex>, numQubits: nat, target: nat)
    requires Shape(|s|, numQubits, target)
    ensures SumNorm(ZApplied(s, numQubits, target)) == SumNorm(s)
  {
    var z := ZApplied(s, numQubits, target);
    forall m | 0 <= m < |z|
      ensures Norm2(z[m]) == Norm2(s[m])
    {
      ZAt(s, numQubits, target, m);
      Norm2Neg(s[m]);
    }
    SumRangePointwise(z, s, 0, |s|);
  }

  /**
   * Going from a to b keeps |x|^2 + |y|^2 of every pair for qubit t: the
   * zero member m (bit t clear) and its partner m + 2^t.
   */
  ghost predicate KeepsPairNorms(a: seq<Complex>, b: seq<Complex>, t: nat)
  {
    && |a| == |b|
    && forall m {:trigger Bit(m, t)} :: 0 <= m < |a| && Bit(m, t) == 0 ==>
         m + Pow2(t) < |a| && Norm2(a[m]) + Norm2(a[m + Pow2(t)]) == Norm2(b[m]) + Norm2(b[m + Pow2(t)])
  }

  /** HPairNorm, seen from the zero member m of a pair. */
  lemma HPairNormAt(s: seq<Complex>, numQubits: nat, target: nat, k: real, m: nat)
    requires Shape(|s|, numQubits, target) && k * k == 0.5 && m < |s| && Bit(m, target) == 0
    ensures var h := HApplied(s, numQubits, target, k);
            var one := m + Pow2(target);
            && one < |s|
            && Norm2(s[m]) + Norm2(s[one]) == Norm2(h[m]) + Norm2(h[one])
  {
    IndexFacts(m, numQubits, target);
    HPairNorm(s, numQubits, target, k, Compress(m, target));
  }

  /** `h` keeps the total probability of every pair. */
  lemma HKeepsPairNorms(s: seq<Complex>, numQubits: nat, target: nat, k: real)
    requires Shape(|s|, numQubits, target) && k * k == 0.5
    ensures KeepsPairNorms(s, HApplied(s, numQubits, target, k), target)
  {
    forall m | 0 <= m < |s| && Bit(m, target) == 0
      ensures m + Pow2(target) < |s|
      ensures var h := HApplied(s, numQubits, target, k);
              Norm2(s[m]) + Norm2(s[m + Pow2(target)]) == Norm2(h[m]) + Norm2(h[m + Pow2(target)])
    {
      HPairNormAt(s, numQubits, target, k, m);
    }
  }

  /** In the block starting at 2 * first, offset i and offset 2^t + i form a pair. */
  lemma BlockPairAt(a: seq<Complex>, b: seq<Complex>, t: nat, first: nat, i: nat)
    requires KeepsPairNorms(a, b, t)
    requires first % Pow2(t) == 0 && 2 * (first + Pow2(t)) <= |a| && i < Pow2(t)
    ensures var zero := 2 * first + i;
            Norm2(a[zero]) + Norm2(a[zero + Pow2(t)]) == Norm2(b[zero]) + Norm2(b[zero + Pow2(t)])
  {
    AlignedZeroIndex(first, i, t);
    ZeroIndexBits(first + i, t, 0);
  }

  /**
   * The block of 2^(t+1) amplitudes starting at 2 * first, for `first` a
   * multiple of 2^t, consists of whole pairs: its lower half the zero
   * members and its upper half their partners, in the same order. So the
   * block keeps its total.
   */
  lemma BlockNorm(a: seq<Complex>, b: seq<Complex>, t: nat, first: nat)
    requires KeepsPairNorms(a, b, t)
    requires first % Pow2(t) == 0 && 2 * (first + Pow2(t)) <= |a|
    ensures SumRange(b, 2 * first, 2 * (first + Pow2(t))) == SumRange(a, 2 * first, 2 * (first + Pow2(t)))
  {
    var p := Pow2(t);
    var lo, mid, hi := 2 * first, 2 * first + p, 2 * (first + p);
    forall i | lo <= i < mid
      ensures Norm2(a[i]) + Norm2(a[mid + (i - lo)]) == Norm2(b[i]) + Norm2(b[mid + (i - lo)])
    {
      BlockPairAt(a, b, t, first, i - lo);
    }
    SumRangePaired(a, b, lo, mid, p);
    SumRangeJoin(a, b, lo, mid, hi);
  }

  /** The first 2 * first amplitudes, `first` a multiple of 2^t, keep their total. */
  lemma {:induction false} BlocksNorm(a: seq<Complex>, b: seq<Complex>, t: nat, first: nat)
    requires KeepsPairNorms(a, b, t)
    requires first % Pow2(t) == 0 && 2 * first <= |a|
    ensures SumRange(b, 0, 2 * first) == SumRange(a, 0, 2 * first)
  {
    if first > 0 {
      var p := Pow2(t);
      AlignedPred(first, p);
      var mid, end := 2 * (first - p), 2 * first;
      BlocksNorm(a, b, t, first - p);
      BlockNorm(a, b, t, first - p);
      SumRangeJoin(a, b, 0, mid, end);
    }
  }

  /** A gate that keeps the total of every pair keeps the total probability of the state. */
  lemma PairNormsSumNorm(a: seq<Complex>, b: seq<Complex>, numQubits: nat, t: nat)
    requires Shape(|a|, numQubits, t) && KeepsPairNorms(a, b, t)
    ensures SumNorm(b) == SumNorm(a)
  {
    Pow2Aligned(t, numQubits - 1);
    BlocksNorm(a, b, t, Pow2(numQubits - 1));
  }

  /** `h` keeps the total probability of the state when k*k == 1/2. */
  lemma HSumNorm(s: seq<Complex>, numQubits: nat, target: nat, k: real)
    requires Shape(|s|, numQubits, target) && k * k == 0.5
    ensures SumNorm(HApplied(s, numQubits, target, k)) == SumNorm(s)
  {
    HKeepsPairNorms(s, numQubits, target, k);
    PairNormsSumNorm(s, HApplied(s, numQubits, target, k), numQubits, target);
  }

  /** x^n. */
  function Power(x: real, n: nat): (r: real)
  {
    if n == 0 then 1.0 else x * Power(x, n - 1)
  }

  /** `h` on qubits 0, 1, ..., j - 1 in turn, as the Hadamard test driver does for all qubits. */
  ghost function HadamardEach(s: seq<Complex>, numQubits: nat, j: nat, k: real): (r: seq<Complex>)
    requires |s| == Pow2(numQubits) && j <= numQubits
    ensures |r| == |s|
  {
    if j == 0 then s
    else HApplied(HadamardEach(s, numQubits, j - 1, k), numQubits, j - 1, k)
  }

  /**
   * One Hadamard layer of the test driver, seen from a pair whose zero
   * member holds c and whose one member holds 0: both end up holding kc.
   */
  lemma LayerPairInside(prev: seq<Complex>, numQubits: nat, t: nat, k: real, c: Complex, id: nat)
    requires Shape(|prev|, numQubits, t) && id < Pow2(numQubits - 1)
    requires ZeroIndex(id, t) + Pow2(t) < |prev|
    requires prev[ZeroIndex(id, t)] == c && prev[ZeroIndex(id, t) + Pow2(t)] == Zero
    ensures HApplied(prev, numQubits, t, k)[ZeroIndex(id, t)] == Scale(k, c)
    ensures HApplied(prev, numQubits, t, k)[ZeroIndex(id, t) + Pow2(t)] == Scale(k, c)
  {
    HPair(prev, numQubits, t, k, id);
    ScaleAddZero(k, c);
  }

  /** The same layer seen from a pair holding 0 and 0: both stay 0. */
  lemma LayerPairOutside(prev: seq<Complex>, numQubits: nat, t: nat, k: real, id: nat)
    requires Shape(|prev|, numQubits, t) && id < Pow2(numQubits - 1)
    requires ZeroIndex(id, t) + Pow2(t) < |prev|
    requires prev[ZeroIndex(id, t)] == Zero && prev[ZeroIndex(id, t) + Pow2(t)] == Zero
    ensures HApplied(prev, numQubits, t, k)[ZeroIndex(id, t)] == Zero
    ensures HApplied(prev, numQubits, t, k)[ZeroIndex(id, t) + Pow2(t)] == Zero
  {
    HPair(prev, numQubits, t, k, id);
    ScaleAddZero(k, Zero);
  }

  /** k(a + 0) == k(a - 0) == ka, and k0 == 0. */
  lemma ScaleAddZero(k: real, a: Complex)
    ensures Scale(k, Add(a, Zero)) == Scale(k, a) && Scale(k, Sub(a, Zero)) == Scale(k, a)
    ensures Scale(k, Zero) == Zero
  {
  }

  /**
   * From |0...0>, `h` on qubits 0 .. j-1 spreads the amplitude evenly over
   * the first 2^j indices: each holds k^j and the rest hold 0.
   */
  lemma {:induction false} HadamardEachOnGround(numQubits: nat, j: nat, k: real)
    requires j <= numQubits
    ensures forall m :: 0 <= m < Pow2(numQubits) ==>
      HadamardEach(Ground(numQubits), numQubits, j, k)[m]
      == if m < Pow2(j) then Complex(Power(k, j), 0.0) else Zero
  {
    if j > 0 {
      var t := j - 1;
      var c := Complex(Power(k, t), 0.0);
      HadamardEachOnGround(numQubits, t, k);
      var prev := HadamardEach(Ground(numQubits), numQubits, t, k);
      assert Scale(k, c) == Complex(Power(k, j), 0.0);
      forall m | 0 <= m < Pow2(numQubits)
        ensures HApplied(prev, numQubits, t, k)[m]
             == if m < Pow2(j) then Scale(k, c) else Zero
      {
        LayerAt(prev, numQubits, t, k, c, m);
      }
    }
  }

  /** One Hadamard layer of HadamardEachOnGround, seen from index m. */
  lemma LayerAt(prev: seq<Complex>, numQubits: nat, t: nat, k: real, c: Complex, m: nat)
    requires Shape(|prev|, numQubits, t) && m < |prev|
    requires forall x :: 0 <= x < |prev| ==> prev[x] == if x < Pow2(t) then c else Zero
    ensures HApplied(prev, numQubits, t, k)[m] == if m < Pow2(t + 1) then Scale(k, c) else Zero
  {
    IndexFacts(m, numQubits, t);
    var id := Compress(m, t);
    PairFacts(id, numQubits, t);
    PairBelow(id, t);
    if ZeroIndex(id, t) < Pow2(t) {
      LayerPairInside(prev, numQubits, t, k, c, id);
    } else {
      LayerPairOutside(prev, numQubits, t, k, id);
    }
  }

  /** After `h` on every qubit of |0...0>, every amplitude is k^numQubits. */
  lemma UniformSuperposition(numQubits: nat, k: real)
    ensures forall m :: 0 <= m < Pow2(numQubits) ==>
      HadamardEach(Ground(numQubits), numQubits, numQubits, k)[m] == Complex(Power(k, numQubits), 0.0)
  {
    HadamardEachOnGround(numQubits, numQubits, k);
  }

  /** The Hadamard test scenario: 7 qubits, 128 amplitudes, each (1/sqrt2)^7. */
  lemma SevenQubitScenario(sqrt2: real)
    requires sqrt2 > 0.0 && sqrt2 * sqrt2 == 2.0
    ensures var r := HadamardEach(Ground(7), 7, 7, 1.0 / sqrt2);
            && |r| == 128
            && forall m :: 0 <= m < 128 ==> r[m] == Complex(Power(1.0 / sqrt2, 7), 0.0)
  {
    assert Pow2(7) == 128;
    UniformSuperposition(7, 1.0 / sqrt2);
  }
}
