/**
 * `get_proba` and `measure`: the probability of each basis state, the
 * histogram of sampled outcomes and the report printed from it. The random
 * sampling itself is not modelled; the outcomes drawn arrive as a sequence.
 */
module Measurement {
  import opened Complexes
  import opened BitIndex
  import opened Binary
  import opened Gates

  /**
   * `std::abs(amp * amp)` is the non-negative real whose square is
   * Norm2(amp * amp). That root is Norm2(amp), so the probability kernel
   * writes re^2 + im^2.
   */
  lemma AbsOfSquareIsNorm2(amp: Complex, p: real)
    requires p >= 0.0 && p * p == Norm2(Mul(amp, amp))
    ensures p == Norm2(amp)
  {
    AbsOfSquare(amp);
    RootUnique(p, Norm2(amp));
  }

  /** Non-negative square roots are unique. */
  lemma RootUnique(p: real, q: real)
    requires p >= 0.0 && q >= 0.0 && p * p == q * q
    ensures p == q
  {
    if p < q {
      SquareIncreasing(p, q);
    } else if q < p {
      SquareIncreasing(q, p);
    }
  }

  /** Squaring is strictly increasing on the non-negative reals. */
  lemma SquareIncreasing(a: real, b: real)
    requires 0.0 <= a < b
    ensures a * a < b * b
  {
    assert a * (b - a) >= 0.0;
    assert b * (b - a) > 0.0;
  }

  /**
   * `get_proba`: for every index below numStates, write the probability of
   * that amplitude into the probability buffer. The state is only read.
   */
  method GetProba(state: array<Complex>, numStates: nat, proba: array<real>)
    requires numStates <= state.Length && numStates <= proba.Length
    modifies proba
    ensures forall i :: 0 <= i < numStates ==> proba[i] == Norm2(state[i])
    ensures forall i :: numStates <= i < proba.Length ==> proba[i] == old(proba[i])
  {
    var id := 0;
    while id < numStates
      invariant id <= numStates
      invariant forall i :: 0 <= i < id ==> proba[i] == Norm2(state[i])
      invariant forall i :: id <= i < proba.Length ==> proba[i] == old(proba[i])
    {
      var amp := state[id];
      proba[id] := Norm2(amp);
      id := id + 1;
    }
  }

  /**
   * The histogram after the given outcomes: `size` counters starting at 0,
   * each outcome adding one to its own counter.
   */
  function Tally(draws: seq<nat>, size: nat): (counts: seq<nat>)
    requires forall i :: 0 <= i < |draws| ==> draws[i] < size
    ensures |counts| == size
  {
    if draws == [] then seq(size, _ => 0)
    else
      var last := |draws| - 1;
      var before := Tally(draws[..last], size);
      before[draws[last] := before[draws[last]] + 1]
  }

  /** Counter k of the histogram is the number of outcomes equal to k. */
  lemma {:induction false} TallyCounts(draws: seq<nat>, size: nat, k: nat)
    requires forall i :: 0 <= i < |draws| ==> draws[i] < size
    requires k < size
    ensures Tally(draws, size)[k] == multiset(draws)[k]
  {
    if draws != [] {
      var last := |draws| - 1;
      TallyCounts(draws[..last], size, k);
      assert draws == draws[..last] + [draws[last]];
    }
  }

  /** The sum of a sequence of counters. */
  function Sum(s: seq<nat>): (total: nat)
  {
    if s == [] then 0 else Sum(s[..|s| - 1]) + s[|s| - 1]
  }

  /** Adding one to a counter adds one to the sum. */
  lemma {:induction false} SumIncrement(s: seq<nat>, k: nat)
    requires k < |s|
    ensures Sum(s[k := s[k] + 1]) == Sum(s) + 1
  {
    var last := |s| - 1;
    var t := s[k := s[k] + 1];
    if k < last {
      SumIncrement(s[..last], k);
      assert t[..last] == s[..last][k := s[k] + 1];
    } else {
      assert t[..last] == s[..last];
    }
  }

  /** Counters that are all zero sum to zero. */
  lemma {:induction false} SumZeros(n: nat)
    ensures Sum(seq(n, _ => 0)) == 0
  {
    if n > 0 {
      SumZeros(n - 1);
      assert seq(n, _ => 0)[..n - 1] == seq(n - 1, _ => 0);
    }
  }

  /** Every outcome is counted exactly once: the counters sum to the number of outcomes. */
  lemma {:induction false} TallySum(draws: seq<nat>, size: nat)
    requires forall i :: 0 <= i < |draws| ==> draws[i] < size
    ensures Sum(Tally(draws, size)) == |draws|
  {
    if draws == [] {
      SumZeros(size);
    } else {
      var last := |draws| - 1;
      TallySum(draws[..last], size);
      SumIncrement(Tally(draws[..last], size), draws[last]);
    }
  }

  /** One printed line, `State <bits>: <count>`. */
  datatype Line = Line(bits: string, count: nat)

  /**
   * The sampling loop of `measure`: `size` counters starting at 0, and for
   * each of the `samples` outcomes drawn, one added to that outcome's counter.
   */
  method CountDraws(samples: int, draws: seq<nat>, size: nat) returns (counts: seq<nat>)
    requires |draws| == if samples > 0 then samples else 0
    requires forall i :: 0 <= i < |draws| ==> draws[i] < size
    ensures counts == Tally(draws, size)
    ensures forall k :: 0 <= k < size ==> counts[k] == multiset(draws)[k]
    ensures Sum(counts) == |draws|
  {
    var arr := new nat[size](_ => 0);
    var i := 0;
    while i < samples
      invariant 0 <= i <= |draws|
      invariant arr[..] == Tally(draws[..i], size)
    {
      var index := draws[i];
      arr[index] := arr[index] + 1;
      i := i + 1;
      assert draws[..i][..i - 1] == draws[..i - 1];
    }
    assert draws[..i] == draws;
    counts := arr[..];
    forall k | 0 <= k < size
      ensures counts[k] == multiset(draws)[k]
    {
      TallyCounts(draws, size, k);
    }
    TallySum(draws, size);
  }

  /** The printing loop of `measure`: one line per basis state, in index order. */
  method Report(counts: seq<nat>, numQubits: nat) returns (lines: seq<Line>)
    requires |counts| == Pow2(numQubits)
    ensures |lines| == |counts|
    ensures forall k :: 0 <= k < |counts| ==>
      lines[k] == Line(BitString(k, numQubits), counts[k]) && FromBinary(lines[k].bits) == k
  {
    lines := [];
    var k := 0;
    while k < |counts|
      invariant k <= |counts| && |lines| == k
      invariant forall j :: 0 <= j < k ==>
        lines[j] == Line(BitString(j, numQubits), counts[j]) && FromBinary(lines[j].bits) == j
    {
      var bits := ToBinary(k, numQubits);
      BitStringRoundTrip(k, numQubits);
      lines := lines + [Line(bits, counts[k])];
      k := k + 1;
    }
  }

  /**
   * `measure`: compute the probabilities of the 2^numQubits basis states,
   * tally one counter per outcome drawn, then report the counters in index
   * order, each labelled by `toBinary`. `weights` are the probabilities the
   * sampling distribution is built from.
   */
  method Measure(state: array<Complex>, numQubits: nat, samples: int, draws: seq<nat>)
    returns (weights: seq<real>, counts: seq<nat>, lines: seq<Line>)
    requires state.Length == Pow2(numQubits)
    requires |draws| == if samples > 0 then samples else 0
    requires forall i :: 0 <= i < |draws| ==> draws[i] < Pow2(numQubits)
    ensures |weights| == |counts| == |lines| == Pow2(numQubits)
    ensures forall k :: 0 <= k < |weights| ==> weights[k] == Norm2(state[k])
    ensures forall k :: 0 <= k < |counts| ==> counts[k] == multiset(draws)[k]
    ensures Sum(counts) == |draws|
    ensures samples <= 0 ==> forall k :: 0 <= k < |counts| ==> counts[k] == 0
    ensures forall k :: 0 <= k < |lines| ==>
      lines[k] == Line(BitString(k, numQubits), counts[k]) && FromBinary(lines[k].bits) == k
  {
    var size := Pow2(numQubits);
    var proba := new real[size];
    GetProba(state, size, proba);
    weights := proba[..];
    counts := CountDraws(samples, draws, size);
    lines := Report(counts, numQubits);
  }

  /** (k^n)^2 == (1/2)^n when k*k == 1/2. */
  lemma {:induction false} PowerOfRootHalf(k: real, n: nat)
    requires k * k == 0.5
    ensures Power(k, n) * Power(k, n) == Power(0.5, n)
  {
    if n > 0 {
      PowerOfRootHalf(k, n - 1);
      var p := Power(k, n - 1);
      assert (k * p) * (k * p) == (k * k) * (p * p);
    }
  }

  /** (1/2)^n * 2^n == 1: the 2^n outcomes of probability (1/2)^n sum to 1. */
  lemma {:induction false} HalfPower(n: nat)
    ensures Power(0.5, n) * (Pow2(n) as real) == 1.0
  {
    if n > 0 {
      HalfPower(n - 1);
    }
  }

  /**
   * After `h` on every qubit of |0...0>, every basis state has probability
   * (1/2)^numQubits: the distribution `measure` samples from is uniform.
   */
  lemma UniformProbability(numQubits: nat, k: real, m: nat)
    requires k * k == 0.5 && m < Pow2(numQubits)
    ensures Norm2(HadamardEach(Ground(numQubits), numQubits, numQubits, k)[m]) == Power(0.5, numQubits)
  {
    UniformSuperposition(numQubits, k);
    PowerOfRootHalf(k, numQubits);
  }

  /** In the 7-qubit Hadamard scenario each of the 128 outcomes has probability 1/128. */
  lemma SevenQubitProbabilities(sqrt2: real)
    requires sqrt2 > 0.0 && sqrt2 * sqrt2 == 2.0
    ensures var r := HadamardEach(Ground(7), 7, 7, 1.0 / sqrt2);
            forall m :: 0 <= m < 128 ==> Norm2(r[m]) == 1.0 / 128.0
  {
    InvSqrt2(sqrt2);
    HalfPower(7);
    assert Pow2(7) == 128;
    var r := HadamardEach(Ground(7), 7, 7, 1.0 / sqrt2);
    forall m | 0 <= m < 128
      ensures Norm2(r[m]) == 1.0 / 128.0
    {
      UniformProbability(7, 1.0 / sqrt2, m);
    }
  }
}
