/** `randombytes_sysrandom_uniform`: a bias-free sample below an upper bound,
    obtained by rejection sampling over 32-bit draws (the construction of
    OpenBSD's `arc4random_uniform`).

    The draws the C code obtains by calling `randombytes_sysrandom()` in an
    unbounded loop are given here as a finite sequence; when none of them is
    accepted the result is `Exhausted`, standing for "the loop is still
    drawing". Absence of modulo bias is stated by counting: every residue
    below the bound has the same number of single draws that produce it. */
module Uniform {
  import opened Word

  /** The result of sampling: the value returned and how many draws were
      consumed to get it, or `Exhausted` when every draw was rejected. */
  datatype Draw = Drawn(value: uint32, consumed: nat) | Exhausted

  /** The rejection threshold `(uint32_t) (-upper_bound % upper_bound)`:
      the number of values that would make the last, incomplete block of
      residues, which is `2^32 mod upper_bound`. */
  function Threshold(bound: uint32): (min: uint32)
    requires bound >= 2
    ensures min == Modulus32 % bound
    ensures min < bound
  {
    ModSubModulus(Modulus32, bound);
    Neg32(bound) % bound
  }

  /** Whether a draw is kept by the rejection loop. */
  predicate Accepted(bound: uint32, r: uint32)
    requires bound >= 2
  {
    r >= Threshold(bound)
  }

  /** The rejection loop from position `i` of the draws on. */
  function Reject(bound: uint32, draws: seq<uint32>, i: nat): (s: Draw)
    requires bound >= 2
    requires i <= |draws|
    ensures s.Drawn? <==> exists k :: i <= k < |draws| && Accepted(bound, draws[k])
    ensures s.Drawn? ==>
              && i < s.consumed <= |draws|
              && Accepted(bound, draws[s.consumed - 1])
              && s.value == draws[s.consumed - 1] % bound
              && (forall k :: i <= k < s.consumed - 1 ==> !Accepted(bound, draws[k]))
    decreases |draws| - i
  {
    if i == |draws| then Exhausted
    else if Accepted(bound, draws[i]) then Drawn(draws[i] % bound, i + 1)
    else Reject(bound, draws, i + 1)
  }

  /** `randombytes_sysrandom_uniform(bound)` fed with the given draws. */
  function UniformSample(bound: uint32, draws: seq<uint32>): (s: Draw)
    // a bound below 2 gives 0 without drawing anything
    ensures bound < 2 ==> s == Drawn(0, 0)
    // otherwise the first accepted draw, reduced modulo the bound
    ensures bound >= 2 ==>
              (s.Drawn? <==> exists k :: 0 <= k < |draws| && draws[k] >= Modulus32 % bound)
    ensures bound >= 2 && s.Drawn? ==>
              && 1 <= s.consumed <= |draws|
              && draws[s.consumed - 1] >= Modulus32 % bound
              && s.value == draws[s.consumed - 1] % bound
              && (forall k :: 0 <= k < s.consumed - 1 ==> draws[k] < Modulus32 % bound)
    // the value is always in range
    ensures s.Drawn? && bound >= 2 ==> s.value < bound
  {
    if bound < 2 then Drawn(0, 0) else Reject(bound, draws, 0)
  }

  /** Two draws that differ only in rejected prefixes give the same sample:
      rejected draws leave no trace in the result but the draw count. */
  lemma {:induction false} RejectedDrawsIgnored(bound: uint32, rejected: seq<uint32>, rest: seq<uint32>)
    requires bound >= 2
    requires forall k :: 0 <= k < |rejected| ==> rejected[k] < Threshold(bound)
    ensures UniformSample(bound, rejected + rest).Drawn? == UniformSample(bound, rest).Drawn?
    ensures UniformSample(bound, rest).Drawn? ==>
              UniformSample(bound, rejected + rest)
              == Drawn(UniformSample(bound, rest).value, |rejected| + UniformSample(bound, rest).consumed)
  {
    var all := rejected + rest;
    forall j | 0 <= j < |rejected|
      ensures !Accepted(bound, all[j])
    {
      assert all[j] == rejected[j];
    }
    forall j | |rejected| <= j < |all|
      ensures all[j] == rest[j - |rejected|]
    {
    }
    var s, t := UniformSample(bound, all), UniformSample(bound, rest);
    if t.Drawn? {
      var k := |rejected| + t.consumed - 1;
      assert Accepted(bound, all[k]);
    }
  }

  /** With bound 10 the threshold is 6: the draw 0 is rejected, 0xFFFFFFFF
      is accepted and gives 5. */
  lemma BoundTenExample()
    ensures Threshold(10) == 6
    ensures UniformSample(10, [0, 0xFFFF_FFFF, 3, 9]) == Drawn(5, 2)
  {
  }

  // ---------------------------------------------------------------------
  // Absence of modulo bias, stated as counting.

  /** The number of integers in `[lo, hi)` satisfying `p`. */
  ghost function Count(p: int -> bool, lo: int, hi: int): nat
    decreases hi - lo
  {
    if hi <= lo then 0 else Count(p, lo, hi - 1) + (if p(hi - 1) then 1 else 0)
  }

  lemma {:induction false} CountSplit(p: int -> bool, lo: int, mid: int, hi: int)
    requires lo <= mid <= hi
    ensures Count(p, lo, hi) == Count(p, lo, mid) + Count(p, mid, hi)
    decreases hi - mid
  {
    if hi > mid {
      CountSplit(p, lo, mid, hi - 1);
    }
  }

  lemma {:induction false} CountNone(p: int -> bool, lo: int, hi: int)
    requires forall r :: lo <= r < hi ==> !p(r)
    ensures Count(p, lo, hi) == 0
    decreases hi - lo
  {
    if hi > lo {
      CountNone(p, lo, hi - 1);
    }
  }

  lemma {:induction false} CountSame(p: int -> bool, q: int -> bool, lo: int, hi: int)
    requires forall r :: lo <= r < hi ==> p(r) == q(r)
    ensures Count(p, lo, hi) == Count(q, lo, hi)
    decreases hi - lo
  {
    if hi > lo {
      CountSame(p, q, lo, hi - 1);
    }
  }

  /** The predicate "has residue `v` modulo `b`". */
  ghost function HasResidue(b: int, v: int): int -> bool
    requires b > 0
  {
    r => r % b == v
  }

  /** The first `n` numbers of an aligned block `[k*b, k*b + b)` contain
      residue `v` once if `v < n` and not at all otherwise. */
  lemma {:induction false} CountBlockPrefix(b: int, v: int, k: int, n: int)
    requires b > 0 && 0 <= v < b && 0 <= n <= b
    ensures Count(HasResidue(b, v), k * b, k * b + n) == if v < n then 1 else 0
    decreases n
  {
    if n > 0 {
      CountBlockPrefix(b, v, k, n - 1);
      ModMultiplePlus(k, b, n - 1);
    }
  }

  /** Blocks `k1 .. k2` of `b` consecutive numbers hold residue `v` once each. */
  lemma {:induction false} CountBlocks(b: int, v: int, k1: int, k2: int)
    requires b > 0 && 0 <= v < b && k1 <= k2
    ensures Count(HasResidue(b, v), k1 * b, k2 * b) == k2 - k1
    decreases k2 - k1
  {
    if k2 > k1 {
      CountBlocks(b, v, k1, k2 - 1);
      CountBlockPrefix(b, v, k2 - 1, b);
      MulSucc(k2 - 1, b);
      MulMonotone(k1, k2 - 1, b);
      CountSplit(HasResidue(b, v), k1 * b, (k2 - 1) * b, k2 * b);
    }
  }

  /** The accepted range `[Threshold(bound), 2^32)` is a whole number of
      blocks of `bound` values: `(2^32 - min) / bound * bound` values. */
  lemma AcceptedRangeIsWholeBlocks(bound: uint32)
    requires bound >= 2
    ensures Modulus32 - Threshold(bound) == (Modulus32 / bound) * bound
    ensures (Modulus32 - Threshold(bound)) % bound == 0
  {
    ModMultiplePlus(Modulus32 / bound, bound, 0);
  }

  /** The accepted draws with residue `v` number exactly `2^32 / bound`,
      whatever `v` is. */
  lemma {:induction false} AcceptedResidueCount(bound: uint32, v: int)
    requires bound >= 2 && 0 <= v < bound
    ensures Count(HasResidue(bound, v), Threshold(bound), Modulus32) == Modulus32 / bound
  {
    var b, m, q := bound as int, Threshold(bound) as int, Modulus32 / bound;
    var p := HasResidue(b, v);
    assert Modulus32 == q * b + m;
    assert q >= 1;
    MulAtLeast(q, b);
    // [0, b) holds v once; its part below m holds it iff v < m
    CountBlockPrefix(b, v, 0, b);
    CountBlockPrefix(b, v, 0, m);
    CountSplit(p, 0, m, b);
    assert Count(p, m, b) == if v < m then 0 else 1;
    // [b, q*b) is q - 1 whole blocks
    CountBlocks(b, v, 1, q);
    // [q*b, q*b + m) holds v iff v < m
    CountBlockPrefix(b, v, q, m);
    CountSplit(p, m, b, q * b);
    CountSplit(p, m, q * b, Modulus32);
  }

  /** Whether a single draw `r` makes `UniformSample(bound, [r])` return `v`. */
  ghost function Yields(bound: uint32, v: uint32): int -> bool
  {
    r => 0 <= r < Modulus32 && UniformSample(bound, [r as uint32]) == Drawn(v, 1)
  }

  /** A single draw yields `v` exactly when it is accepted and has residue `v`. */
  lemma SingleDraw(bound: uint32, v: uint32, r: uint32)
    requires bound >= 2
    ensures Yields(bound, v)(r) <==> r >= Threshold(bound) && r % bound == v
  {
    assert [r][0] == r;
  }

  /** No modulo bias: for a bound of at least 2, each value `v` below the
      bound is produced by exactly `2^32 / bound` of the 2^32 possible draws,
      and values at or above the bound by none. */
  lemma {:induction false} NoModuloBias(bound: uint32, v: uint32)
    requires bound >= 2
    ensures v < bound ==> Count(Yields(bound, v), 0, Modulus32) == Modulus32 / bound
    ensures v >= bound ==> Count(Yields(bound, v), 0, Modulus32) == 0
  {
    var m := Threshold(bound);
    var y := Yields(bound, v);
    forall r | 0 <= r < Modulus32
      ensures y(r) <==> r >= m && r % bound == v
    {
      SingleDraw(bound, v, r);
    }
    if v < bound {
      CountAfterThreshold(y, HasResidue(bound, v), m, Modulus32);
      AcceptedResidueCount(bound, v);
    } else {
      CountNone(y, 0, Modulus32);
    }
  }

  /** A predicate false below `m` and equal to `p` from `m` on counts what
      `p` counts from `m` on. */
  lemma CountAfterThreshold(y: int -> bool, p: int -> bool, m: int, n: int)
    requires 0 <= m <= n
    requires forall r :: 0 <= r < m ==> !y(r)
    requires forall r :: m <= r < n ==> y(r) == p(r)
    ensures Count(y, 0, n) == Count(p, m, n)
  {
    CountSplit(y, 0, m, n);
    CountNone(y, 0, m);
    CountSame(y, p, m, n);
  }
}
