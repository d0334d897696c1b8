/** The linear congruential generator of libc/src/stdlib.c. */
module Random {
  import opened Arithmetic
  import opened Machine
  import opened Powers

  const MULTIPLIER := 1103515245
  const INCREMENT := 12345
  const RAND_MAX := 32767
  const STATES_PER_OUTPUT := 0x2_0000

  /** `next = next * 1103515245 + 12345`, in 32 bits */
  function Next(state: int): int {
    (state * MULTIPLIER + INCREMENT) % WORD_LIMIT
  }

  /** The value rand returns for its new state. */
  function Value(state: int): int {
    state / 65536 % 32768
  }

  /** The state after `n` calls. */
  function After(seed: int, n: nat): int
    decreases n, seed
  {
    if n == 0 then seed else Next(After(seed, n - 1))
  }

  /** The recurrence of the portable example of ISO C, section 7.22.2, in 32 bits: what it drops is a multiple
      of 2^32. */
  lemma NextIsPortable(state: int) returns (k: int)
    ensures state * 1103515245 + 12345 == Next(state) + 0x1_0000_0000 * k && 0 <= Next(state) < 0x1_0000_0000
  {
    k := (state * MULTIPLIER + INCREMENT) / WORD_LIMIT;
  }

  /** The output is the 15 bits below the top bit of the state. */
  lemma ValueIsBits(top: int, r: int, low: int)
    requires 0 <= top < 2 && 0 <= r <= RAND_MAX && 0 <= low < 0x1_0000
    ensures Value(0x8000_0000 * top + 0x1_0000 * r + low) == r
  {
    DivUnique(0x8000_0000 * top + 0x1_0000 * r + low, 0x1_0000, 0x8000 * top + r, low);
    DivUnique(0x8000 * top + r, 0x8000, top, r);
  }

  class Generator {
    var next: int

    ghost predicate Valid()
      reads this
    {
      0 <= next < WORD_LIMIT
    }

    constructor ()
      ensures Valid() && next == 1
    {
      next := 1;
    }

    /** srand */
    method SRand(seed: int)
      requires 0 <= seed < WORD_LIMIT
      modifies this
      ensures Valid() && next == seed
    {
      next := seed;
    }

    /** rand */
    method Rand() returns (r: int)
      requires Valid()
      modifies this
      ensures Valid() && next == Next(old(next)) && r == Value(next) && 0 <= r <= RAND_MAX
    {
      next := (next * MULTIPLIER + INCREMENT) % WORD_LIMIT;
      r := next / 65536 % 32768;
    }

    /** `n` calls of rand: the state moves along the orbit of the seed, and each output is that of its state. */
    method Draw(n: nat) returns (outputs: seq<int>)
      requires Valid()
      modifies this
      ensures Valid() && next == After(old(next), n)
      ensures |outputs| == n && forall i :: 0 <= i < n ==> outputs[i] == Value(After(old(next), i + 1))
    {
      outputs := [];
      var i := 0;
      while i < n
        invariant 0 <= i <= n && Valid() && next == After(old(next), i)
        invariant |outputs| == i && forall k :: 0 <= k < i ==> outputs[k] == Value(After(old(next), k + 1))
      {
        var r := Rand();
        outputs := outputs + [r];
        i := i + 1;
      }
    }
  }

  /** The same without reduction. */
  function Exact(x: int, n: nat): int
    decreases n, x
  {
    if n == 0 then x else Exact(x, n - 1) * MULTIPLIER + INCREMENT
  }

  // ------------------------------------------------------------------ the period

  lemma NextOfResidue(x: int)
    ensures Next(x % WORD_LIMIT) == Next(x)
  {
    var q, r := x / WORD_LIMIT, x % WORD_LIMIT;
    assert x * MULTIPLIER + INCREMENT == (r * MULTIPLIER + INCREMENT) + WORD_LIMIT * (q * MULTIPLIER);
    AddMultiple(r * MULTIPLIER + INCREMENT, q * MULTIPLIER);
  }

  lemma AddMultiple(a: int, k: int)
    ensures (a + WORD_LIMIT * k) % WORD_LIMIT == a % WORD_LIMIT
  {
  }

  lemma {:induction false} AfterIsExact(seed: int, n: nat)
    requires 0 <= seed < WORD_LIMIT
    ensures After(seed, n) == Exact(seed, n) % WORD_LIMIT && 0 <= After(seed, n) < WORD_LIMIT
  {
    if n == 0 {
    } else {
      AfterIsExact(seed, n - 1);
      NextOfResidue(Exact(seed, n - 1));
    }
  }

  lemma {:induction false} ExactAdds(x: int, m: nat, n: nat)
    ensures Exact(x, m + n) == Exact(Exact(x, m), n)
    decreases n
  {
    if n == 0 {
    } else {
      ExactAdds(x, m, n - 1);
      assert Exact(x, m + n) == Exact(x, m + n - 1) * MULTIPLIER + INCREMENT;
    }
  }

  lemma {:induction false} AfterAdds(seed: int, m: nat, n: nat)
    ensures After(seed, m + n) == After(After(seed, m), n)
    decreases n
  {
    if n == 0 {
    } else {
      AfterAdds(seed, m, n - 1);
      assert After(seed, m + n) == Next(After(seed, m + n - 1));
    }
  }

  /** An affine step with multiplier 1 + 4pu and odd-times-p increment; all steps of 2^k calls are of this
      shape, with p = 2^k. */
  function Affine(p: int, u: int, w: int, x: int): int {
    (1 + 4 * p * u) * x + p * (2 * w + 1)
  }

  function NextU(p: int, u: int): int { u + 2 * p * u * u }

  function NextW(p: int, u: int, w: int): int { w + p * u + 2 * w * (p * u) }

  function U(k: nat): int {
    if k == 0 then 275878811 else NextU(Pow2(k - 1), U(k - 1))
  }

  function W(k: nat): int {
    if k == 0 then 6172 else NextW(Pow2(k - 1), U(k - 1), W(k - 1))
  }

  lemma TwiceFactor(p: int, u: int)
    ensures var t := p * u; 4 * (2 * p) * NextU(p, u) == 8 * t + 16 * (t * t)
  {
    var t := p * u;
    assert 2 * p * u * u == 2 * t * u;
    assert p * (t * u) == t * t;
  }

  /** Two steps of size p make one of size 2p. */
  lemma AffineTwice(p: int, u: int, w: int, x: int)
    ensures Affine(p, u, w, Affine(p, u, w, x)) == Affine(2 * p, NextU(p, u), NextW(p, u, w), x)
  {
    var t := p * u;
    assert 4 * p * u == 4 * t;
    TwiceFactor(p, u);
    assert (1 + 4 * t) * ((1 + 4 * t) * x) == (1 + 8 * t + 16 * (t * t)) * x;
    assert (1 + 4 * t) * (p * (2 * w + 1)) + p * (2 * w + 1) == (2 + 4 * t) * (p * (2 * w + 1));
    assert (2 + 4 * t) * (p * (2 * w + 1)) == (2 * p) * ((1 + 2 * t) * (2 * w + 1));
    assert (1 + 2 * t) * (2 * w + 1) == 2 * (w + t + 2 * w * t) + 1;
  }

  lemma {:induction false} ExactJumps(x: int, k: nat)
    ensures Exact(x, Pow2(k)) == Affine(Pow2(k), U(k), W(k), x)
    decreases k
  {
    if k == 0 {
      assert Exact(x, 1) == Exact(x, 0) * MULTIPLIER + INCREMENT;
    } else {
      var h := Pow2(k - 1);
      ExactAdds(x, h, h);
      ExactJumps(x, k - 1);
      ExactJumps(Exact(x, h), k - 1);
      AffineTwice(h, U(k - 1), W(k - 1), x);
    }
  }

  /** Such a step moves by p, up to multiples of 2p. */
  lemma AffineMoves(p: int, u: int, w: int, y: int)
    ensures Affine(p, u, w, y) == y + p + 2 * p * (2 * u * y + w)
  {
    assert (1 + 4 * p * u) * y == y + 2 * p * (2 * u * y);
    assert p * (2 * w + 1) == p + 2 * p * w;
    assert 2 * p * (2 * u * y + w) == 2 * p * (2 * u * y) + 2 * p * w;
  }

  lemma Collect(p: int, m: int, q: int, d: int)
    ensures (m - 1) * p + 2 * p * q + p + 2 * p * d == m * p + 2 * p * (q + d)
  {
  }

  /** `m` times 2^k calls move by m * 2^k, up to multiples of 2^(k + 1). */
  lemma {:induction false} Moves(x: int, k: nat, m: nat) returns (q: int)
    ensures Exact(x, m * Pow2(k)) == x + m * Pow2(k) + 2 * Pow2(k) * q
    decreases m
  {
    var p := Pow2(k);
    if m == 0 {
      q := 0;
      assert 0 * p == 0;
    } else {
      var r := Moves(x, k, m - 1);
      var y := Exact(x, (m - 1) * p);
      assert m * p == (m - 1) * p + p;
      ExactAdds(x, (m - 1) * p, p);
      ExactJumps(y, k);
      AffineMoves(p, U(k), W(k), y);
      Collect(p, m, r, 2 * U(k) * y + W(k));
      q := r + (2 * U(k) * y + W(k));
    }
  }

  /** Every positive number is a power of two times an odd number. */
  lemma {:induction false} OddPart(n: nat) returns (k: nat, m: nat)
    requires n > 0
    ensures n == m * Pow2(k) && m % 2 == 1 && Pow2(k) <= n
    decreases n
  {
    if n % 2 == 1 {
      k, m := 0, n;
    } else {
      var j;
      j, m := OddPart(n / 2);
      k := j + 1;
      assert m * Pow2(k) == 2 * (m * Pow2(j));
    }
  }

  /** An odd multiple of p is no multiple of a number that 2p divides. */
  lemma OddIsNotEven(p: int, half: int, m: int, q: int, c: int)
    requires p > 0 && m % 2 == 1 && 2 * p * half == WORD_LIMIT
    ensures m * p + 2 * p * q != WORD_LIMIT * c
  {
    var d := m + 2 * q - 2 * (half * c);
    assert d % 2 == 1;
    assert WORD_LIMIT * c == 2 * p * (half * c);
    assert m * p + 2 * p * q - 2 * p * (half * c) == p * d;
    assert d >= 1 ==> p * d >= 1;
    assert d <= -1 ==> p * d <= -1;
  }

  lemma OneMultiple(p: int, q: int)
    ensures p + 2 * p * q == p * (1 + 2 * q)
  {
  }

  /** 2^k calls add a multiple of 2^k. */
  lemma JumpBack(x: int, k: nat) returns (q: int)
    ensures Exact(x, Pow2(k)) == x + Pow2(k) * q
  {
    var p, r := Pow2(k), 2 * U(k) * x + W(k);
    ExactJumps(x, k);
    AffineMoves(p, U(k), W(k), x);
    OneMultiple(p, r);
    q := 1 + 2 * r;
  }

  lemma WholeMultiple(x: int, p: int, q: int)
    requires 0 <= x < WORD_LIMIT && p == WORD_LIMIT
    ensures (x + p * q) % WORD_LIMIT == x
  {
    AddMultiple(x, q);
  }

  lemma ComesBack(seed: int, k: nat)
    requires 0 <= seed < WORD_LIMIT && Pow2(k) == WORD_LIMIT
    ensures After(seed, Pow2(k)) == seed
  {
    AfterIsExact(seed, Pow2(k));
    var q := JumpBack(seed, k);
    WholeMultiple(seed, Pow2(k), q);
  }

  lemma NotEarlier(seed: int, n: nat)
    requires 0 <= seed < WORD_LIMIT && 0 < n < WORD_LIMIT
    ensures After(seed, n) != seed
  {
    Pow2Values();
    AfterIsExact(seed, n);
    var k, m := OddPart(n);
    assert k < 32 by {
      if k >= 32 {
        Pow2Monotone(32, k);
      }
    }
    var q := Moves(seed, k, m);
    Pow2Add(k + 1, 31 - k);
    OddIsNotEven(Pow2(k), Pow2(31 - k), m, q, Exact(seed, n) / WORD_LIMIT);
  }

  /** From every seed: the state comes back after 2^32 calls, and not before. */
  lemma FullPeriod(seed: int, n: nat)
    requires 0 <= seed < WORD_LIMIT && 0 < n <= WORD_LIMIT
    ensures After(seed, n) == seed <==> n == WORD_LIMIT
  {
    if n == WORD_LIMIT {
      Pow2Values();
      ComesBack(seed, 32);
    } else {
      NotEarlier(seed, n);
    }
  }

  // ------------------------------------------------------------------ the outputs

  lemma HasElement(A: set<int>)
    ensures A == {} || exists a :: a in A
  {
    if forall a :: a !in A {
      assert A == {};
    }
  }

  lemma {:induction false} ImageCard(A: set<int>, f: int -> int)
    requires forall a, b :: a in A && b in A && f(a) == f(b) ==> a == b
    ensures |set a | a in A :: f(a)| == |A|
    decreases A
  {
    var I := set a | a in A :: f(a);
    if A == {} {
      assert I == {};
    } else {
      HasElement(A);
      var a :| a in A;
      var B := A - {a};
      ImageCard(B, f);
      var J := set x | x in B :: f(x);
      assert I == J + {f(a)} && f(a) !in J;
    }
  }

  predicate In(a: int, n: int) {
    0 <= a < n
  }

  ghost function Below(n: nat): set<int> {
    set a: int | 0 <= a < n && In(a, n)
  }

  lemma {:induction false} BelowCard(n: nat)
    ensures |Below(n)| == n
  {
    if n > 0 {
      BelowCard(n - 1);
      assert Below(n) == Below(n - 1) + {n - 1};
    } else {
      assert Below(n) == {};
    }
  }

  lemma SubsetOfSameSize(A: set<int>, B: set<int>)
    requires A <= B && |A| == |B|
    ensures A == B
  {
    assert B == A + (B - A);
    assert |B| == |A| + |B - A|;
  }

  /** The calls, counted from 0, whose output is `r`: the indices at which Generator.Draw returns it. */
  ghost function Calls(seed: int, r: int): set<int> {
    set n: int | 0 <= n < WORD_LIMIT && Value(StateOf(seed, n)) == r
  }

  /** The state after call `n`. */
  function StateOf(seed: int, n: int): int {
    if n < 0 then 0 else After(seed, n + 1)
  }

  lemma StatesDiffer(seed: int, m: int, n: int)
    requires 0 <= seed < WORD_LIMIT && 0 <= m < n < WORD_LIMIT
    ensures StateOf(seed, m) != StateOf(seed, n)
  {
    AfterIsExact(seed, m + 1);
    AfterAdds(seed, m + 1, n - m);
    NotEarlier(After(seed, m + 1), n - m);
  }

  /** The states that output `r`: any top bit, the bits of `r`, any low 16 bits. */
  ghost function States(r: int): set<int> {
    set s: int | 0 <= s < WORD_LIMIT && Value(s) == r
  }

  function Spread(r: int, t: int): int {
    t / 0x1_0000 * 0x8000_0000 + r * 0x1_0000 + t % 0x1_0000
  }

  lemma StatesCard(r: int)
    requires 0 <= r <= RAND_MAX
    ensures |States(r)| == STATES_PER_OUTPUT
  {
    var n := STATES_PER_OUTPUT;
    var A, f := Below(n), t => Spread(r, t);
    forall a, b | a in A && b in A && f(a) == f(b) ensures a == b {
      SpreadInjective(r, a, b);
    }
    var B := set t | t in A :: f(t);
    BelowCard(n);
    ImageCard(A, f);
    forall s ensures s in B <==> s in States(r) {
      if s in B {
        var t :| t in A && f(t) == s;
        SpreadValue(r, t);
      }
      if s in States(r) {
        var t := s / 0x8000_0000 * 0x1_0000 + s % 0x1_0000;
        SpreadOfState(r, s);
        assert f(t) == s && In(t, n);
      }
    }
    assert B == States(r);
  }

  lemma SpreadInjective(r: int, a: int, b: int)
    requires Spread(r, a) == Spread(r, b) && 0 <= a && 0 <= b
    requires 0 <= r <= RAND_MAX
    ensures a == b
  {
    assert Spread(r, a) == 0x8000_0000 * (a / 0x1_0000) + (r * 0x1_0000 + a % 0x1_0000);
    DivUnique(Spread(r, a), 0x8000_0000, a / 0x1_0000, r * 0x1_0000 + a % 0x1_0000);
    DivUnique(Spread(r, b), 0x8000_0000, b / 0x1_0000, r * 0x1_0000 + b % 0x1_0000);
  }

  lemma SpreadOfState(r: int, s: int)
    requires 0 <= s < WORD_LIMIT && Value(s) == r
    ensures var t := s / 0x8000_0000 * 0x1_0000 + s % 0x1_0000; 0 <= t < STATES_PER_OUTPUT && Spread(r, t) == s
  {
    var h, l := s / 0x8000_0000, s % 0x1_0000;
    assert s / 0x1_0000 == h * 0x8000 + r;
    DivUnique(h * 0x1_0000 + l, 0x1_0000, h, l);
  }

  lemma SpreadValue(r: int, t: int)
    requires 0 <= r <= RAND_MAX && 0 <= t < STATES_PER_OUTPUT
    ensures 0 <= Spread(r, t) < WORD_LIMIT && Value(Spread(r, t)) == r
  {
  }

  lemma StatesInjective(seed: int, a: int, b: int)
    requires 0 <= seed < WORD_LIMIT && 0 <= a < WORD_LIMIT && 0 <= b < WORD_LIMIT
    requires StateOf(seed, a) == StateOf(seed, b)
    ensures a == b
  {
    if a < b {
      StatesDiffer(seed, a, b);
    } else if b < a {
      StatesDiffer(seed, b, a);
    }
  }

  /** The states of one period. */
  ghost function Visited(seed: int, n: nat): set<int> {
    set m | m in Below(n) :: StateOf(seed, m)
  }

  lemma VisitedCard(seed: int, n: nat)
    requires 0 <= seed < WORD_LIMIT && n <= WORD_LIMIT
    ensures |Visited(seed, n)| == n
  {
    var f, N := m => StateOf(seed, m), Below(n);
    forall a, b | a in N && b in N && f(a) == f(b) ensures a == b {
      StatesInjective(seed, a, b);
    }
    ImageCard(N, f);
    BelowCard(n);
    assert Visited(seed, n) == set m | m in N :: f(m);
  }

  /** Over one period every state occurs ... */
  lemma EveryStateOccurs(seed: int)
    requires 0 <= seed < WORD_LIMIT
    ensures Visited(seed, WORD_LIMIT) == Below(WORD_LIMIT)
  {
    var n := WORD_LIMIT;
    forall s | s in Visited(seed, n) ensures s in Below(n) {
      var m :| m in Below(n) && StateOf(seed, m) == s;
      AfterIsExact(seed, m + 1);
      assert In(s, n);
    }
    VisitedCard(seed, n);
    BelowCard(n);
    SubsetOfSameSize(Visited(seed, n), Below(n));
  }

  /** ... and each output from 0 to RAND_MAX occurs exactly 2^17 times. */
  lemma OutputsAreUniform(seed: int, r: int)
    requires 0 <= seed < WORD_LIMIT && 0 <= r <= RAND_MAX
    ensures |Calls(seed, r)| == STATES_PER_OUTPUT
  {
    var n := WORD_LIMIT;
    var f, C := m => StateOf(seed, m), Calls(seed, r);
    forall a, b | a in C && b in C && f(a) == f(b) ensures a == b {
      StatesInjective(seed, a, b);
    }
    ImageCard(C, f);
    var values := set m | m in C :: f(m);
    EveryStateOccurs(seed);
    forall s ensures s in values <==> s in States(r) {
      if s in values {
        var m :| m in C && f(m) == s;
        AfterIsExact(seed, m + 1);
      }
      if s in States(r) {
        assert In(s, n) && s in Visited(seed, n);
        var m :| m in Below(n) && StateOf(seed, m) == s;
        assert m in C;
      }
    }
    assert values == States(r);
    StatesCard(r);
  }
}
