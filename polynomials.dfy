/**
 * Polynomials over GF(2) as the cyclic code stores them: a word of bits whose
 * position 0 holds the coefficient of the highest power, so a word w of
 * length N stands for the sum of w[i] * x^(N - 1 - i).
 *
 * The remainder of a division by a divisor g (leading coefficient 1, degree
 * at least 1) is defined as the cyclic code computes it, by repeatedly adding
 * g shifted under the leading one.  Its meaning is proved separately: the
 * remainder is reduced (zero above the degree of g), it differs from the
 * input by a combination of shifted copies of g, and it is the only reduced
 * word that does; hence it is linear and depends only on the input modulo g.
 */
module Polynomials {
  import opened Bits

  // ---------------------------------------------------------------------------
  // Leading ones
  // ---------------------------------------------------------------------------

  /** The index of the first one in w, or |w| when there is none. */
  function FirstOne(w: seq<Bit>): (i: nat)
    ensures i <= |w|
    ensures i < |w| ==> w[i] == 1
    ensures forall t :: 0 <= t < i ==> w[t] == 0
  {
    if |w| == 0 then 0 else if w[0] == 1 then 0 else 1 + FirstOne(w[1..])
  }

  /** FirstOne is the position of a one that only zeros precede. */
  lemma FirstOneAt(w: seq<Bit>, i: nat)
    requires i <= |w| && (i < |w| ==> w[i] == 1)
    requires forall t :: 0 <= t < i ==> w[t] == 0
    ensures FirstOne(w) == i
  {
  }

  /** The degree of w: the power of its leading one, and 0 for the zero word. */
  function Degree(w: seq<Bit>): nat {
    if FirstOne(w) < |w| then |w| - 1 - FirstOne(w) else 0
  }

  /** The number of leading zeros of w; |w| - 1 for the zero word (-1 for the empty word). */
  function Offset(w: seq<Bit>): int {
    if FirstOne(w) < |w| then FirstOne(w) else |w| - 1
  }

  /** w without its leading zeros; the zero word becomes [0] and the empty word stays empty. */
  function Trim(w: seq<Bit>): seq<Bit> {
    if |w| == 0 then [] else if FirstOne(w) == |w| then [0] else w[FirstOne(w)..]
  }

  /** Trim keeps the value: padding the trimmed word back with zeros gives w, and it starts with a one unless w is zero. */
  lemma TrimPad(w: seq<Bit>)
    requires |w| > 0
    ensures 1 <= |Trim(w)| <= |w|
    ensures w == Zeros(|w| - |Trim(w)|) + Trim(w)
    ensures Trim(w)[0] == 1 || (Trim(w) == [0] && w == Zeros(|w|))
  {
    var t := Trim(w);
    if FirstOne(w) == |w| {
      assert w == Zeros(|w|);
      assert Zeros(|w| - 1) + [0] == Zeros(|w|);
    } else {
      assert w == w[..FirstOne(w)] + t;
      assert w[..FirstOne(w)] == Zeros(FirstOne(w));
    }
  }

  // ---------------------------------------------------------------------------
  // Divisors, shifts and combinations
  // ---------------------------------------------------------------------------

  /** A divisor the division accepts: leading coefficient 1 and degree at least 1. */
  predicate Divisor(g: seq<Bit>) {
    |g| >= 2 && g[0] == 1
  }

  /** The number of positions at which g fits into a word of length N. */
  function Offsets(N: nat, g: seq<Bit>): nat {
    if N >= |g| then N - |g| + 1 else 0
  }

  /** g placed at offset o of a word of length N: g times x^(N - o - |g|). */
  function Placed(g: seq<Bit>, o: nat, N: nat): (p: seq<Bit>)
    requires o + |g| <= N
    ensures |p| == N
    ensures forall i :: 0 <= i < N ==> p[i] == if o <= i < o + |g| then g[i - o] else 0
  {
    seq(N, i requires 0 <= i < N => if o <= i < o + |g| then g[i - o] else 0)
  }

  /** v when b is 1, the zero word when b is 0. */
  function Scale(b: Bit, v: seq<Bit>): (s: seq<Bit>)
    ensures |s| == |v|
  {
    if b == 1 then v else Zeros(|v|)
  }

  /** The sum of the shifts of g selected by cs: cs[o] says whether g placed at offset o is added. */
  function Combo(g: seq<Bit>, cs: seq<Bit>, N: nat): (c: seq<Bit>)
    requires |cs| <= Offsets(N, g)
    ensures |c| == N
  {
    if |cs| == 0 then Zeros(N)
    else Xor(Combo(g, cs[..|cs| - 1], N), Scale(cs[|cs| - 1], Placed(g, |cs| - 1, N)))
  }

  lemma ScaleXor(a: Bit, b: Bit, v: seq<Bit>)
    ensures Scale(XorBit(a, b), v) == Xor(Scale(a, v), Scale(b, v))
  {
  }

  /** The combination with no shift selected is zero. */
  lemma {:induction false} ComboZeros(g: seq<Bit>, L: nat, N: nat)
    requires L <= Offsets(N, g)
    ensures Combo(g, Zeros(L), N) == Zeros(N)
  {
    if L > 0 {
      assert Zeros(L)[..L - 1] == Zeros(L - 1);
      ComboZeros(g, L - 1, N);
      XorZeros(Zeros(N));
    }
  }

  /** Combinations add up coefficient by coefficient. */
  lemma {:induction false} ComboXor(g: seq<Bit>, cs: seq<Bit>, ds: seq<Bit>, N: nat)
    requires |cs| == |ds| <= Offsets(N, g)
    ensures Combo(g, Xor(cs, ds), N) == Xor(Combo(g, cs, N), Combo(g, ds, N))
  {
    if |cs| > 0 {
      var t := |cs| - 1;
      var P := Placed(g, t, N);
      assert Xor(cs, ds)[..t] == Xor(cs[..t], ds[..t]);
      ComboXor(g, cs[..t], ds[..t], N);
      ScaleXor(cs[t], ds[t], P);
      XorSwap(Combo(g, cs[..t], N), Combo(g, ds[..t], N), Scale(cs[t], P), Scale(ds[t], P));
    }
  }

  /** Selecting the single shift t gives g placed at t. */
  lemma {:induction false} ComboUnit(g: seq<Bit>, L: nat, t: nat, N: nat)
    requires t < L <= Offsets(N, g)
    ensures Combo(g, Unit(L, t), N) == Placed(g, t, N)
  {
    var u := Unit(L, t);
    var P := Placed(g, L - 1, N);
    if t == L - 1 {
      assert u[..L - 1] == Zeros(L - 1);
      ComboZeros(g, L - 1, N);
      XorZeros(P);
    } else {
      assert u[..L - 1] == Unit(L - 1, t);
      ComboUnit(g, L - 1, t, N);
      XorZeros(Placed(g, t, N));
    }
  }

  /** With the coefficients before i zero, entry i of a combination is coefficient i (g starts with a one). */
  lemma {:induction false} ComboEntry(g: seq<Bit>, cs: seq<Bit>, N: nat, i: nat)
    requires Divisor(g) && |cs| <= Offsets(N, g) && i < |cs|
    requires forall j :: 0 <= j < i ==> cs[j] == 0
    ensures Combo(g, cs, N)[i] == cs[i]
  {
    var t := |cs| - 1;
    var P := Placed(g, t, N);
    if t > i {
      ComboEntry(g, cs[..t], N, i);
    } else {
      assert cs[..t] == Zeros(t);
      ComboZeros(g, t, N);
    }
  }

  /** A combination that is zero in front of every shift selects no shift. */
  lemma {:induction false} ComboZeroFront(g: seq<Bit>, cs: seq<Bit>, N: nat, i: nat)
    requires Divisor(g) && |cs| <= Offsets(N, g) && i <= |cs|
    requires forall j :: 0 <= j < i ==> Combo(g, cs, N)[j] == 0
    ensures forall j :: 0 <= j < i ==> cs[j] == 0
  {
    if i > 0 {
      ComboZeroFront(g, cs, N, i - 1);
      ComboEntry(g, cs, N, i - 1);
    }
  }

  // ---------------------------------------------------------------------------
  // The remainder
  // ---------------------------------------------------------------------------

  /** w is reduced modulo g: it is zero at every position where g fits, so its degree is below that of g. */
  ghost predicate Reduced(w: seq<Bit>, g: seq<Bit>) {
    forall i :: 0 <= i < |w| && i < |w| - |g| + 1 ==> w[i] == 0
  }

  /** The loop condition of the division is the negation of reducedness. */
  lemma ReducedIffDegree(w: seq<Bit>, g: seq<Bit>)
    requires Divisor(g)
    ensures Degree(g) == |g| - 1
    ensures Reduced(w, g) <==> Degree(w) < Degree(g)
  {
    var f := FirstOne(w);
    assert FirstOne(g) == 0;
    if f < |w| && f < |w| - |g| + 1 {
      assert !Reduced(w, g);
    }
  }

  /** One division step: g placed under the leading one of w and added to it. */
  function Step(w: seq<Bit>, g: seq<Bit>): (s: seq<Bit>)
    requires Divisor(g) && Degree(w) >= |g| - 1
    ensures |s| == |w|
  {
    Xor(w, Placed(g, FirstOne(w), |w|))
  }

  /** A step clears the leading one, so the leading one moves right. */
  lemma StepProgress(w: seq<Bit>, g: seq<Bit>)
    requires Divisor(g) && Degree(w) >= |g| - 1
    ensures FirstOne(Step(w, g)) > FirstOne(w)
  {
    var s, f := Step(w, g), FirstOne(w);
    assert forall t :: 0 <= t <= f ==> s[t] == 0;
  }

  /** The remainder of w divided by g, by the steps the cyclic code takes. */
  function Mod(w: seq<Bit>, g: seq<Bit>): (m: seq<Bit>)
    requires Divisor(g)
    ensures |m| == |w|
    decreases |w| - FirstOne(w)
  {
    if Degree(w) < |g| - 1 then w
    else
      StepProgress(w, g);
      Mod(Step(w, g), g)
  }

  /** The quotient of the same division: which shifts of g were added. */
  ghost function Quotient(w: seq<Bit>, g: seq<Bit>): (q: seq<Bit>)
    requires Divisor(g)
    ensures |q| == Offsets(|w|, g)
    decreases |w| - FirstOne(w)
  {
    if Degree(w) < |g| - 1 then Zeros(Offsets(|w|, g))
    else
      StepProgress(w, g);
      Xor(Quotient(Step(w, g), g), Unit(Offsets(|w|, g), FirstOne(w)))
  }

  /** The remainder is reduced. */
  lemma {:induction false} ModReduced(w: seq<Bit>, g: seq<Bit>)
    requires Divisor(g)
    ensures Reduced(Mod(w, g), g)
    decreases |w| - FirstOne(w)
  {
    if Degree(w) < |g| - 1 {
      ReducedIffDegree(w, g);
    } else {
      StepProgress(w, g);
      ModReduced(Step(w, g), g);
    }
  }

  /** A reduced word is its own remainder. */
  lemma ModOfReduced(w: seq<Bit>, g: seq<Bit>)
    requires Divisor(g) && Reduced(w, g)
    ensures Mod(w, g) == w
  {
    ReducedIffDegree(w, g);
  }

  /** The input and its remainder differ by the combination of shifts that the quotient selects. */
  lemma {:induction false} ModQuotient(w: seq<Bit>, g: seq<Bit>)
    requires Divisor(g)
    ensures Xor(w, Mod(w, g)) == Combo(g, Quotient(w, g), |w|)
    decreases |w| - FirstOne(w)
  {
    var L := Offsets(|w|, g);
    if Degree(w) < |g| - 1 {
      XorSelf(w);
      ComboZeros(g, L, |w|);
    } else {
      StepProgress(w, g);
      var f := FirstOne(w);
      var s, P := Step(w, g), Placed(g, f, |w|);
      ModQuotient(s, g);
      ComboXor(g, Quotient(s, g), Unit(L, f), |w|);
      ComboUnit(g, L, f, |w|);
      XorRotate(w, P, Mod(w, g));
    }
  }

  /** Two reduced words that differ by a combination of shifts of g are equal. */
  lemma ReducedUnique(a: seq<Bit>, b: seq<Bit>, g: seq<Bit>, cs: seq<Bit>)
    requires Divisor(g) && |a| == |b| && Reduced(a, g) && Reduced(b, g)
    requires |cs| == Offsets(|a|, g) && Xor(a, b) == Combo(g, cs, |a|)
    ensures a == b
  {
    ComboZeroFront(g, cs, |a|, |cs|);
    assert cs == Zeros(|cs|);
    ComboZeros(g, |cs|, |a|);
    XorZeroEqual(a, b);
  }

  /** Words that differ by a combination of shifts of g have the same remainder. */
  lemma ModCongruent(a: seq<Bit>, b: seq<Bit>, g: seq<Bit>, cs: seq<Bit>)
    requires Divisor(g) && |a| == |b|
    requires |cs| == Offsets(|a|, g) && Xor(a, b) == Combo(g, cs, |a|)
    ensures Mod(a, g) == Mod(b, g)
  {
    var A, B := Mod(a, g), Mod(b, g);
    var qa, qb := Quotient(a, g), Quotient(b, g);
    var N := |a|;
    ModQuotient(a, g);
    ModQuotient(b, g);
    ModReduced(a, g);
    ModReduced(b, g);
    XorShuffle(a, b, A, B);
    ComboXor(g, qa, qb, N);
    ComboXor(g, cs, Xor(qa, qb), N);
    ReducedUnique(A, B, g, Xor(cs, Xor(qa, qb)));
  }

  /** The remainder is linear. */
  lemma ModXor(a: seq<Bit>, b: seq<Bit>, g: seq<Bit>)
    requires Divisor(g) && |a| == |b|
    ensures Mod(Xor(a, b), g) == Xor(Mod(a, g), Mod(b, g))
  {
    var A, B := Mod(a, g), Mod(b, g);
    var t := Xor(A, B);
    ModQuotient(a, g);
    ModQuotient(b, g);
    ModReduced(a, g);
    ModReduced(b, g);
    XorSwap(a, b, A, B);
    ComboXor(g, Quotient(a, g), Quotient(b, g), |a|);
    ModCongruent(Xor(a, b), t, g, Xor(Quotient(a, g), Quotient(b, g)));
    ModOfReduced(t, g);
  }

  /** w is a multiple of g: its remainder is zero. */
  ghost predicate IsMultiple(w: seq<Bit>, g: seq<Bit>)
    requires Divisor(g)
  {
    Mod(w, g) == Zeros(|w|)
  }

  /** Every combination of shifts of g is a multiple of g. */
  lemma ComboIsMultiple(g: seq<Bit>, cs: seq<Bit>, N: nat)
    requires Divisor(g) && |cs| == Offsets(N, g)
    ensures IsMultiple(Combo(g, cs, N), g)
  {
    var c := Combo(g, cs, N);
    XorZeros(c);
    ModCongruent(c, Zeros(N), g, cs);
    ModOfReduced(Zeros(N), g);
  }

  /** g placed anywhere is a multiple of g. */
  lemma PlacedIsMultiple(g: seq<Bit>, o: nat, N: nat)
    requires Divisor(g) && o + |g| <= N
    ensures IsMultiple(Placed(g, o, N), g)
  {
    ComboUnit(g, Offsets(N, g), o, N);
    ComboIsMultiple(g, Unit(Offsets(N, g), o), N);
  }

  /** The sum of two multiples of g is a multiple of g. */
  lemma MultipleXor(a: seq<Bit>, b: seq<Bit>, g: seq<Bit>)
    requires Divisor(g) && |a| == |b| && IsMultiple(a, g) && IsMultiple(b, g)
    ensures IsMultiple(Xor(a, b), g)
  {
    ModXor(a, b, g);
    XorSelf(Zeros(|a|));
  }
}
