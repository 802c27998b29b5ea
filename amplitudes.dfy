/**
 * Complex amplitudes of a state vector, as pairs of reals, together with the
 * squared Euclidean norm of a vector of them (the square of what
 * np.linalg.norm returns).
 */
module Amplitudes {

  /** One complex amplitude re + im*i. */
  datatype Amp = Amp(re: real, im: real)

  const ZERO: Amp := Amp(0.0, 0.0)
  const ONE: Amp := Amp(1.0, 0.0)

  /** Division of an amplitude by a non-zero real. */
  function Div(a: Amp, c: real): Amp
    requires c != 0.0
  {
    Amp(a.re / c, a.im / c)
  }

  lemma DivZero(c: real)
    requires c != 0.0
    ensures Div(ZERO, c) == ZERO
  {
  }

  /** The squared modulus |a|^2. */
  function Mod2(a: Amp): real
  {
    a.re * a.re + a.im * a.im
  }

  /** The squared norm: the sum of |s[i]|^2 over the vector. */
  function NormSq(s: seq<Amp>): real
  {
    if s == [] then 0.0 else Mod2(s[0]) + NormSq(s[1..])
  }

  /** Every entry of s divided by c, as `state /= c` does. */
  function Scaled(s: seq<Amp>, c: real): (r: seq<Amp>)
    requires c != 0.0
    ensures |r| == |s|
    ensures forall i :: 0 <= i < |s| ==> r[i] == Div(s[i], c)
  {
    seq(|s|, i requires 0 <= i < |s| => Div(s[i], c))
  }

  /**
   * Two vectors whose squared moduli add up, entry by entry, to those of s
   * have squared norms that add up to that of s.
   */
  lemma {:induction false} NormSqSplit(s: seq<Amp>, a: seq<Amp>, b: seq<Amp>)
    requires |a| == |s| && |b| == |s|
    requires forall i :: 0 <= i < |s| ==> Mod2(a[i]) + Mod2(b[i]) == Mod2(s[i])
    ensures NormSq(a) + NormSq(b) == NormSq(s)
  {
    if s != [] {
      NormSqSplit(s[1..], a[1..], b[1..]);
    }
  }

  /** A vector whose entries are all zero has squared norm zero. */
  lemma {:induction false} NormSqAllZero(s: seq<Amp>)
    requires forall i :: 0 <= i < |s| ==> s[i] == ZERO
    ensures NormSq(s) == 0.0
  {
    if s != [] {
      NormSqAllZero(s[1..]);
    }
  }

  /** A vector that is zero except at index k has the squared norm of that entry. */
  lemma {:induction false} NormSqSingle(s: seq<Amp>, k: nat)
    requires k < |s|
    requires forall i :: 0 <= i < |s| && i != k ==> s[i] == ZERO
    ensures NormSq(s) == Mod2(s[k])
  {
    if k == 0 {
      NormSqAllZero(s[1..]);
    } else {
      NormSqSingle(s[1..], k - 1);
    }
  }

  /** The squared norm of a concatenation is the sum of the parts' squared norms. */
  lemma {:induction false} NormSqAppend(a: seq<Amp>, b: seq<Amp>)
    ensures NormSq(a + b) == NormSq(a) + NormSq(b)
  {
    if a != [] {
      NormSqAppend(a[1..], b);
      assert (a + b)[1..] == a[1..] + b;
    } else {
      assert a + b == b;
    }
  }

  // Rescaling by the norm. Every product is kept behind its own small lemma:
  // the solver does not combine nonlinear real facts on its own.

  lemma SqDiv(x: real, c: real, e: real)
    requires c != 0.0 && e == c * c
    ensures ((x / c) * (x / c)) * e == x * x
  {
    var y := x / c;
    assert y * c == x;
    assert (y * y) * (c * c) == (y * c) * (y * c);
  }

  lemma AddScaled(h: real, t: real, e: real, x: real, y: real)
    requires h * e == x && t * e == y
    ensures (h + t) * e == x + y
  {
    assert (h + t) * e == h * e + t * e;
  }

  /** Dividing an amplitude by c divides its squared modulus by c^2. */
  lemma Mod2Div(a: Amp, c: real, e: real)
    requires c != 0.0 && e == c * c
    ensures Mod2(Div(a, c)) * e == Mod2(a)
  {
    SqDiv(a.re, c, e);
    SqDiv(a.im, c, e);
    var x, y := a.re / c, a.im / c;
    AddScaled(x * x, y * y, e, a.re * a.re, a.im * a.im);
  }

  /** Dividing a vector by c divides its squared norm by c^2. */
  lemma {:induction false} NormSqScaled(s: seq<Amp>, c: real, e: real)
    requires c != 0.0 && e == c * c
    ensures NormSq(Scaled(s, c)) * e == NormSq(s)
  {
    if s != [] {
      NormSqScaled(s[1..], c, e);
      assert Scaled(s, c)[1..] == Scaled(s[1..], c);
      Mod2Div(s[0], c, e);
      var h, t := Mod2(Div(s[0], c)), NormSq(Scaled(s[1..], c));
      assert NormSq(Scaled(s, c)) == h + t;
      AddScaled(h, t, e, Mod2(s[0]), NormSq(s[1..]));
    }
  }

  lemma Cancel(v: real, e: real, m: real)
    requires e > 0.0 && v * e == m && m == e
    ensures v == 1.0
  {
    assert (v - 1.0) * e == 0.0;
  }

  /** Dividing a vector of nonzero norm by its norm leaves a unit vector. */
  lemma Normalised(s: seq<Amp>, c: real)
    requires c > 0.0 && NormSq(s) > 0.0 && c * c == NormSq(s)
    ensures NormSq(Scaled(s, c)) == 1.0
  {
    NormSqScaled(s, c, NormSq(s));
    Cancel(NormSq(Scaled(s, c)), NormSq(s), NormSq(s));
  }
}
