/** Complex numbers with exact parts. */
module ComplexNumbers {
  import opened Rings

  datatype Complex = Complex(re: real, im: real)

  const CZERO := Complex(0.0, 0.0)
  const CONE := Complex(1.0, 0.0)

  function CAdd(a: Complex, b: Complex): Complex { Complex(a.re + b.re, a.im + b.im) }

  function CNeg(a: Complex): Complex { Complex(-a.re, -a.im) }

  function CMul(a: Complex, b: Complex): Complex {
    Complex(a.re * b.re - a.im * b.im, a.re * b.im + a.im * b.re)
  }

  function RTimes(x: real, y: real): real { x * y }

  lemma SameSigns(x: real, y: real)
    ensures (x > 0.0 && y > 0.0) || (x < 0.0 && y < 0.0) ==> RTimes(x, y) > 0.0
    ensures x == 0.0 ==> RTimes(x, y) == 0.0
  {}

  /** The squared modulus. */
  function Norm2(a: Complex): real { RTimes(a.re, a.re) + RTimes(a.im, a.im) }

  lemma Norm2Positive(a: Complex)
    requires a != CZERO
    ensures Norm2(a) > 0.0
  {
    hide RTimes;
    SameSigns(a.re, a.re);
    SameSigns(a.im, a.im);
    assert a == Complex(a.re, a.im);
  }

  function CInverse(a: Complex): Option<Complex> {
    if a == CZERO then None
    else
      Norm2Positive(a);
      Some(Complex(a.re / Norm2(a), -a.im / Norm2(a)))
  }

  function Complexes(): Ring<Complex> {
    Ring((a: Complex) => true, CZERO, CONE,
         (a: Complex, b: Complex) => CAdd(a, b), (a: Complex) => CNeg(a), (a: Complex, b: Complex) => CMul(a, b),
         (a: Complex) => CInverse(a))
  }

  lemma MulAssociates(a: Complex, b: Complex, c: Complex)
    ensures CMul(CMul(a, b), c) == CMul(a, CMul(b, c))
  {
    Triple(a.re, b.re, c.re);
    Triple(a.im, b.im, c.re);
    Triple(a.re, b.im, c.im);
    Triple(a.im, b.re, c.im);
    Triple(a.re, b.re, c.im);
    Triple(a.im, b.im, c.im);
    Triple(a.re, b.im, c.re);
    Triple(a.im, b.re, c.re);
    assert CMul(CMul(a, b), c).re
        == (a.re * b.re) * c.re - (a.im * b.im) * c.re - (a.re * b.im) * c.im - (a.im * b.re) * c.im;
    assert CMul(CMul(a, b), c).im
        == (a.re * b.re) * c.im - (a.im * b.im) * c.im + (a.re * b.im) * c.re + (a.im * b.re) * c.re;
  }

  lemma Triple(x: real, y: real, z: real)
    ensures (x * y) * z == x * (y * z)
  {}

  lemma MulDistributes(a: Complex, b: Complex, c: Complex)
    ensures CMul(a, CAdd(b, c)) == CAdd(CMul(a, b), CMul(a, c))
  {}

  lemma InverseWorks(a: Complex)
    requires a != CZERO
    ensures CInverse(a).Some? && CMul(a, CInverse(a).value) == CONE
  {
    Norm2Positive(a);
    var n := Norm2(a);
    InverseParts(a.re, a.im, n);
  }

  lemma InverseParts(x: real, y: real, n: real)
    requires n == x * x + y * y && n != 0.0
    ensures x * (x / n) - y * (-y / n) == 1.0 && x * (-y / n) + y * (x / n) == 0.0
  {
    var i := 1.0 / n;
    Over(x, n);
    Over(-y, n);
    assert x * (x * i) + y * (y * i) == (x * x + y * y) * i;
    assert (x * x + y * y) * i == 1.0;
    assert y * (-y * i) == -(y * (y * i));
    assert x * (-y * i) == -(y * (x * i));
  }

  lemma Over(x: real, n: real)
    requires n != 0.0
    ensures x / n == x * (1.0 / n)
  {}

  lemma SumsOfThree(a: Complex, b: Complex, c: Complex)
    ensures CAdd(CAdd(a, b), c) == CAdd(a, CAdd(b, c)) && CAdd(a, b) == CAdd(b, a)
  {}

  lemma ComplexLaws()
    ensures Laws(Complexes())
  {
    hide CMul, CInverse;
    var K := Complexes();
    forall a, b ensures AddCommAt(K, a, b) && MulCommAt(K, a, b) {
      SumsOfThree(a, b, b);
      MulCommutes(a, b);
    }
    forall a, b, c ensures AddAssocAt(K, a, b, c) && MulAssocAt(K, a, b, c) && DistrAt(K, a, b, c) {
      SumsOfThree(a, b, c);
      MulAssociates(a, b, c);
      MulDistributes(a, b, c);
    }
    forall a ensures K.mul(K.one, a) == a { OneTimes(a); }
  }

  lemma ComplexInverses()
    ensures InverseSound(Complexes()) && InvertsNonZero(Complexes())
  {
    hide CMul, CInverse;
    var K := Complexes();
    forall a: Complex ensures K.inverse(a).Some? <==> a != K.zero
      ensures a != K.zero ==> K.mul(a, K.inverse(a).value) == K.one
    {
      InverseOfZero();
      if a != K.zero { InverseWorks(a); }
    }
  }

  lemma ComplexesAreField()
    ensures IsRing(Complexes()) && IsField(Complexes()) && IsDomain(Complexes())
  {
    hide CMul, CInverse, Laws, InverseSound, InvertsNonZero;
    var K := Complexes();
    assert Closed(K);
    ComplexLaws();
    ComplexInverses();
    FieldIsDomain(K);
  }

  lemma NonZeroProduct(a: Complex, b: Complex)
    requires a != CZERO && b != CZERO
    ensures CMul(a, b) != CZERO
  {
    InverseWorks(a);
    var i := CInverse(a).value;
    MulCommutes(a, i);
    MulAssociates(i, a, b);
    OneTimes(b);
    assert CMul(i, CZERO) == CZERO;
  }

  lemma InverseOfZero()
    ensures CInverse(CZERO).None?
  {}

  lemma OneTimes(a: Complex)
    ensures CMul(CONE, a) == a
  {}

  lemma MulCommutes(a: Complex, b: Complex)
    ensures CMul(a, b) == CMul(b, a)
  {}
}
