/** The Chinese remainder theorem for pairwise comaximal elements, and counting by injection. */
module ChineseRemainder {
  import opened Rings
  import opened Comaximal
  import opened Congruence
  import opened Powers

  // s a + t b == 1 makes t b congruent to one modulo a
  lemma CombIsOne<F(!new)>(R: Ring<F>, s: F, a: F, t: F, b: F)
    requires IsRing(R) && R.has(s) && R.has(a) && R.has(t) && R.has(b) && Comb(R, s, a, t, b) == R.one
    ensures CongBy(R, a, R.mul(t, b), R.one)
  {
    var (x, y) := (R.mul(s, a), R.mul(t, b));
    AddComm(R, x, y);
    SubOfSum(R, y, x, R.one);
    // y - 1 == -(1 - y) == -x
    NegAdd(R, R.one, R.neg(y));
    NegNeg(R, y);
    AddComm(R, R.neg(R.one), y);
    DividesIntro(R, s, a, x);
    DividesNeg(R, a, x);
  }

  // b divides t b, so it is congruent to zero modulo b
  lemma MultipleIsZero<F(!new)>(R: Ring<F>, t: F, b: F, m: F)
    requires IsRing(R) && R.has(t) && R.has(b) && R.has(m) && Divides(R, m, b)
    ensures CongBy(R, m, R.mul(t, b), R.zero)
  {
    DividesMul(R, m, b, t);
    NegZero(R);
    AddZero(R, R.mul(t, b));
  }

  /** h + (c - h) e is congruent to c where e is one, and to h where e is zero. */
  lemma Switch<F(!new)>(R: Ring<F>, m: F, h: F, c: F, e: F)
    requires IsRing(R) && R.has(m) && R.has(h) && R.has(c) && R.has(e)
    ensures CongBy(R, m, e, R.one) ==> CongBy(R, m, R.add(h, R.mul(Sub(R, c, h), e)), c)
    ensures CongBy(R, m, e, R.zero) ==> CongBy(R, m, R.add(h, R.mul(Sub(R, c, h), e)), h)
  {
    var d := Sub(R, c, h);
    CongSelf(R, m, h);
    if CongBy(R, m, e, R.one) {
      CongTimesLeft(R, m, d, e, R.one);
      MulOne(R, d);
      CongPlus(R, m, h, h, R.mul(d, e), d);
      SubSelf(R, c, h);
      AddComm(R, h, d);
    }
    if CongBy(R, m, e, R.zero) {
      CongTimesLeft(R, m, d, e, R.zero);
      MulZero(R, d);
      CongPlus(R, m, h, h, R.mul(d, e), R.zero);
      AddZero(R, h);
    }
  }

  lemma {:induction false} FactorDivides<F(!new)>(R: Ring<F>, us: seq<F>, i: nat)
    requires IsRing(R) && Family(R, us) && i < |us|
    ensures Divides(R, us[i], Prod(R, us)) && R.has(Prod(R, us))
  {
    ProdHas(R, us);
    ProdHas(R, us[1..]);
    if i == 0 {
      DividesSelf(R, us[0]);
      DividesMul(R, us[0], us[0], Prod(R, us[1..]));
    } else {
      FactorDivides(R, us[1..], i - 1);
      DividesMul(R, us[i], Prod(R, us[1..]), us[0]);
    }
  }

  /** Prescribed residues modulo pairwise comaximal elements. */
  lemma {:induction false} CrtExists<F(!new)>(R: Ring<F>, us: seq<F>, cs: seq<F>) returns (h: F)
    requires IsRing(R) && Family(R, us) && Family(R, cs) && |us| == |cs| && PairwiseComax(R, us)
    ensures R.has(h) && forall i :: 0 <= i < |us| ==> CongBy(R, us[i], h, cs[i])
  {
    hide IsRing, Comax, Prod, CongBy, Divides;
    if us == [] {
      h := R.zero;
      ZeroHas(R);
    } else {
      var (u, T, c) := (us[0], Prod(R, us[1..]), cs[0]);
      var g := CrtExists(R, us[1..], cs[1..]);
      ProdHas(R, us[1..]);
      ComaxProd(R, u, us[1..]);
      var s, t := ComaxWitness(R, u, T);
      var e := R.mul(t, T);
      CombIsOne(R, s, u, t, T);
      h := SwitchHas(R, g, c, t, T);
      Switch(R, u, g, c, e);
      forall i | 1 <= i < |us| ensures CongBy(R, us[i], h, cs[i]) {
        FactorDivides(R, us[1..], i - 1);
        MultipleIsZero(R, t, T, us[i]);
        Switch(R, us[i], g, c, e);
        assert CongBy(R, us[1..][i - 1], g, cs[1..][i - 1]);
        CongTrans(R, us[i], h, g, cs[i]);
      }
    }
  }

  lemma ZeroHas<F(!new)>(R: Ring<F>)
    requires IsRing(R)
    ensures R.has(R.zero)
  {}

  lemma SwitchHas<F(!new)>(R: Ring<F>, g: F, c: F, t: F, T: F) returns (h: F)
    requires IsRing(R) && R.has(g) && R.has(c) && R.has(t) && R.has(T)
    ensures h == R.add(g, R.mul(Sub(R, c, g), R.mul(t, T))) && R.has(h) && R.has(R.mul(t, T))
  {
    h := R.add(g, R.mul(Sub(R, c, g), R.mul(t, T)));
  }

  /** What pairwise comaximal elements all divide, their product divides. */
  lemma {:induction false} ProductDivides<F(!new)>(R: Ring<F>, us: seq<F>, x: F)
    requires IsRing(R) && Family(R, us) && PairwiseComax(R, us) && R.has(x)
    requires forall i :: 0 <= i < |us| ==> Divides(R, us[i], x)
    ensures Divides(R, Prod(R, us), x)
  {
    if us == [] {
      MulOne(R, x);
      DividesIntro(R, x, R.one, x);
    } else {
      ProductDivides(R, us[1..], x);
      ProdHas(R, us[1..]);
      ComaxProd(R, us[0], us[1..]);
      ComaxProductDivides(R, us[0], Prod(R, us[1..]), x);
    }
  }

  // one factor pulled out of a product
  lemma {:induction false} ProdExtract<F(!new)>(R: Ring<F>, us: seq<F>, i: nat)
    requires IsRing(R) && Family(R, us) && i < |us|
    ensures Family(R, us[..i] + us[i + 1..])
    ensures Prod(R, us) == R.mul(us[i], Prod(R, us[..i] + us[i + 1..]))
  {
    var rest := us[..i] + us[i + 1..];
    ProdHas(R, us[..i]);
    ProdHas(R, us[i + 1..]);
    assert us == us[..i] + us[i..] && us[i..][1..] == us[i + 1..];
    ProdConcat(R, us[..i], us[i..]);
    ProdConcat(R, us[..i], us[i + 1..]);
    MulSwap(R, Prod(R, us[..i]), us[i], Prod(R, us[i + 1..]));
  }

  // ----- counting -----

  /** A total relation that never sends two elements to the same one embeds the smaller set. */
  lemma {:induction false} Injection<A, B>(S: set<A>, T: set<B>, rel: (A, B) -> bool)
    requires forall a :: a in S ==> exists b :: b in T && rel(a, b)
    requires forall a, c, b :: a in S && c in S && b in T && rel(a, b) && rel(c, b) ==> a == c
    ensures |S| <= |T|
    decreases |S|
  {
    if S != {} {
      var a :| a in S;
      var b :| b in T && rel(a, b);
      forall c | c in S - {a} ensures exists d :: d in T - {b} && rel(c, d) {
        var d :| d in T && rel(c, d);
        assert d in T - {b};
      }
      Injection(S - {a}, T - {b}, rel);
    }
  }

  /** The vectors of length n with entries below p. */
  ghost function AllVectors(p: nat, n: nat): (S: set<seq<int>>)
    ensures forall v :: v in S <==> |v| == n && forall i :: 0 <= i < n ==> 0 <= v[i] < p
  {
    if n == 0 then {[]}
    else
      var S := WithHead(p, AllVectors(p, n - 1));
      assert forall v: seq<int> :: |v| == n ==> v == [v[0]] + v[1..];
      S
  }

  ghost function WithHead(p: nat, T: set<seq<int>>): (S: set<seq<int>>)
    ensures forall v :: v in S <==> v != [] && 0 <= v[0] < p && v[1..] in T
  {
    if p == 0 then {} else WithHead(p - 1, T) + Prepended(p - 1, T)
  }

  ghost function Prepended(s: int, T: set<seq<int>>): (S: set<seq<int>>)
    ensures forall v :: v in S <==> v != [] && v[0] == s && v[1..] in T
  {
    var S := set t | t in T :: [s] + t;
    assert forall t: seq<int> {:trigger [s] + t} :: ([s] + t)[1..] == t;
    assert forall v: seq<int> :: v != [] && v[0] == s ==> v == [s] + v[1..];
    S
  }

  lemma {:induction false} PrependedSize(s: int, T: set<seq<int>>)
    ensures |Prepended(s, T)| == |T|
  {
    if T == {} {
      assert Prepended(s, T) == {};
    } else {
      var t :| t in T;
      PrependedSize(s, T - {t});
      assert ([s] + t)[1..] == t;
      forall v | v in Prepended(s, T) ensures v in Prepended(s, T - {t}) + {[s] + t} {
        assert v == [s] + v[1..];
      }
      assert Prepended(s, T) == Prepended(s, T - {t}) + {[s] + t};
    }
  }

  lemma HeadsDiffer(p: nat, T: set<seq<int>>)
    ensures WithHead(p, T) !! Prepended(p, T) && WithHead(p + 1, T) == WithHead(p, T) + Prepended(p, T)
    ensures |WithHead(p + 1, T)| == |WithHead(p, T)| + |Prepended(p, T)|
  {
    var (S, U) := (WithHead(p, T), Prepended(p, T));
    forall v | v in S ensures v !in U {}
    DisjointSize(S, U);
  }

  lemma DisjointSize<A>(S: set<A>, T: set<A>)
    requires S !! T
    ensures |S + T| == |S| + |T|
  {}

  lemma OneMore(p: int, n: int)
    ensures (p + 1) * n == p * n + n
  {}

  lemma {:induction false} WithHeadSize(p: nat, T: set<seq<int>>)
    ensures |WithHead(p, T)| == p * |T|
  {
    hide WithHead, Prepended;
    if p == 0 {
      NoHead(T);
    } else {
      WithHeadSize(p - 1, T);
      HeadsDiffer(p - 1, T);
      PrependedSize(p - 1, T);
      OneMore(p - 1, |T|);
    }
  }

  lemma NoHead(T: set<seq<int>>)
    ensures WithHead(0, T) == {}
  {}

  lemma {:induction false} VectorCount(p: nat, n: nat)
    ensures |AllVectors(p, n)| == IPow(p, n)
  {
    hide WithHead, AllVectors;
    if n == 0 {
      EmptyVector(p);
    } else {
      VectorCount(p, n - 1);
      WithHeadSize(p, AllVectors(p, n - 1));
      VectorsSplit(p, n);
    }
  }

  lemma EmptyVector(p: nat)
    ensures AllVectors(p, 0) == {[]}
  {}

  lemma VectorsSplit(p: nat, n: nat)
    requires n > 0
    ensures AllVectors(p, n) == WithHead(p, AllVectors(p, n - 1))
  {}

  lemma {:induction false} PowerOrder(p: nat, m: nat, n: nat)
    requires p > 1 && IPow(p, m) <= IPow(p, n)
    ensures m <= n
    decreases m
  {
    if m > 0 {
      IPowPositive(p, m - 1);
      if n == 0 {
        AtLeastTwice(p, IPow(p, m - 1));
      } else {
        CancelFactor(p, IPow(p, m - 1), IPow(p, n - 1));
        PowerOrder(p, m - 1, n - 1);
      }
    }
  }

  lemma AtLeastTwice(p: nat, x: int)
    requires p > 1 && x > 0
    ensures p * x > 1
  {
    assert (p - 1) * x > 0;
  }

  lemma CancelFactor(p: nat, x: int, y: int)
    requires p > 0 && p * x <= p * y
    ensures x <= y
  {
    assert x > y ==> p * (x - y) > 0;
  }
}
