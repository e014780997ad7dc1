/** Wei amounts, account addresses, and sums over the contract's address-to-amount mappings. */
module Amounts {
  type Address = nat

  const ZERO_ADDRESS: Address := 0
  const ETHER: nat := 1_000_000_000_000_000_000
  const UINT256_MAX: nat := 0xffff_ffff_ffff_ffff_ffff_ffff_ffff_ffff_ffff_ffff_ffff_ffff_ffff_ffff_ffff_ffff

  /** A Solidity mapping read: an address never written holds zero. */
  function At(m: map<Address, nat>, a: Address): nat {
    if a in m then m[a] else 0
  }

  ghost predicate AllZero(m: map<Address, nat>) {
    forall a :: At(m, a) == 0
  }

  ghost function Total(m: map<Address, nat>): nat
    decreases m.Keys
  {
    if m.Keys == {} then 0
    else
      var a :| a in m.Keys;
      m[a] + Total(m - {a})
  }

  lemma {:induction false} TotalWithout(m: map<Address, nat>, a: Address)
    requires a in m
    ensures Total(m) == m[a] + Total(m - {a})
    decreases m.Keys
  {
    var b :| b in m.Keys && Total(m) == m[b] + Total(m - {b});
    if a != b {
      TotalWithout(m - {b}, a);
      TotalWithout(m - {a}, b);
      assert (m - {b}) - {a} == (m - {a}) - {b};
    }
  }

  lemma TotalSet(m: map<Address, nat>, a: Address, v: nat)
    ensures Total(m[a := v]) + At(m, a) == Total(m) + v
  {
    TotalWithout(m[a := v], a);
    if a in m {
      TotalWithout(m, a);
      assert m[a := v] - {a} == m - {a};
    } else {
      assert m[a := v] - {a} == m;
    }
  }

  lemma PartBelowTotal(m: map<Address, nat>, a: Address)
    ensures At(m, a) <= Total(m)
  {
    if a in m {
      TotalWithout(m, a);
    }
  }

  lemma {:induction false} TotalOfZeros(m: map<Address, nat>)
    requires AllZero(m)
    ensures Total(m) == 0
    decreases m.Keys
  {
    if m.Keys != {} {
      var a :| a in m.Keys;
      TotalWithout(m, a);
      assert At(m, a) == 0;
      forall b ensures At(m - {a}, b) == 0 {
        assert At(m, b) == 0;
      }
      TotalOfZeros(m - {a});
    }
  }

  /** A mapping below another one has the smaller total, and the same total only when they agree. */
  lemma {:induction false} TotalDominated(f: map<Address, nat>, g: map<Address, nat>)
    requires forall a :: At(f, a) <= At(g, a)
    ensures Total(f) <= Total(g)
    ensures Total(f) == Total(g) <==> forall a :: At(f, a) == At(g, a)
    decreases f.Keys
  {
    if f.Keys == {} {
      forall a ensures At(g, a) <= Total(g) {
        PartBelowTotal(g, a);
      }
      if forall a :: At(f, a) == At(g, a) {
        forall a ensures At(g, a) == 0 {
          assert At(f, a) == At(g, a);
        }
        TotalOfZeros(g);
      }
    } else {
      var k :| k in f.Keys;
      var f', g' := f - {k}, if k in g then g - {k} else g;
      TotalWithout(f, k);
      assert At(f, k) <= At(g, k);
      if k in g {
        TotalWithout(g, k);
      }
      forall a ensures At(f', a) <= At(g', a) {
        assert At(f, a) <= At(g, a);
      }
      TotalDominated(f', g');
      if Total(f) == Total(g) {
        forall a ensures At(f, a) == At(g, a) {
          assert At(f', a) == At(g', a);
        }
      }
      if forall a :: At(f, a) == At(g, a) {
        forall a ensures At(f', a) == At(g', a) {
          assert At(f, a) == At(g, a);
        }
        assert At(f, k) == At(g, k);
      }
    }
  }

  /** Entry by entry sums have the sum of the totals. */
  lemma {:induction false} TotalAdds(f: map<Address, nat>, g: map<Address, nat>, sum: map<Address, nat>)
    requires forall a :: At(sum, a) == At(f, a) + At(g, a)
    ensures Total(sum) == Total(f) + Total(g)
    decreases sum.Keys
  {
    if sum.Keys == {} {
      forall a ensures At(f, a) == 0 && At(g, a) == 0 {
        assert At(sum, a) == 0;
      }
      TotalOfZeros(f);
      TotalOfZeros(g);
    } else {
      var k :| k in sum.Keys;
      var f', g' := f[k := 0], g[k := 0];
      assert At(sum, k) == At(f, k) + At(g, k);
      TotalWithout(sum, k);
      TotalSet(f, k, 0);
      TotalSet(g, k, 0);
      forall a ensures At(sum - {k}, a) == At(f', a) + At(g', a) {
        assert At(sum, a) == At(f, a) + At(g, a);
      }
      TotalAdds(f', g', sum - {k});
    }
  }
}
