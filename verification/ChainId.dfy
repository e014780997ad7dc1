/**
 The declared chain id of hardhat.config.ts, which has to survive a conversion to binary64.

 The conversion is roundTiesToEven of section 4.3.1 of IEEE 754-2019, on the non-negative integers a
 canonical decimal can denote.
 */
module ChainId {
  import opened Decimals

  const TWO_TO_THE_52: nat := 0x10_0000_0000_0000
  const TWO_TO_THE_53: nat := 0x20_0000_0000_0000
  const MAX_SAFE_INTEGER: nat := TWO_TO_THE_53 - 1

  /** The largest exponent of an integer significand of 53 bits. */
  const MAX_EXPONENT: nat := 971

  datatype Double = Finite(n: nat) | Infinity

  function Pow2(e: nat): (p: nat)
    ensures p >= 1
  {
    if e == 0 then 1 else 2 * Pow2(e - 1)
  }

  /** How many bits have to go for 53 to be left. */
  function Exponent(n: nat): nat {
    if n < TWO_TO_THE_53 then 0 else 1 + Exponent(n / 2)
  }

  /** n / unit to the nearest integer, and to the even one of two that are equally near. */
  function RoundedQuotient(n: nat, unit: nat): nat
    requires unit >= 1
  {
    var q, r := n / unit, n % unit;
    if 2 * r < unit || (2 * r == unit && q % 2 == 0) then q else q + 1
  }

  /** `Number` of a string of digits that denotes n. */
  function ToDouble(n: nat): Double {
    var e := Exponent(n);
    var q := RoundedQuotient(n, Pow2(e));
    if e > MAX_EXPONENT || (e == MAX_EXPONENT && q == TWO_TO_THE_53) then Infinity else Finite(q * Pow2(e))
  }

  predicate IsSafeInteger(x: Double) {
    x.Finite? && x.n <= MAX_SAFE_INTEGER
  }

  datatype Outcome = Unset | Pinned(chainId: nat) | NotCanonical | NotExact

  function ParseExpectedChainId(declared: string): Outcome {
    if declared == "" then Unset
    else if !(AllDigits(declared) && declared[0] != '0') then NotCanonical
    else
      var chainId := ToDouble(Value(declared));
      if !IsSafeInteger(chainId) || Print(chainId.n) != declared then NotExact
      else Pinned(chainId.n)
  }

  // ---------------------------------------------------------------- the conversion

  lemma {:induction false} ExponentBounds(n: nat)
    requires n >= TWO_TO_THE_52
    ensures TWO_TO_THE_52 * Pow2(Exponent(n)) <= n < TWO_TO_THE_53 * Pow2(Exponent(n))
  {
    if n >= TWO_TO_THE_53 {
      ExponentBounds(n / 2);
      var p := Pow2(Exponent(n / 2));
      assert Pow2(Exponent(n)) == 2 * p;
    }
  }

  /** Within half a unit, and even when exactly half way. */
  lemma QuotientIsNearestEven(n: nat, unit: nat)
    requires unit >= 1
    ensures var q := RoundedQuotient(n, unit);
            && 2 * (n - q * unit) <= unit && 2 * (q * unit - n) <= unit
            && (2 * (n - q * unit) == unit || 2 * (q * unit - n) == unit ==> q % 2 == 0)
  {
    var q := n / unit;
    assert n == q * unit + n % unit;
    assert (q + 1) * unit == q * unit + unit;
  }

  /** A finite conversion is the nearest multiple of a unit that leaves 53 significant bits. */
  lemma ConversionIsNearestEven(n: nat)
    requires n >= TWO_TO_THE_53 && ToDouble(n).Finite?
    ensures var unit, m := Pow2(Exponent(n)), ToDouble(n).n;
            && 2 * (n - m) <= unit && 2 * (m - n) <= unit
            && exists q :: (TWO_TO_THE_52 <= q <= TWO_TO_THE_53 && m == q * unit
                            && (2 * (n - m) == unit || 2 * (m - n) == unit ==> q % 2 == 0))
  {
    var unit := Pow2(Exponent(n));
    var q := RoundedQuotient(n, unit);
    ExponentBounds(n);
    QuotientIsNearestEven(n, unit);
    QuotientBounds(n, unit, TWO_TO_THE_52, TWO_TO_THE_53);
    assert TWO_TO_THE_52 <= q <= TWO_TO_THE_53 && ToDouble(n).n == q * unit;
  }

  lemma QuotientBounds(n: nat, unit: nat, low: nat, high: nat)
    requires unit >= 1 && low * unit <= n < high * unit
    ensures low <= RoundedQuotient(n, unit) <= high
  {
    var q := n / unit;
    assert n == q * unit + n % unit;
    assert (q - low + 1) * unit == q * unit - low * unit + unit;
    assert (high - q) * unit == high * unit - q * unit;
    PositiveProduct(q - low + 1, unit);
    PositiveProduct(high - q, unit);
  }

  lemma PositiveProduct(k: int, unit: nat)
    ensures k <= 0 ==> k * unit <= 0
  {
  }

  lemma SmallIsExact(n: nat)
    requires n < TWO_TO_THE_53
    ensures ToDouble(n) == Finite(n)
  {
    assert Pow2(0) == 1 && n / 1 == n && n % 1 == 0;
  }

  /** What is too large to be exact is still too large after the conversion. */
  lemma LargeStaysLarge(n: nat)
    requires n >= TWO_TO_THE_53
    ensures !IsSafeInteger(ToDouble(n))
  {
    var e := Exponent(n);
    ExponentBounds(n);
    QuotientBounds(n, Pow2(e), TWO_TO_THE_52, TWO_TO_THE_53);
    var q, p := RoundedQuotient(n, Pow2(e)), Pow2(e - 1);
    assert Pow2(e) == 2 * p;
    AtLeastDoubled(q, p);
  }

  lemma AtLeastDoubled(q: nat, p: nat)
    requires p >= 1
    ensures q * (2 * p) >= 2 * q
  {
    PositiveProduct(1 - p, q);
    assert q * (2 * p) - 2 * q == -2 * ((1 - p) * q);
  }

  /** Above 2^53 the conversion names another number: the one just below, in the first case. */
  lemma FirstInexact()
    ensures ToDouble(TWO_TO_THE_53 + 1) == Finite(TWO_TO_THE_53)
  {
    var n := TWO_TO_THE_53 + 1;
    assert Exponent(n / 2) == 0;
    assert Exponent(n) == 1 && Pow2(1) == 2 * Pow2(0) == 2;
    assert n / 2 == TWO_TO_THE_52 && n % 2 == 1;
  }

  // ---------------------------------------------------------------- the parser

  /** A chain id is pinned exactly when its own decimal was declared, within the safe integers. */
  lemma PinnedExactly(declared: string, n: nat)
    ensures ParseExpectedChainId(declared) == Pinned(n) <==> declared == Print(n) && 1 <= n <= MAX_SAFE_INTEGER
  {
    PrintIsCanonical(n);
    ValueOfPrint(n);
    if declared != "" && AllDigits(declared) && declared[0] != '0' {
      var v := Value(declared);
      PrintOfValue(declared);
      LeadingDigitCounts(declared);
      if v < TWO_TO_THE_53 {
        SmallIsExact(v);
      } else {
        LargeStaysLarge(v);
      }
      hide ToDouble, Print, Value, AllDigits;
    } else {
      ZeroIsNotDeclared();
    }
  }

  lemma ZeroIsNotDeclared()
    ensures Print(0) == "0"
  {
  }

  /** The other outcomes: nothing declared, not a canonical positive decimal, or 2^53 and above. */
  lemma RefusedExactly(declared: string)
    ensures ParseExpectedChainId(declared) == Unset <==> declared == ""
    ensures ParseExpectedChainId(declared) == NotCanonical <==>
            declared != "" && !(IsCanonical(declared) && declared != "0")
    ensures ParseExpectedChainId(declared) == NotExact <==>
            IsCanonical(declared) && Value(declared) >= TWO_TO_THE_53
  {
    if IsCanonical(declared) && declared != "0" {
      PinnedExactly(declared, Value(declared));
      PrintOfValue(declared);
      LeadingDigitCounts(declared);
      if Value(declared) >= TWO_TO_THE_53 {
        LargeStaysLarge(Value(declared));
      }
    }
  }
}
