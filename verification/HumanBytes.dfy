/** The unit choice of `humanReadableBytes`. */
module HumanBytes {
  import opened Int64

  const UNIT := 1024

  function Pow1024(e: nat): nat {
    if e == 0 then 1 else UNIT * Pow1024(e - 1)
  }

  /** Below one kilobyte the number is printed as it is. Otherwise `exp` indexes "KMGTPE" and
      `div` is its unit: for every uint64 the index is in range, `div` does not overflow and
      the quotient lies in [1, 1024). */
  method ChooseUnit(bytes: uint64) returns (scaled: bool, div: int, exp: nat)
    ensures scaled <==> bytes >= UNIT
    ensures scaled ==> exp <= 5 && div == Pow1024(exp + 1) < TWO_64 && div <= bytes < UNIT * div
  {
    if bytes < UNIT {
      return false, 1, 0;
    }
    scaled, div, exp := true, UNIT, 0;
    var n: int := bytes / UNIT;
    while n >= UNIT
      invariant n >= 1 && exp <= 5 && div == Pow1024(exp + 1) > 0
      invariant n * div <= bytes < (n + 1) * div
      decreases n
    {
      SmallUnit(exp, div, n, bytes);
      Refine(n, div, bytes);
      n := n / UNIT;
      div := div * UNIT;
      exp := exp + 1;
    }
    Bound(n, div, bytes);
  }

  lemma Scale(a: int, b: int, k: nat)
    requires a <= b
    ensures a * k <= b * k
  {
  }

  lemma SmallUnit(exp: nat, div: int, n: int, bytes: uint64)
    requires exp <= 5 && div == Pow1024(exp + 1) && n >= UNIT && n * div <= bytes
    ensures exp < 5
  {
  }

  lemma Refine(n: int, div: int, bytes: int)
    requires n >= UNIT && div > 0 && n * div <= bytes < (n + 1) * div
    ensures (n / UNIT) * (div * UNIT) <= bytes < (n / UNIT + 1) * (div * UNIT)
  {
    var q := n / UNIT;
    Scale(q * UNIT, n, div);
    Scale(n + 1, (q + 1) * UNIT, div);
    Regroup(q, div);
    Regroup(q + 1, div);
  }

  lemma Regroup(q: int, div: int)
    ensures q * (div * UNIT) == (q * UNIT) * div
  {
  }

  lemma Bound(n: int, div: int, bytes: int)
    requires 1 <= n < UNIT && div > 0 && n * div <= bytes < (n + 1) * div
    ensures div <= bytes < UNIT * div
  {
    Scale(1, n, div);
    Scale(n + 1, UNIT, div);
  }
}
