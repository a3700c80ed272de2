/** The byte-count pretty-printer shared by both backends: divide by 1024
    until the value drops below 1024, stopping at terabytes. The unit is
    chosen on the exact byte count; the scaled value is an exact real (its
    rendering with two or one decimals is not modelled). */
module Sizes {

  datatype Unit = B | KB | MB | GB | TB

  /** The unit after `k` divisions by 1024. */
  function UnitAt(k: nat): Unit
    requires k <= 4
  {
    [B, KB, MB, GB, TB][k]
  }

  function Pow1024(k: nat): (p: nat)
    ensures p >= 1
  {
    if k == 0 then 1 else 1024 * Pow1024(k - 1)
  }

  /** The index of the chosen unit: 1024^k <= n < 1024^(k+1), except that
      terabytes (k = 4) have no upper bound. */
  function UnitIndex(n: nat): (k: nat)
    ensures k <= 4
    ensures k < 4 ==> n < Pow1024(k + 1)
    ensures 0 < k ==> Pow1024(k) <= n
  {
    UnitIndexFrom(n, 0)
  }

  /** UnitIndex, having already passed the first `k` units. */
  function UnitIndexFrom(n: nat, k: nat): (r: nat)
    requires k <= 4
    requires 0 < k ==> Pow1024(k) <= n
    ensures k <= r <= 4
    ensures r < 4 ==> n < Pow1024(r + 1)
    ensures 0 < r ==> Pow1024(r) <= n
    decreases 4 - k
  {
    if k == 4 || n < Pow1024(k + 1) then k else UnitIndexFrom(n, k + 1)
  }

  lemma {:induction false} Pow1024Monotone(i: nat, j: nat)
    requires i <= j
    ensures Pow1024(i) <= Pow1024(j)
  {
    if i < j {
      Pow1024Monotone(i, j - 1);
    }
  }

  /** The chosen unit is the FIRST one whose next power bounds the count:
      every earlier unit was passed because n >= 1024^(j+1). */
  lemma UnitIndexIsFirst(n: nat, j: nat)
    requires j < UnitIndex(n)
    ensures Pow1024(j + 1) <= n
  {
    Pow1024Monotone(j + 1, UnitIndex(n));
  }

  /** A larger count never gets a smaller unit. */
  lemma UnitIndexMonotone(m: nat, n: nat)
    requires m <= n
    ensures UnitIndex(m) <= UnitIndex(n)
  {
    if UnitIndex(n) < UnitIndex(m) {
      UnitIndexIsFirst(m, UnitIndex(n));
    }
  }

  /** What the pretty-printer produces before rendering: the sentinel "N/A",
      or a scaled value and its unit. */
  datatype SizeText = NotAvailable | Scaled(value: real, unit: Unit)

  /** A cell of a listing that holds either a fixed text ("Automatic", "")
      or a formatted size. */
  datatype SizeCell = Placeholder(text: string) | Sized(size: SizeText)

  /** The pretty-printed form of an integer byte count. */
  function SizeTextOf(n: nat): (t: SizeText)
    ensures t == NotAvailable <==> n == 0
    ensures t.Scaled? ==> t.unit == UnitAt(UnitIndex(n))
    ensures t.Scaled? ==> t.value * Pow1024(UnitIndex(n)) as real == n as real
    ensures t.Scaled? && t.unit != TB ==> t.value < 1024.0
    ensures t.Scaled? && t.unit != B ==> 1.0 <= t.value
  {
    if n == 0 then NotAvailable
    else
      var k := UnitIndex(n);
      var p := Pow1024(k) as real;
      ScaledBounds(n, k);
      Scaled(n as real / p, UnitAt(k))
  }

  /** The scaled value lies in [1, 1024) for every unit strictly between
      the ends. */
  lemma ScaledBounds(n: nat, k: nat)
    requires 0 < n && k == UnitIndex(n)
    ensures k < 4 ==> n as real / Pow1024(k) as real < 1024.0
    ensures k > 0 ==> 1.0 <= n as real / Pow1024(k) as real
  {
    var p := Pow1024(k) as real;
    if k < 4 {
      assert (n as real) < 1024.0 * p;
      DivBelow(n as real, p, 1024.0);
    }
    if k > 0 {
      assert Pow1024(k) <= n;
      DivAtLeastOne(n as real, p);
    }
  }

  lemma DivBelow(x: real, p: real, c: real)
    requires p > 0.0 && x < c * p
    ensures x / p < c
  {
    assert x / p * p == x;
  }

  lemma DivAtLeastOne(x: real, p: real)
    requires p > 0.0 && p <= x
    ensures 1.0 <= x / p
  {
    assert x / p * p == x;
  }

  /** Only one unit index meets the bounds 1024^k <= n < 1024^(k+1): the one
      UnitIndex chooses. */
  lemma UnitIndexUnique(n: nat, k: nat)
    requires k <= 4
    requires k < 4 ==> n < Pow1024(k + 1)
    requires 0 < k ==> Pow1024(k) <= n
    ensures k == UnitIndex(n)
  {
    var u := UnitIndex(n);
    if k < u {
      Pow1024Monotone(k + 1, u);
    } else if u < k {
      Pow1024Monotone(u + 1, k);
    }
  }

  /** The loop of `format_filesize` / `format_size` on a non-zero count:
      divide by 1024 while the value is at least 1024, at most four times. */
  method ScaleBytes(n: nat) returns (value: real, unit: Unit)
    ensures unit == UnitAt(UnitIndex(n))
    ensures value == n as real / Pow1024(UnitIndex(n)) as real
  {
    value := n as real;
    var k := 0;
    while k < 4 && 1024.0 <= value
      invariant k <= 4
      invariant value == n as real / Pow1024(k) as real
      invariant 0 < k ==> Pow1024(k) <= n
    {
      ghost var p := Pow1024(k) as real;
      AtLeastTimes(n as real, p, 1024.0);
      DivDiv(n as real, p, 1024.0);
      value := value / 1024.0;
      k := k + 1;
    }
    if k < 4 {
      BelowTimes(n as real, Pow1024(k) as real, 1024.0);
    }
    UnitIndexUnique(n, k);
    unit := UnitAt(k);
  }

  lemma AtLeastTimes(x: real, p: real, c: real)
    requires p > 0.0 && c <= x / p
    ensures c * p <= x
  {
    assert x / p * p == x;
  }

  lemma BelowTimes(x: real, p: real, c: real)
    requires p > 0.0 && x / p < c
    ensures x < c * p
  {
    assert x / p * p == x;
  }

  lemma DivDiv(x: real, p: real, c: real)
    requires p > 0.0 && c > 0.0
    ensures x / p / c == x / (c * p)
  {
  }
}
