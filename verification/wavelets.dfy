/**
  The static table of wavelet reductions and the padding arithmetic built on it.

  The table's keys are family names: a prefix ("db", "sym" or "coif") followed
  by the filter order written in decimal without leading zeros, for orders
  db1..db38, sym2..sym20 and coif1..coif17. Each family maps to a pair
  (r, r) where r is the length of its reconstruction filter minus two:
  Daubechies and Symlet filters of order N have length 2N, Coiflet filters of
  order N have length 6N. The table is stated here by that rule rather than
  as 74 literal rows; the `Row` lemmas check the rule against the first,
  a middle and the last row of each family.
 */
module Wavelets {
  import opened Results

  datatype Kind = Daubechies | Symlet | Coiflet

  datatype Family = Family(kind: Kind, order: nat)

  function Prefix(k: Kind): string {
    match k
    case Daubechies => "db"
    case Symlet => "sym"
    case Coiflet => "coif"
  }

  function MinOrder(k: Kind): nat {
    if k == Symlet then 2 else 1
  }

  function MaxOrder(k: Kind): nat {
    match k
    case Daubechies => 38
    case Symlet => 20
    case Coiflet => 17
  }

  /** The family has a row in the table. */
  predicate Supported(f: Family) {
    MinOrder(f.kind) <= f.order <= MaxOrder(f.kind)
  }

  /** Length of the family's reconstruction filter. */
  function FilterLength(f: Family): nat {
    if f.kind == Coiflet then 6 * f.order else 2 * f.order
  }

  // ---------------------------------------------------------------- names

  function DigitChar(d: nat): char
    requires d < 10
  {
    "0123456789"[d]
  }

  predicate IsDigit(c: char) {
    '0' <= c <= '9'
  }

  function DigitValue(c: char): nat
    requires IsDigit(c)
  {
    (c as int - '0' as int) as nat
  }

  /** Decimal rendering of `n` without leading zeros. */
  function Decimal(n: nat): (s: string)
    ensures |s| > 0
    decreases n
  {
    if n < 10 then [DigitChar(n)] else Decimal(n / 10) + [DigitChar(n % 10)]
  }

  predicate AllDigits(s: string) {
    forall k | 0 <= k < |s| :: IsDigit(s[k])
  }

  /** A decimal numeral in the form `Decimal` produces. */
  predicate Canonical(s: string) {
    |s| > 0 && AllDigits(s) && (|s| == 1 || s[0] != '0')
  }

  function DecimalValue(s: string): nat
    requires AllDigits(s)
    decreases |s|
  {
    if |s| == 0 then 0 else DecimalValue(s[..|s| - 1]) * 10 + DigitValue(s[|s| - 1])
  }

  function Name(f: Family): string {
    Prefix(f.kind) + Decimal(f.order)
  }

  predicate HasPrefix(s: string, p: string) {
    |p| <= |s| && s[..|p|] == p
  }

  /**
    Reads a family name back: the prefix, then a canonical decimal order.
    Whatever it reads is spelled exactly as that family's printed name.
   */
  function ParseFamily(name: string): (r: Option<Family>)
    ensures r.Some? ==> Name(r.value) == name
  {
    var kind :=
      if HasPrefix(name, "db") then Some(Daubechies)
      else if HasPrefix(name, "sym") then Some(Symlet)
      else if HasPrefix(name, "coif") then Some(Coiflet)
      else None;
    if kind.None? then None
    else
      var p := Prefix(kind.value);
      var digits := name[|p|..];
      if Canonical(digits) then
        DecimalOfValue(digits);
        assert name == p + digits;
        Some(Family(kind.value, DecimalValue(digits)))
      else None
  }

  /**
    The reduction table: the (rows, cols) shortfall of a reconstruction for
    a supported family name, and None for every other string.
   */
  function Reductions(name: string): (r: Option<(nat, nat)>)
    ensures r.Some? ==> r.value.0 == r.value.1 && r.value.0 % 2 == 0
  {
    match ParseFamily(name)
    case None => None
    case Some(f) =>
      if Supported(f) then Some((FilterLength(f) - 2, FilterLength(f) - 2)) else None
  }

  // ------------------------------------------------------ name round trips

  lemma {:induction false} DecimalDigits(n: nat)
    ensures Canonical(Decimal(n))
    ensures DecimalValue(Decimal(n)) == n
    decreases n
  {
    if n >= 10 {
      DecimalDigits(n / 10);
      var s := Decimal(n);
      assert s[..|s| - 1] == Decimal(n / 10);
    }
  }

  lemma {:induction false} CanonicalValue(s: string)
    requires Canonical(s)
    ensures |s| >= 2 ==> DecimalValue(s) >= 10
    ensures s[0] != '0' ==> DecimalValue(s) >= 1
    decreases |s|
  {
    if |s| >= 2 {
      var p := s[..|s| - 1];
      assert p[0] == s[0];
      CanonicalValue(p);
    }
  }

  lemma {:induction false} DecimalOfValue(s: string)
    requires Canonical(s)
    ensures Decimal(DecimalValue(s)) == s
    decreases |s|
  {
    var n := DecimalValue(s);
    if |s| == 1 {
      assert "0123456789"[DigitValue(s[0])] == s[0];
    } else {
      var p := s[..|s| - 1];
      assert p[0] == s[0];
      CanonicalValue(s);
      CanonicalValue(p);
      DecimalOfValue(p);
      assert n / 10 == DecimalValue(p);
      assert "0123456789"[n % 10] == s[|s| - 1];
      assert s == p + [s[|s| - 1]];
    }
  }

  /** Reading a printed name gives back the family. */
  lemma ParseName(f: Family)
    ensures ParseFamily(Name(f)) == Some(f)
  {
    var n := Name(f);
    var d := Decimal(f.order);
    DecimalDigits(f.order);
    assert n[|Prefix(f.kind)|..] == d;
    assert d[0] != 's' && d[0] != 'c' && d[0] != 'd';
    match f.kind
    case Daubechies =>
      assert HasPrefix(n, "db");
    case Symlet =>
      assert !HasPrefix(n, "db") by { assert n[0] == 's'; }
      assert HasPrefix(n, "sym");
    case Coiflet =>
      assert !HasPrefix(n, "db") by { assert n[0] == 'c'; }
      assert !HasPrefix(n, "sym") by { assert n[0] == 'c'; }
      assert HasPrefix(n, "coif");
  }

  /** The table's keys are exactly the names of the supported families. */
  lemma ReductionsKeys(name: string)
    ensures Reductions(name).Some? <==> exists f :: Supported(f) && Name(f) == name
  {
    if Reductions(name).Some? {
      var f := ParseFamily(name).value;
      assert Supported(f) && Name(f) == name;
    }
    if f :| Supported(f) && Name(f) == name {
      ParseName(f);
    }
  }

  /** The reduction of a supported family is its filter length minus two. */
  lemma ReductionOfFamily(f: Family)
    requires Supported(f)
    ensures Reductions(Name(f)) == Some((FilterLength(f) - 2, FilterLength(f) - 2))
  {
    ParseName(f);
  }

  // ------------------------------------------------------- the table's rows

  lemma RowOf(name: string, f: Family)
    requires Supported(f) && name == Name(f)
    ensures Reductions(name) == Some((FilterLength(f) - 2, FilterLength(f) - 2))
  {
    ReductionOfFamily(f);
  }

  /** The first Daubechies row. */
  lemma RowDb1()
    ensures Reductions("db1") == Some((0, 0))
  {
    RowOf("db1", Family(Daubechies, 1));
  }

  /** A middle Daubechies row. */
  lemma RowDb12()
    ensures Reductions("db12") == Some((22, 22))
  {
    assert Decimal(12) == "12";
    RowOf("db12", Family(Daubechies, 12));
  }

  /** The last Daubechies row. */
  lemma RowDb38()
    ensures Reductions("db38") == Some((74, 74))
  {
    assert Decimal(38) == "38";
    RowOf("db38", Family(Daubechies, 38));
  }

  /** The first Symlet row. */
  lemma RowSym2()
    ensures Reductions("sym2") == Some((2, 2))
  {
    RowOf("sym2", Family(Symlet, 2));
  }

  /** A middle Symlet row. */
  lemma RowSym11()
    ensures Reductions("sym11") == Some((20, 20))
  {
    assert Decimal(11) == "11";
    RowOf("sym11", Family(Symlet, 11));
  }

  /** The last Symlet row. */
  lemma RowSym20()
    ensures Reductions("sym20") == Some((38, 38))
  {
    assert Decimal(20) == "20";
    RowOf("sym20", Family(Symlet, 20));
  }

  /** The first Coiflet row. */
  lemma RowCoif1()
    ensures Reductions("coif1") == Some((4, 4))
  {
    RowOf("coif1", Family(Coiflet, 1));
  }

  /** A middle Coiflet row. */
  lemma RowCoif9()
    ensures Reductions("coif9") == Some((52, 52))
  {
    RowOf("coif9", Family(Coiflet, 9));
  }

  /** The last Coiflet row. */
  lemma RowCoif17()
    ensures Reductions("coif17") == Some((100, 100))
  {
    assert Decimal(17) == "17";
    RowOf("coif17", Family(Coiflet, 17));
  }

  /** Orders just outside each family's range have no row. */
  lemma OutOfRangeOrders()
    ensures Reductions("db39") == None
    ensures Reductions("sym1") == None
    ensures Reductions("coif18") == None
  {
    assert "db39" == Name(Family(Daubechies, 39));
    ParseName(Family(Daubechies, 39));
    assert "sym1" == Name(Family(Symlet, 1));
    ParseName(Family(Symlet, 1));
    assert "coif18" == Name(Family(Coiflet, 18));
    ParseName(Family(Coiflet, 18));
  }

  /** A padded order or another family's name has no row. */
  lemma NonCanonicalNames()
    ensures Reductions("db01") == None
    ensures Reductions("haar") == None
  {
    assert !Canonical("db01"[2..]);
    assert "haar"[0] == 'h';
  }

  // --------------------------------------------------------------- padding

  /** `orig + reduction`, bumped to the next even number when odd. */
  function PaddedDim(orig: nat, reduction: nat): (p: nat)
    ensures p % 2 == 0
    ensures orig + reduction <= p <= orig + reduction + 1
  {
    var p := orig + reduction;
    if p % 2 != 0 then p + 1 else p
  }

  /** The amount the original grid is shifted by to sit centred in the padded one. */
  function CentreOffset(padded: nat, orig: nat): (off: nat)
    requires orig <= padded
    ensures orig + off <= padded
  {
    (padded - orig) / 2
  }

  /**
    With an even reduction the offset is half the reduction: the rounding row
    or column added for an odd size lands after the original grid.
   */
  lemma EvenReductionCentres(orig: nat, reduction: nat)
    requires reduction % 2 == 0
    ensures CentreOffset(PaddedDim(orig, reduction), orig) == reduction / 2
  {
  }
}
