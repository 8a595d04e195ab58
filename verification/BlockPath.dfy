/** The name under which a block of a file is stored: "<file>_blk_<id>", with the
    id in decimal.  The name tells the file and the id apart, whatever characters
    the file name has. */
module BlockPath {
  const SEPARATOR := "_blk_"

  function Digit(d: nat): char
    requires d < 10
  {
    '0' + d as char
  }

  /** printf("%d") of a number that is not negative. */
  function Decimal(n: nat): string {
    if n < 10 then [Digit(n)] else Decimal(n / 10) + [Digit(n % 10)]
  }

  function PathOf(name: string, id: nat): string {
    name + SEPARATOR + Decimal(id)
  }

  predicate IsDigit(c: char) {
    '0' <= c <= '9'
  }

  lemma {:induction false} DecimalHasDigits(n: nat)
    ensures forall i: nat :: i < |Decimal(n)| ==> IsDigit(Decimal(n)[i])
    ensures |Decimal(n)| > 0
  {
    if n >= 10 {
      DecimalHasDigits(n / 10);
    }
  }

  /** The number that a string of decimal digits denotes. */
  function ValueOf(s: string): int {
    if s == [] then 0 else 10 * ValueOf(s[..|s| - 1]) + (s[|s| - 1] as int - '0' as int)
  }

  /** Decimal(n) denotes n, and has no leading zero. */
  lemma {:induction false} DecimalDenotes(n: nat)
    ensures ValueOf(Decimal(n)) == n
    ensures n > 0 ==> Decimal(n)[0] != '0'
    ensures n == 0 ==> Decimal(n) == "0"
  {
    var s := Decimal(n);
    if n < 10 {
      assert s[..|s| - 1] == [];
    } else {
      DecimalHasDigits(n / 10);
      DecimalDenotes(n / 10);
      assert s[..|s| - 1] == Decimal(n / 10);
    }
  }

  lemma {:induction false} DecimalInjective(m: nat, n: nat)
    requires Decimal(m) == Decimal(n)
    ensures m == n
  {
    DecimalHasDigits(m / 10);
    DecimalHasDigits(n / 10);
    var s := Decimal(m);
    assert Digit(m % 10) == s[|s| - 1] == Digit(n % 10);
    if m >= 10 {
      assert Decimal(m / 10) == s[..|s| - 1] == Decimal(n / 10);
      DecimalInjective(m / 10, n / 10);
    }
  }

  /** Two blocks have the same path only if they are the same block of the same file. */
  lemma PathInjective(a: string, i: nat, b: string, j: nat)
    ensures PathOf(a, i) == PathOf(b, j) <==> a == b && i == j
  {
    if PathOf(a, i) == PathOf(b, j) {
      var s := PathOf(a, i);
      DecimalHasDigits(i);
      DecimalHasDigits(j);
      LastUnderscore(a, i);
      LastUnderscore(b, j);
      var k, l := |a| + 4, |b| + 4;
      assert s[k] == '_' && s[l] == '_';
      assert k == l;
      assert a == s[..|a|] == b;
      assert Decimal(i) == s[k + 1..] == Decimal(j);
      DecimalInjective(i, j);
    }
  }

  /** The last underscore of a path stands right before the id. */
  lemma LastUnderscore(a: string, i: nat)
    ensures |PathOf(a, i)| > |a| + 5 && PathOf(a, i)[|a| + 4] == '_'
    ensures forall k: nat :: |a| + 4 < k < |PathOf(a, i)| ==> PathOf(a, i)[k] != '_'
  {
    DecimalHasDigits(i);
    var s := PathOf(a, i);
    forall k: nat | |a| + 4 < k < |s| ensures s[k] != '_' {
      assert s[k] == Decimal(i)[k - |a| - 5];
      assert IsDigit(Decimal(i)[k - |a| - 5]);
    }
  }
}
