// The sieve of Eratosthenes used as a CPU load, against the definition of a prime number.

module PrimeSieve {

  ghost predicate Divides(d: nat, n: nat) {
    exists m: nat :: Product(m, d) == n
  }

  function Product(m: nat, d: nat): nat {
    m * d
  }

  ghost predicate IsPrime(n: int) {
    n >= 2 && forall d: nat | 2 <= d < n :: !Divides(d, n)
  }

  /** The primes up to n, in increasing order. */
  ghost function PrimesUpTo(n: int): seq<int> {
    if n < 2 then [] else PrimesUpTo(n - 1) + if IsPrime(n) then [n] else []
  }

  lemma {:induction false} PrimesUpToSpec(n: int)
    ensures forall p: int :: p in PrimesUpTo(n) <==> IsPrime(p) && p <= n
    ensures forall i, j | 0 <= i < j < |PrimesUpTo(n)| :: PrimesUpTo(n)[i] < PrimesUpTo(n)[j]
  {
    if n >= 2 {
      PrimesUpToSpec(n - 1);
      var rest := PrimesUpTo(n - 1);
      assert forall i | 0 <= i < |rest| :: rest[i] in rest;
    }
  }

  // ---------- division ----------

  lemma DividesTrans(d: nat, s: nat, n: nat)
    requires Divides(d, s) && Divides(s, n)
    ensures Divides(d, n)
  {
    var a: nat :| Product(a, d) == s;
    var b: nat :| Product(b, s) == n;
    assert b * (a * d) == (b * a) * d;
    assert Product(b * a, d) == n;
  }

  lemma {:induction false} ProductMonotone(a: nat, b: nat, s: nat)
    requires a <= b
    ensures Product(a, s) <= Product(b, s)
  {
    assert b * s == a * s + (b - a) * s;
  }

  lemma SmallerCofactor(m: nat, s: nat, bound: nat)
    requires Product(m, s) < Product(bound, s)
    ensures m < bound
  {
    if bound <= m {
      ProductMonotone(bound, m, s);
    }
  }

  /** A divisor strictly between 1 and n has a cofactor that is another one. */
  lemma Cofactor(s: nat, n: nat) returns (m: nat)
    requires 2 <= s < n && Divides(s, n)
    ensures 2 <= m < n && Product(m, s) == n && Divides(m, n)
  {
    m :| Product(m, s) == n;
    assert m != 0 && m != 1;
    ProductMonotone(2, s, m);
    assert Product(s, m) == n && Product(2, m) == 2 * m;
  }

  // ---------- what the sieve holds ----------

  /** No number from 2 up to (not including) k, other than j itself, divides j. */
  ghost predicate Unmarked(j: nat, k: nat) {
    forall d: nat | 2 <= d < k && d < j :: !Divides(d, j)
  }

  lemma UnmarkedIsPrime(j: nat, k: nat)
    requires 2 <= j <= k
    ensures Unmarked(j, k) <==> IsPrime(j)
  {
  }

  /** A composite start marks nothing new: every multiple of it already has a smaller factor. */
  lemma SkipComposite(j: nat, start: nat)
    requires 2 <= start && !Unmarked(start, start)
    ensures Unmarked(j, start + 1) <==> Unmarked(j, start)
  {
    if start < j && Divides(start, j) {
      var d: nat :| 2 <= d < start && Divides(d, start);
      DividesTrans(d, start, j);
      assert !Unmarked(j, start);
    }
  }

  /** A prime start need only mark from its square on: smaller multiples have a smaller cofactor. */
  lemma MarkFromSquare(j: nat, start: nat)
    requires 2 <= start
    ensures Unmarked(j, start + 1) <==> Unmarked(j, start) && !(Product(start, start) <= j && Divides(start, j))
  {
    if start < j < Product(start, start) && Divides(start, j) {
      var m := Cofactor(start, j);
      SmallerCofactor(m, start, start);
      assert !Unmarked(j, start);
    }
    ProductMonotone(2, start, start);
    assert Product(2, start) == 2 * start;
  }

  ghost predicate IsRoot(root: nat, num: nat) {
    Product(root, root) <= num < Product(root + 1, root + 1)
  }

  lemma RootBounds(root: nat, num: nat)
    requires IsRoot(root, num) && num >= 1
    ensures 1 <= root <= num
  {
    if root >= 1 {
      ProductMonotone(1, root, root);
      assert Product(1, root) == root;
    }
  }

  /** Beyond the square root nothing is left to mark. */
  lemma StopAtRoot(j: nat, root: nat, num: nat)
    requires 2 <= j <= num && IsRoot(root, num)
    ensures Unmarked(j, root + 1) <==> IsPrime(j)
  {
    if !IsPrime(j) {
      var d: nat :| 2 <= d < j && Divides(d, j);
      var m := Cofactor(d, j);
      if d > root {
        ProductMonotone(root + 1, d, m);
        assert Product(d, m) == j && Product(root + 1, m) == Product(m, root + 1);
        SmallerCofactor(m, root + 1, root + 1);
      }
      assert !Unmarked(j, root + 1);
    }
  }

  // ---------- the program ----------

  /** The integer square root, for `int(math.sqrt(num))`. */
  method IntegerRoot(num: nat) returns (root: nat)
    ensures IsRoot(root, num)
  {
    root := 0;
    while (root + 1) * (root + 1) <= num
      invariant root * root <= num
      decreases num - root
    {
      root := root + 1;
    }
  }

  datatype SieveResult = Primes(primes: seq<int>) | InvalidInput

  /** prime_sieve: exactly the primes up to num, in increasing order. */
  method Sieve(num: int) returns (r: SieveResult)
    ensures r == if num <= 0 then InvalidInput else Primes(PrimesUpTo(num))
  {
    if num <= 0 {
      return InvalidInput;
    }
    var sieve := new bool[num + 1](_ => true);
    var prime: seq<int> := [];
    var start := 2;
    var end := IntegerRoot(num);
    RootBounds(end, num);
    while start <= end
      invariant 2 <= start <= end + 1
      invariant forall j: nat | 2 <= j <= num :: sieve[j] <==> Unmarked(j, start)
      invariant prime == PrimesUpTo(start - 1)
    {
      UnmarkedIsPrime(start, start);
      if sieve[start] {
        prime := prime + [start];
        MarkMultiples(sieve, num, start);
      } else {
        forall j: nat | 2 <= j <= num ensures Unmarked(j, start + 1) <==> Unmarked(j, start) {
          SkipComposite(j, start);
        }
      }
      start := start + 1;
    }
    forall j: nat | end + 1 <= j <= num ensures sieve[j] <==> IsPrime(j) { StopAtRoot(j, end, num); }
    prime := AppendUnmarked(sieve, num, end, prime);
    r := Primes(prime);
  }

  /** The last loop: everything unmarked beyond the root is prime. */
  method AppendUnmarked(sieve: array<bool>, num: nat, end: nat, found: seq<int>) returns (prime: seq<int>)
    requires sieve.Length == num + 1 && 1 <= end <= num && found == PrimesUpTo(end)
    requires forall j: nat | end + 1 <= j <= num :: sieve[j] <==> IsPrime(j)
    ensures prime == PrimesUpTo(num)
  {
    prime := found;
    for j := end + 1 to num + 1
      invariant prime == PrimesUpTo(j - 1)
    {
      if sieve[j] {
        prime := prime + [j];
      }
    }
  }

  /** The inner loop: marks start * start, start * start + start, and so on. */
  method MarkMultiples(sieve: array<bool>, num: nat, start: nat)
    requires sieve.Length == num + 1 && 2 <= start
    requires forall j: nat | 2 <= j <= num :: sieve[j] <==> Unmarked(j, start)
    modifies sieve
    ensures forall j: nat | 2 <= j <= num :: sieve[j] <==> Unmarked(j, start + 1)
  {
    var i := start * start;
    ghost var m := start;
    while i <= num
      invariant i == Product(m, start) >= Product(start, start)
      invariant forall j: nat | 2 <= j <= num ::
        sieve[j] <==> Unmarked(j, start) && !(Product(start, start) <= j < i && Divides(start, j))
      decreases num - i
    {
      forall j: nat | i < j < i + start ensures !Divides(start, j) { Between(j, m, start); }
      assert Divides(start, i);
      if sieve[i] {
        sieve[i] := false;
      }
      assert Product(m + 1, start) == Product(m, start) + start;
      i, m := i + start, m + 1;
    }
    forall j: nat | 2 <= j <= num ensures sieve[j] <==> Unmarked(j, start + 1) { MarkFromSquare(j, start); }
  }

  /** There is no multiple of s strictly between two consecutive ones. */
  lemma Between(j: nat, m: nat, s: nat)
    requires Product(m, s) < j < Product(m, s) + s
    ensures !Divides(s, j)
  {
    if Divides(s, j) {
      var k: nat :| Product(k, s) == j;
      assert Product(m + 1, s) == Product(m, s) + s;
      SmallerCofactor(m, s, k);
      ProductMonotone(m + 1, k, s);
    }
  }
}
