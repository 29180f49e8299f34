/** The prime sieve on lazy lists. A delayed tail is represented by what it will compute; forcing one may have to look
    at any number of elements, so it is cut off after a number of calls.
 */
module Sieve {

  datatype Option<T> = None | Some(value: T)

  // ---------- numbers ----------

  ghost predicate Divides(d: int, n: int)
    requires d > 0
  {
    n % d == 0
  }

  ghost predicate Prime(n: int) {
    n >= 2 && forall d :: 2 <= d < n ==> !Divides(d, n)
  }

  lemma {:induction false} PrimeDivisor(n: int) returns (q: int)
    requires n >= 2
    ensures 2 <= q <= n && Prime(q) && Divides(q, n)
    decreases n
  {
    if Prime(n) {
      q := n;
    } else {
      var d :| 2 <= d < n && Divides(d, n);
      q := PrimeDivisor(d);
      DividesTrans(q, d, n);
    }
  }

  lemma {:induction false} DividesTrans(a: int, b: int, c: int)
    requires a > 0 && b > 0 && Divides(a, b) && Divides(b, c)
    ensures Divides(a, c)
  {
    var k, m := b / a, c / b;
    assert b == k * a && c == m * b;
    assert c == (m * k) * a;
    MultipleDivides(a, m * k);
  }

  lemma {:induction false} MultipleDivides(a: int, k: int)
    requires a > 0
    ensures Divides(a, k * a)
  {
    var n := k * a;
    var m, r := n / a, n % a;
    assert n == m * a + r && 0 <= r < a;
    assert (k - m) * a == r;
    assert k - m <= -1 ==> (k - m) * a <= -a;
    assert k - m >= 1 ==> (k - m) * a >= a;
  }

  function Factorial(n: nat): int {
    if n == 0 then 1 else n * Factorial(n - 1)
  }

  lemma {:induction false} FactorialDivisible(n: nat, d: int)
    requires 1 <= d <= n
    ensures Factorial(n) >= 1 && Divides(d, Factorial(n))
  {
    FactorialPositive(n);
    FactorialPositive(n - 1);
    if d == n {
      MultipleDivides(n, Factorial(n - 1));
      assert Factorial(n) == Factorial(n - 1) * n;
    } else {
      FactorialDivisible(n - 1, d);
      var k := Factorial(n - 1) / d;
      assert Factorial(n) == n * (k * d) == (n * k) * d;
      MultipleDivides(d, n * k);
    }
  }

  lemma {:induction false} FactorialPositive(n: nat)
    ensures Factorial(n) >= 1
  {
    if n > 0 {
      FactorialPositive(n - 1);
      assert n * Factorial(n - 1) >= 1;
    }
  }

  /** There is a prime above every number. */
  lemma {:induction false} PrimeAbove(n: nat) returns (q: int)
    ensures q > n && Prime(q)
  {
    FactorialPositive(n);
    q := PrimeDivisor(Factorial(n) + 1);
    if q <= n {
      FactorialDivisible(n, q);
      NotBoth(q, Factorial(n));
    }
  }

  lemma {:induction false} NotBoth(d: int, n: int)
    requires d >= 2 && Divides(d, n)
    ensures !Divides(d, n + 1)
  {
    var k := n / d;
    assert n + 1 == k * d + 1;
    assert (n + 1) % d == 1 by {
      var r := (n + 1) % d;
      var m := (n + 1) / d;
      assert n + 1 == m * d + r && 0 <= r < d;
      assert (m - k) * d == 1 - r;
      assert m - k <= -1 ==> (m - k) * d <= -d;
      assert m - k >= 1 ==> (m - k) * d >= d;
    }
  }

  // ---------- lazy lists ----------

  /** A delayed tail: infSeq(e), filterMultiples(t(), n), or sieve(t()). */
  datatype Thunk = InfSeq(e: nat) | FilterMultiples(t: Thunk, n: nat) | SieveOf(t: Thunk)

  datatype Cell = Cons(head: nat, tail: Thunk)

  /** Calling a delayed tail, to a depth of `calls`. */
  function Force(t: Thunk, calls: nat): Option<Cell>
    decreases calls
  {
    if calls == 0 then None
    else
      match t
      case InfSeq(e) => Some(Cons(e, InfSeq(e + 1)))
      case FilterMultiples(f, n) =>
        var c := Force(f, calls - 1);
        if c.None? || n == 0 then None
        else if c.value.head % n == 0 then Force(FilterMultiples(c.value.tail, n), calls - 1)
        else Some(Cons(c.value.head, FilterMultiples(c.value.tail, n)))
      case SieveOf(f) =>
        var c := Force(f, calls - 1);
        if c.None? then None
        else Some(Cons(c.value.head, SieveOf(FilterMultiples(c.value.tail, c.value.head))))
  }

  /** The sieve of the list that begins with 2 and goes on with the odd numbers. */
  function Primes(): Cell {
    Cons(2, SieveOf(FilterMultiples(FilterMultiples(InfSeq(2), 2), 2)))
  }

  /** firstN, which calls the tail also behind the last element it takes. */
  function FirstN(c: Cell, n: nat, calls: nat): Option<seq<nat>>
    decreases n
  {
    if n == 0 then Some([])
    else
      var next := Force(c.tail, calls);
      if next.None? then None
      else
        var rest := FirstN(next.value, n - 1, calls);
        if rest.None? then None else Some([c.head] + rest.value)
  }

  // ---------- forcing ends ----------

  lemma {:induction false} MoreCalls(t: Thunk, k: nat, m: nat)
    requires k <= m && Force(t, k).Some?
    ensures Force(t, m) == Force(t, k)
    decreases k
  {
    match t
    case InfSeq(_) =>
    case SieveOf(f) => MoreCalls(f, k - 1, m - 1);
    case FilterMultiples(f, n) =>
      MoreCalls(f, k - 1, m - 1);
      var c := Force(f, k - 1).value;
      if c.head % n == 0 {
        MoreCalls(FilterMultiples(c.tail, n), k - 1, m - 1);
      }
  }

  /** Filters by ms, the outermost first, over the numbers from e on. */
  function Nest(ms: seq<nat>, e: nat): Thunk {
    if ms == [] then InfSeq(e) else FilterMultiples(Nest(ms[1..], e), ms[0])
  }

  ghost predicate Passes(ms: seq<nat>, x: nat) {
    forall i :: 0 <= i < |ms| ==> ms[i] > 0 && x % ms[i] != 0
  }

  /** x is the first number from e on that passes. */
  ghost predicate FirstToPass(ms: seq<nat>, e: nat, x: nat) {
    e <= x && Passes(ms, x) && forall y: nat {:trigger Passes(ms, y)} :: e <= y < x ==> !Passes(ms, y)
  }

  lemma {:induction false} HasFirst(ms: seq<nat>, e: nat, z: nat) returns (x: nat)
    requires e <= z && Passes(ms, z)
    ensures FirstToPass(ms, e, x) && x <= z
  {
    x := e;
    while !Passes(ms, x)
      invariant e <= x <= z && forall y: nat {:trigger Passes(ms, y)} :: e <= y < x ==> !Passes(ms, y)
      decreases z - x
    {
      x := x + 1;
    }
  }

  lemma {:induction false} PassesInner(ms: seq<nat>, x: nat)
    requires ms != []
    ensures Passes(ms, x) <==> Passes(ms[1..], x) && ms[0] > 0 && x % ms[0] != 0
  {
    if Passes(ms[1..], x) && ms[0] > 0 && x % ms[0] != 0 {
      forall i | 0 <= i < |ms|
        ensures ms[i] > 0 && x % ms[i] != 0
      {
        assert i > 0 ==> ms[i] == ms[1..][i - 1];
      }
    }
    if Passes(ms, x) {
      forall i | 0 <= i < |ms[1..]|
        ensures ms[1..][i] > 0 && x % ms[1..][i] != 0
      {
        assert ms[1..][i] == ms[i + 1];
      }
    }
  }

  /** Filters end with the first number that passes them all, when there is one. */
  lemma {:induction false} ForceNest(ms: seq<nat>, e: nat, x: nat) returns (calls: nat)
    requires FirstToPass(ms, e, x)
    ensures Force(Nest(ms, e), calls) == Some(Cons(x, Nest(ms, x + 1)))
    decreases |ms|, x - e
  {
    if ms == [] {
      assert Passes(ms, e);
      calls := 1;
    } else {
      PassesInner(ms, x);
      var y := HasFirst(ms[1..], e, x);
      var inner := ForceNest(ms[1..], e, y);
      PassesInner(ms, y);
      if y % ms[0] == 0 {
        ForceNestSkips(ms, e, y, x);
        var later := ForceNest(ms, y + 1, x);
        calls := inner + later + 1;
        MoreCalls(Nest(ms[1..], e), inner, calls - 1);
        MoreCalls(Nest(ms, y + 1), later, calls - 1);
      } else {
        assert Passes(ms, y);
        calls := inner + 1;
      }
    }
  }

  lemma {:induction false} ForceNestSkips(ms: seq<nat>, e: nat, y: nat, x: nat)
    requires ms != [] && FirstToPass(ms, e, x) && FirstToPass(ms[1..], e, y) && y <= x && ms[0] > 0 && y % ms[0] == 0
    ensures y < x && FirstToPass(ms, y + 1, x)
  {
    PassesInner(ms, x);
  }

  // ---------- the sieve ----------

  /** Filtering from e on by ms leaves the numbers above p that no prime up to p divides. */
  ghost predicate Sifted(ms: seq<nat>, e: nat, p: nat) {
    && 2 <= e <= p + 1
    && (forall i :: 0 <= i < |ms| ==> ms[i] <= p && Prime(ms[i]))
    && (forall q: nat {:trigger Prime(q)} :: q <= p && Prime(q) ==> q in ms)
    && (forall y: nat {:trigger Passes(ms, y)} :: e <= y <= p ==> !Passes(ms, y))
  }

  /** What passes next is the next prime. */
  lemma {:induction false} NextIsPrime(ms: seq<nat>, e: nat, p: nat, x: nat)
    requires Sifted(ms, e, p) && FirstToPass(ms, e, x)
    ensures p < x && Prime(x) && forall q: nat {:trigger Prime(q)} :: p < q < x ==> !Prime(q)
  {
    if !Prime(x) {
      var q := PrimeDivisor(x);
      assert q <= p ==> q in ms;
      if q > p {
        PrimePasses(ms, e, p, q);
      }
    }
    forall q: nat {:trigger Prime(q)} | p < q < x
      ensures !Prime(q)
    {
      if Prime(q) {
        PrimePasses(ms, e, p, q);
      }
    }
  }

  lemma {:induction false} PrimePasses(ms: seq<nat>, e: nat, p: nat, q: nat)
    requires Sifted(ms, e, p) && Prime(q) && q > p
    ensures Passes(ms, q)
  {
    forall i | 0 <= i < |ms|
      ensures ms[i] > 0 && q % ms[i] != 0
    {
      assert Prime(ms[i]) && !Divides(ms[i], q);
    }
  }

  lemma {:induction false} SiftedNext(ms: seq<nat>, e: nat, p: nat, x: nat)
    requires Sifted(ms, e, p) && p < x && Prime(x) && forall q: nat {:trigger Prime(q)} :: p < q < x ==> !Prime(q)
    ensures Sifted([x] + ms, x + 1, x)
  {
    var ms' := [x] + ms;
    forall i | 0 <= i < |ms'|
      ensures ms'[i] <= x && Prime(ms'[i])
    {
      assert i > 0 ==> ms'[i] == ms[i - 1];
    }
    forall q: nat {:trigger Prime(q)} | q <= x && Prime(q)
      ensures q in ms'
    {
      assert q != x ==> q in ms;
    }
  }

  /** s is consecutive primes from above p on. */
  ghost predicate PrimesAbove(s: seq<nat>, p: nat) {
    && (forall i :: 0 <= i < |s| ==> s[i] > p && Prime(s[i]))
    && (forall i, j :: 0 <= i < j < |s| ==> s[i] < s[j])
    && (forall q: nat, i {:trigger Prime(q), s[i]} :: 0 <= i < |s| && p < q <= s[i] && Prime(q) ==> q in s)
  }

  /** The next element of the sieve. */
  lemma {:induction false} SieveStep(ms: seq<nat>, e: nat, p: nat) returns (x: nat, calls: nat)
    requires Sifted(ms, e, p)
    ensures p < x && Prime(x) && forall q: nat {:trigger Prime(q)} :: p < q < x ==> !Prime(q)
    ensures Force(SieveOf(Nest(ms, e)), calls) == Some(Cons(x, SieveOf(Nest([x] + ms, x + 1))))
    ensures Sifted([x] + ms, x + 1, x)
  {
    var z := PrimeAbove(p);
    PrimePasses(ms, e, p, z);
    x := HasFirst(ms, e, z);
    NextIsPrime(ms, e, p, x);
    SiftedNext(ms, e, p, x);
    var inner := ForceNest(ms, e, x);
    calls := inner + 1;
    assert ([x] + ms)[1..] == ms;
  }

  lemma {:induction false} SieveRuns(h: nat, ms: seq<nat>, e: nat, n: nat) returns (s: seq<nat>, calls: nat)
    requires Sifted(ms, e, h) && Prime(h)
    ensures FirstN(Cons(h, SieveOf(Nest(ms, e))), n, calls) == Some(s) && |s| == n
    ensures n > 0 ==> s[0] == h && PrimesAbove(s, h - 1)
    decreases n
  {
    if n == 0 {
      s, calls := [], 0;
    } else {
      var x, k := SieveStep(ms, e, h);
      var rest, m := SieveRuns(x, [x] + ms, x + 1, n - 1);
      calls := k + m;
      MoreCalls(SieveOf(Nest(ms, e)), k, calls);
      MoreFirst(Cons(x, SieveOf(Nest([x] + ms, x + 1))), n - 1, m, calls);
      s := [h] + rest;
      PrependPrime(h, x, rest);
    }
  }

  lemma {:induction false} MoreFirst(c: Cell, n: nat, k: nat, m: nat)
    requires k <= m && FirstN(c, n, k).Some?
    ensures FirstN(c, n, m) == FirstN(c, n, k)
    decreases n
  {
    if n > 0 {
      MoreCalls(c.tail, k, m);
      MoreFirst(Force(c.tail, k).value, n - 1, k, m);
    }
  }

  lemma {:induction false} PrependPrime(h: nat, x: nat, rest: seq<nat>)
    requires Prime(h) && h < x && forall q: nat {:trigger Prime(q)} :: h < q < x ==> !Prime(q)
    requires rest != [] ==> rest[0] == x && PrimesAbove(rest, x - 1)
    ensures PrimesAbove([h] + rest, h - 1)
  {
    var s := [h] + rest;
    forall i | 0 <= i < |s|
      ensures s[i] > h - 1 && Prime(s[i])
    {
      assert i > 0 ==> s[i] == rest[i - 1];
    }
    forall i, j | 0 <= i < j < |s|
      ensures s[i] < s[j]
    {
      assert s[j] == rest[j - 1] && (i > 0 ==> s[i] == rest[i - 1]);
    }
    forall q: nat, i {:trigger Prime(q), s[i]} | 0 <= i < |s| && h - 1 < q <= s[i] && Prime(q)
      ensures q in s
    {
      assert i > 0 ==> s[i] == rest[i - 1];
      assert q != h ==> q >= x && q in rest;
    }
  }

  /** firstN(primes(), n) ends, for every n, with the first n primes in ascending order. */
  lemma {:induction false} FirstPrimes(n: nat) returns (s: seq<nat>, calls: nat)
    ensures FirstN(Primes(), n, calls) == Some(s) && |s| == n && PrimesAbove(s, 1)
  {
    var ms := [2, 2];
    assert Nest(ms, 2) == FilterMultiples(FilterMultiples(InfSeq(2), 2), 2) by {
      assert ms[1..] == [2] && ms[1..][1..] == [];
    }
    assert Prime(2) && !Passes(ms, 2) && 2 in ms;
    s, calls := SieveRuns(2, ms, 2, n);
  }
}
