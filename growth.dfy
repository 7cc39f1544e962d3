/**
 * The grow-by-doubling heap buffers used by the shell: a buffer starts with
 * some capacity and doubles whenever it is full; `realloc` gives a fresh
 * block that keeps the common prefix.
 */
module Growth {

  /** The capacity once `n` slots are needed, starting from `c` and doubling when full. */
  function Grown(n: nat, c: nat): (r: nat)
    requires c >= 1
    ensures r >= n && r >= c
    decreases n - c
  {
    if n <= c then c else Grown(n, 2 * c)
  }

  /** How many doublings `Grown(n, c)` takes. */
  function Doublings(n: nat, c: nat): nat
    requires c >= 1
    decreases n - c
  {
    if n <= c then 0 else 1 + Doublings(n, 2 * c)
  }

  /**
   * Needing one more slot doubles the capacity exactly when the buffer was
   * full, and leaves it alone otherwise.
   */
  lemma {:induction false} GrowStep(n: nat, c: nat)
    requires c >= 1
    ensures Grown(n + 1, c) == if n == Grown(n, c) then 2 * Grown(n, c) else Grown(n, c)
    ensures Doublings(n + 1, c) == if n == Grown(n, c) then Doublings(n, c) + 1 else Doublings(n, c)
    decreases n - c
  {
    if n < c {
    } else if n == c {
      assert Grown(n + 1, 2 * c) == 2 * c;
      assert Doublings(n + 1, 2 * c) == 0;
    } else {
      GrowStep(n, 2 * c);
    }
  }

  predicate IsPow2(n: nat)
    decreases n
  {
    n == 1 || (n >= 2 && n % 2 == 0 && IsPow2(n / 2))
  }

  lemma {:induction false} Pow2Gap(a: nat, b: nat)
    requires IsPow2(a) && IsPow2(b) && a > b
    ensures a >= 2 * b
    decreases a
  {
    if b > 1 {
      Pow2Gap(a / 2, b / 2);
    }
  }

  /**
   * A buffer of `Grown(n, c)` slots is exactly full with `n` items precisely
   * when `n` is itself one of the capacities `c`, `2c`, `4c`, ...; for a
   * power-of-two start these are the powers of two from `c` on.
   */
  lemma {:induction false} GrownFull(n: nat, c: nat)
    requires c >= 1 && IsPow2(c)
    ensures Grown(n, c) == n <==> n >= c && IsPow2(n)
    decreases n - c
  {
    if n > c {
      assert IsPow2(2 * c) by {
        assert (2 * c) / 2 == c;
      }
      GrownFull(n, 2 * c);
      if IsPow2(n) {
        Pow2Gap(n, c);
      }
    }
  }

  /** `realloc(a, n)`: a fresh block of `n` slots that keeps the common prefix of `a`. */
  method Realloc<T(0)>(a: array<T>, n: nat) returns (b: array<T>)
    ensures fresh(b) && b.Length == n
    ensures forall k | 0 <= k < n && k < a.Length :: b[k] == a[k]
  {
    b := new T[n];
    var k := 0;
    while k < n && k < a.Length
      invariant 0 <= k <= n
      invariant forall j | 0 <= j < k && j < a.Length :: b[j] == a[j]
    {
      b[k] := a[k];
      k := k + 1;
    }
  }
}
