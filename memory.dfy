/** The C allocator as the program uses it: `realloc` either fails or hands
    back a new block that keeps the old block's contents. */
module Memory {

  /** The allocator. It keeps, as ghost state, how many times `realloc` has
      failed, so that callers can state that they fail only when it does. */
  class Allocator {
    ghost var failures: nat

    constructor ()
      ensures failures == 0
    {
      failures := 0;
    }

    /** `realloc(a, n)`: null on failure; otherwise a new block of `n` slots
        whose first slots hold the old block's contents, as far as both reach.
        A null `a` stands for a null pointer, for which `realloc` is `malloc`.
        Whether the allocator succeeds is not up to the program, so the model
        chooses it nondeterministically and every caller must handle both;
        each failure is counted. */
    method Realloc<T(0)>(a: array?<T>, n: nat) returns (b: array?<T>)
      modifies this
      ensures failures == old(failures) + (if b == null then 1 else 0)
      ensures b != null ==> fresh(b) && b.Length == n
      ensures b != null && a != null ==> forall i :: 0 <= i < n && i < a.Length ==> b[i] == a[i]
    {
      var succeeds: bool :| true;
      if !succeeds {
        failures := failures + 1;
        return null;
      }
      b := new T[n];
      if a != null {
        forall i | 0 <= i < n && i < a.Length {
          b[i] := a[i];
        }
      }
    }
  }
}
