/** Producing blocks until a condition holds.  The chain is what its state is after each number of produced
    blocks; the condition may keep state of its own from one look to the next. */
module BlockSearch {

  /** Look, then produce, at most `max` blocks, and look once more at the end.  `pending(k)` and `head(k)` are the
      producers after `k` blocks. */
  method ProduceUntilTransition<P(==)>(pending: nat -> P, head: nat -> P, last: P, next: P, max: nat)
    returns (found: bool, produced: nat)
    ensures found <==> exists k: nat :: k <= max && pending(k) == next && head(k) == last
    ensures found ==> produced <= max && pending(produced) == next && head(produced) == last
    ensures found ==> forall k: nat :: k < produced ==> !(pending(k) == next && head(k) == last)
    ensures !found ==> produced == max
  {
    produced := 0;
    while produced < max
      invariant produced <= max
      invariant forall k: nat :: k < produced ==> !(pending(k) == next && head(k) == last)
    {
      if pending(produced) == next && head(produced) == last {
        return true, produced;
      }
      produced := produced + 1;
    }
    found := pending(produced) == next && head(produced) == last;
  }

  /** The producers of the heads seen at 0 to `n` produced blocks. */
  function Seen<P>(head: nat -> P, n: nat): (heads: set<P>) {
    set k: nat | k <= n :: head(k)
  }

  lemma {:induction false} Erased<P>(head: nat -> P, expected: set<P>, n: nat, remaining: set<P>)
    requires remaining == expected - (set k: nat | k < n :: head(k)) - {head(n)}
    ensures remaining == expected - Seen(head, n)
    ensures remaining == {} <==> expected <= Seen(head, n)
  {
    forall x ensures x in remaining <==> x in expected && x !in Seen(head, n) {}
    if remaining == {} {
      forall x | x in expected ensures x in Seen(head, n) {
        assert x !in remaining;
      }
    }
  }

  /** The condition erases each head from the producers still expected. */
  method ProduceUntilBlocksFrom<P(==)>(head: nat -> P, expected: set<P>, max: nat) returns (found: bool, produced: nat)
    ensures found <==> expected <= Seen(head, max)
    ensures found ==> produced <= max && expected <= Seen(head, produced)
    ensures found ==> forall k: nat :: k < produced ==> !(expected <= Seen(head, k))
    ensures !found ==> produced == max
  {
    var remaining := expected;
    produced := 0;
    while produced < max
      invariant produced <= max
      invariant remaining == expected - (set k: nat | k < produced :: head(k))
      invariant forall k: nat :: k < produced ==> !(expected <= Seen(head, k))
    {
      remaining := remaining - {head(produced)};
      Erased(head, expected, produced, remaining);
      if remaining == {} {
        assert Seen(head, produced) <= Seen(head, max);
        return true, produced;
      }
      produced := produced + 1;
    }
    remaining := remaining - {head(produced)};
    Erased(head, expected, produced, remaining);
    found := remaining == {};
  }
}
