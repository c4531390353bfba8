// The wrapping source of command tokens.
module Tokens {
  import opened Octets

  function NextToken(n: nat): nat {
    if n == U64_MAX then 1 else n + 1
  }

  // The k-th token handed out counting from `first`.
  function NthToken(first: nat, k: nat): (n: nat)
    requires 1 <= first <= U64_MAX
    ensures 1 <= n <= U64_MAX
  {
    (first - 1 + k) % U64_MAX + 1
  }

  lemma NthTokenSteps(first: nat, k: nat)
    requires 1 <= first <= U64_MAX
    ensures NthToken(first, 0) == first
    ensures NthToken(first, k + 1) == NextToken(NthToken(first, k))
  {
    var x := first - 1 + k;
    var q, r := x / U64_MAX, x % U64_MAX;
    if r == U64_MAX - 1 {
      RemainderIs(x + 1, q + 1, 0);
    } else {
      RemainderIs(x + 1, q, r + 1);
    }
    RemainderIs(first - 1, 0, first - 1);
  }

  lemma RemainderIs(x: nat, q: nat, r: nat)
    requires x == q * U64_MAX + r && r < U64_MAX
    ensures x % U64_MAX == r
  {
  }

  // Any 2^64-1 consecutive tokens are pairwise distinct.
  lemma TokensAreDistinct(first: nat, j: nat, k: nat)
    requires 1 <= first <= U64_MAX
    requires j < k < j + U64_MAX
    ensures NthToken(first, j) != NthToken(first, k)
  {
    var a, b := first - 1 + j, first - 1 + k;
    var turns := b / U64_MAX - a / U64_MAX;
    assert b - a == turns * U64_MAX + (b % U64_MAX - a % U64_MAX);
  }

  class TokenAllocator {
    var next: nat
    ghost var issued: nat

    ghost predicate Valid()
      reads this
    {
      next == NthToken(1, issued)
    }

    constructor ()
      ensures Valid() && issued == 0
    {
      next, issued := 1, 0;
    }

    method Allocate() returns (token: nat)
      requires Valid()
      modifies this
      ensures Valid() && issued == old(issued) + 1
      ensures token == old(next) == NthToken(1, old(issued)) && next == NextToken(token)
    {
      NthTokenSteps(1, issued);
      token := next;
      next := if next < U64_MAX then next + 1 else 1;
      issued := issued + 1;
    }
  }
}
