/** The byte budget for pruning metadata: leases taken, resized and returned by concurrent readers. */
module PruningBudget {
  import opened Common

  const MAX_QUERY_PRUNING_BYTES: nat := 64 * 1024 * 1024

  lemma SumUpdate(leases: seq<nat>, id: nat, bytes: nat)
    requires id < |leases|
    ensures Sum(leases[id := bytes]) == Sum(leases) - leases[id] + bytes
    ensures leases[id] <= Sum(leases)
  {
    assert leases == leases[..id] + ([leases[id]] + leases[id + 1..]);
    assert leases[id := bytes] == leases[..id] + ([bytes] + leases[id + 1..]);
    SumAppend(leases[..id], [leases[id]] + leases[id + 1..]);
    SumAppend(leases[..id], [bytes] + leases[id + 1..]);
    assert ([leases[id]] + leases[id + 1..])[1..] == leases[id + 1..] == ([bytes] + leases[id + 1..])[1..];
  }

  /** `leases` remembers the bytes of every lease ever granted; a returned lease has none. */
  class Budget {
    const limit: nat
    var used: nat
    ghost var leases: seq<nat>

    /** The count is the sum of the live leases and stays within the limit. */
    ghost predicate Valid()
      reads this
    {
      used == Sum(leases) && used <= limit
    }

    constructor ForQuery(configured: nat, queryLimit: nat)
      ensures Valid() && leases == []
      ensures limit == Min(Min(configured, MAX_QUERY_PRUNING_BYTES), queryLimit / 16)
    {
      limit := Min(Min(configured, MAX_QUERY_PRUNING_BYTES), queryLimit / 16);
      used := 0;
      leases := [];
    }

    /** Grants exactly the requests that still fit; a refusal changes nothing. */
    method TryReserve(bytes: nat) returns (lease: PruningLease?)
      requires Valid()
      modifies this
      ensures Valid()
      ensures lease != null <==> Sum(old(leases)) + bytes <= limit
      ensures lease == null ==> leases == old(leases)
      ensures lease != null ==>
                fresh(lease) && lease.budget == this && lease.Holds(bytes)
                && lease.id == |old(leases)| && leases == old(leases) + [bytes]
    {
      if used + bytes > limit { return null; }
      SumAppend(leases, [bytes]);
      lease := new PruningLease(this, |leases|, bytes);
      used := used + bytes;
      leases := leases + [bytes];
    }
  }

  class PruningLease {
    const budget: Budget
    var bytes: nat
    ghost const id: nat

    ghost predicate Holds(amount: nat)
      reads this, budget
    {
      bytes == amount && id < |budget.leases| && budget.leases[id] == amount
    }

    constructor (budget: Budget, ghost id: nat, bytes: nat)
      ensures this.budget == budget && this.id == id && this.bytes == bytes
    {
      this.budget := budget;
      this.bytes := bytes;
      this.id := id;
    }

    /** Shrinking always succeeds, growing exactly when the rest of the budget allows it. */
    method TryResize(amount: nat) returns (ok: bool)
      requires budget.Valid() && Holds(bytes)
      modifies this, budget
      ensures budget.Valid()
      ensures ok <==> amount <= old(bytes) || Sum(old(budget.leases)) - old(bytes) + amount <= budget.limit
      ensures ok ==> Holds(amount) && budget.leases == old(budget.leases)[id := amount]
      ensures !ok ==> Holds(old(bytes)) && budget.leases == old(budget.leases)
    {
      SumUpdate(budget.leases, id, amount);
      if amount > bytes {
        if budget.used + (amount - bytes) > budget.limit { return false; }
        budget.used := budget.used + (amount - bytes);
      } else {
        budget.used := budget.used - (bytes - amount);
      }
      bytes := amount;
      budget.leases := budget.leases[id := amount];
      return true;
    }

    /** Returns all of the lease; the saturating subtraction is never short. */
    method Drop()
      requires budget.Valid() && Holds(bytes)
      modifies budget
      ensures budget.Valid() && budget.leases == old(budget.leases)[id := 0]
      ensures budget.used == old(budget.used) - bytes
    {
      SumUpdate(budget.leases, id, 0);
      budget.used := SaturatingSub(budget.used, bytes);
      budget.leases := budget.leases[id := 0];
    }
  }
}
