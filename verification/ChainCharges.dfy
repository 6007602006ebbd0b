/** How each step of a transfer changes what the chain policy counts for a day: principal and native fees. */
module ChainCharges {
  import opened Basics
  import opened ChainUsage

  /** The operation is this profile's on this rail; for principal it must also move the policy's asset. */
  predicate OfAccount(p: Policy, op: Operation) { op.profile == p.profile && op.rail == p.rail }

  /** What the transfer cost its own account: the network fee where it paid it, and the recipient's rent where it
      did. */
  function PaidBy(op: Operation, proof: Option<Proof>): nat {
    if proof.None? then 0
    else
      (if proof.value.feePayer == op.address then proof.value.fee else 0)
      + (if op.rentPayer == op.address then proof.value.rent else 0)
  }

  function FeesOn(p: Policy, ops: seq<Operation>, day: int): nat { Sum(FeesAt(p, day, None), ops) }
  function PrincipalOn(p: Policy, ops: seq<Operation>, day: int): nat { Sum(PrincipalAt(p, day, None), ops) }

  /** A transfer on its way is counted on every day, with its whole amount and the most it may cost. */
  lemma PreparedCounts(p: Policy, ops: seq<Operation>, op: Operation, day: int)
    requires !op.terminal
    ensures FeesOn(p, ops + [op], day) == FeesOn(p, ops, day) + (if OfAccount(p, op) then op.maximumNativeDebit else 0)
    ensures PrincipalOn(p, ops + [op], day) ==
      PrincipalOn(p, ops, day) + (if OfAccount(p, op) && op.asset == p.asset then op.amount else 0)
  {
    SumAppend(FeesAt(p, day, None), ops, op);
    SumAppend(PrincipalAt(p, day, None), ops, op);
  }

  /** Finishing gives back what was held on every day, and counts instead, on the day it finished, the amount if it
      completed and what the account is proven to have paid. */
  lemma FinishedCounts(p: Policy, ops: seq<Operation>, i: nat, completed: bool, at: int, proof: Option<Proof>, day: int)
    requires i < |ops| && !ops[i].terminal && ops[i].updatedAt <= at
    ensures var op, after := ops[i], Next(p, ops, Finish(i, completed, at, proof));
      && (OfAccount(p, op) ==>
            FeesOn(p, after, day) + op.maximumNativeDebit ==
              FeesOn(p, ops, day) + (if Day(at) == day then PaidBy(op, proof) else 0))
      && (OfAccount(p, op) && op.asset == p.asset ==>
            PrincipalOn(p, after, day) + op.amount ==
              PrincipalOn(p, ops, day) + (if completed && Day(at) == day then op.amount else 0))
      && (!OfAccount(p, op) ==> FeesOn(p, after, day) == FeesOn(p, ops, day))
      && (!OfAccount(p, op) || op.asset != p.asset ==> PrincipalOn(p, after, day) == PrincipalOn(p, ops, day))
  {
    var after := Next(p, ops, Finish(i, completed, at, proof));
    SumUpdate(FeesAt(p, day, None), ops, i, after[i]);
    SumUpdate(PrincipalAt(p, day, None), ops, i, after[i]);
  }

  /** Steps in between change nothing that is counted. */
  lemma AdvancedCounts(p: Policy, ops: seq<Operation>, i: nat, at: int, day: int)
    ensures FeesOn(p, Next(p, ops, Advance(i, at)), day) == FeesOn(p, ops, day)
    ensures PrincipalOn(p, Next(p, ops, Advance(i, at)), day) == PrincipalOn(p, ops, day)
  {
    var after := Next(p, ops, Advance(i, at));
    if after != ops {
      SumUpdate(FeesAt(p, day, None), ops, i, after[i]);
      SumUpdate(PrincipalAt(p, day, None), ops, i, after[i]);
    }
  }

  lemma {:induction false} FeesWithout(p: Policy, ops: seq<Operation>, day: int, id: string)
    requires Unused(ops, id)
    ensures Sum(FeesAt(p, day, Some(id)), ops) == FeesOn(p, ops, day)
    decreases |ops|
  {
    if ops != [] { FeesWithout(p, ops[..|ops| - 1], day, id); }
  }

  /** The operation set aside counts for nothing, in either total. */
  lemma SetAside(p: Policy, ops: seq<Operation>, op: Operation, day: int)
    requires Unused(ops, op.id)
    ensures Sum(FeesAt(p, day, Some(op.id)), ops + [op]) == FeesOn(p, ops, day)
    ensures Sum(PrincipalAt(p, day, Some(op.id)), ops + [op]) == PrincipalOn(p, ops, day)
  {
    SumAppend(FeesAt(p, day, Some(op.id)), ops, op);
    SumAppend(PrincipalAt(p, day, Some(op.id)), ops, op);
    FeesWithout(p, ops, day, op.id);
    ExcludingAbsent(p, ops, day, op.id);
  }

  /** A transfer of the policy's asset is stored if and only if its key is new, its amount is positive and within the
      limits' maximum, and what the checked day counts already leaves room for it. */
  lemma StoredIff(p: Policy, ops: seq<Operation>, op: Operation, checked: int)
    requires OfAccount(p, op) && op.asset == p.asset && !op.terminal
    ensures Next(p, ops, Prepare(p, op, checked)) == (if Unused(ops, op.id) && 0 < op.amount <= p.maximum
      && PrincipalOn(p, ops, Day(checked)) + op.amount <= p.daily then ops + [op] else ops)
  {
    if Unused(ops, op.id) { ExcludingAbsent(p, ops, Day(checked), op.id); }
  }
}
