/** `get_block_with_retry`: fetching a block, retrying after timeouts. The
    node's behaviour is a script saying how the i-th call of `get_block`
    ends; a sleep is a counted event, not a delay. */
module Retry {
  import opened Types

  /** How one call of `get_block` ends. Only web3's `TimeExhausted` is
      caught and retried; any other exception, a timeout raised under another
      exception type included, is an `OtherError` and propagates at once. */
  datatype Attempt = Ok(block: Block) | Timeout | OtherError

  /** How the whole call ends: a returned block, the `None` a loop without
      iterations falls through to, or a propagated exception. */
  datatype Outcome = Returned(block: Block) | ReturnedNone | RaisedTimeout | RaisedOther

  datatype Fetch = Fetch(outcome: Outcome, attempts: nat, sleeps: nat)

  /** The answer to each successive call, counted from zero. */
  type Node = nat -> Attempt

  /** The retry budget the main loop uses. */
  const DefaultRetries := 3

  /** The loop from iteration `i` on, every earlier attempt having timed out
      and been followed by a sleep. */
  function RetryFrom(node: Node, retries: int, i: nat): (f: Fetch)
    requires i < retries
    ensures i < f.attempts <= retries
    ensures f.sleeps == f.attempts - 1
    ensures forall j :: i <= j < f.attempts - 1 ==> node(j).Timeout?
    ensures f.outcome.Returned? ==> node(f.attempts - 1) == Ok(f.outcome.block)
    ensures f.outcome.RaisedOther? ==> node(f.attempts - 1).OtherError?
    ensures f.outcome.RaisedTimeout? ==> f.attempts == retries && node(retries - 1).Timeout?
    ensures !f.outcome.ReturnedNone?
    decreases retries - i
  {
    match node(i)
    case Ok(b) => Fetch(Returned(b), i + 1, i)
    case OtherError => Fetch(RaisedOther, i + 1, i)
    case Timeout =>
      if i < retries - 1 then RetryFrom(node, retries, i + 1)
      else Fetch(RaisedTimeout, i + 1, i)
  }

  /** At most `retries` attempts, a sleep only between two of them, and the
      outcome decided by the last attempt made, every earlier one having
      timed out. */
  function GetBlockWithRetry(node: Node, retries: int): (f: Fetch)
    ensures retries <= 0 ==> f == Fetch(ReturnedNone, 0, 0)
    ensures retries > 0 ==> 1 <= f.attempts <= retries && f.sleeps == f.attempts - 1
    ensures retries > 0 ==> !f.outcome.ReturnedNone?
    ensures forall j :: 0 <= j < f.attempts - 1 ==> node(j).Timeout?
    ensures f.outcome.Returned? ==> node(f.attempts - 1) == Ok(f.outcome.block)
    ensures f.outcome.RaisedOther? ==> node(f.attempts - 1).OtherError?
    ensures f.outcome.RaisedTimeout? ==> f.attempts == retries && node(retries - 1).Timeout?
  {
    if retries <= 0 then Fetch(ReturnedNone, 0, 0)
    else RetryFrom(node, retries, 0)
  }

  /** The first successful attempt within the budget is the one returned. */
  lemma FirstOkIsReturned(node: Node, retries: int, k: nat, b: Block)
    requires k < retries
    requires forall j :: 0 <= j < k ==> node(j).Timeout?
    requires node(k) == Ok(b)
    ensures GetBlockWithRetry(node, retries) == Fetch(Returned(b), k + 1, k)
  {
  }

  /** A non-timeout error ends the call at once: no further attempt. */
  lemma OtherErrorPropagates(node: Node, retries: int, k: nat)
    requires k < retries
    requires forall j :: 0 <= j < k ==> node(j).Timeout?
    requires node(k).OtherError?
    ensures GetBlockWithRetry(node, retries) == Fetch(RaisedOther, k + 1, k)
  {
  }

  /** Timeouts on every attempt of the budget re-raise the last timeout,
      after one sleep fewer than attempts. */
  lemma ExhaustedBudgetRaises(node: Node, retries: int)
    requires retries > 0
    requires forall j :: 0 <= j < retries ==> node(j).Timeout?
    ensures GetBlockWithRetry(node, retries) == Fetch(RaisedTimeout, retries, retries - 1)
  {
  }

  /** A budget of zero or less makes no attempt and falls through to `None`. */
  lemma NoBudgetReturnsNone(node: Node, retries: int)
    requires retries <= 0
    ensures GetBlockWithRetry(node, retries).outcome == ReturnedNone
    ensures GetBlockWithRetry(node, retries).attempts == 0
  {
  }

  /** With the default budget, two timeouts and then a block return that
      block after two sleeps. */
  lemma TwoTimeoutsThenBlock(node: Node, b: Block)
    requires node(0) == Timeout && node(1) == Timeout && node(2) == Ok(b)
    ensures GetBlockWithRetry(node, DefaultRetries) == Fetch(Returned(b), 3, 2)
  {
  }
}
