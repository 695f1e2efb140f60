/**
 * The polling loop that relays contract events: a block cursor over a growing log. The chain is
 * given once, as all the logs it will ever hold; a poll sees those up to the tip of that moment.
 */
module EventPolling {
  import opened Evm

  /** One log of the event subscribed to, by the block it is in. */
  datatype Log = Log(block: nat, event: int)

  /** Logs arrive in chain order and there are no reorganisations. */
  ghost predicate InOrder(chain: seq<Log>) {
    forall i, j | 0 <= i < j < |chain| :: chain[i].block <= chain[j].block
  }

  datatype Fault = Throws | Cancels

  /**
   * What one turn of the loop meets: an RPC call that throws, or two readings of the growing chain,
   * its tip and then the logs up to `latest`, and the logs, by position, on which the handler fails.
   */
  datatype Poll = RpcFailure | Answer(tip: nat, latest: nat, faults: map<nat, Fault>)

  /** The loop's variables: positions handled so far, the cursor, and whether it has been cancelled. */
  datatype Cursor = Cursor(handled: seq<nat>, fromBlock: nat, stopped: bool)

  /** Positions of the logs in blocks `from` up to but excluding `before`, in chain order. */
  function Positions(chain: seq<Log>, from: nat, before: nat): (ps: seq<nat>)
    ensures forall i | 0 <= i < |ps| :: ps[i] < |chain|
  {
    if chain == [] then []
    else
      var ps := Positions(chain[..|chain| - 1], from, before);
      if from <= chain[|chain| - 1].block < before then ps + [|chain| - 1] else ps
  }

  /** The filter selects the logs of those blocks and no others, in strictly increasing position. */
  lemma {:induction false} PositionsSelect(chain: seq<Log>, from: nat, before: nat)
    ensures var ps := Positions(chain, from, before);
            && (forall p :: p in ps <==> 0 <= p < |chain| && from <= chain[p].block < before)
            && (forall i, j | 0 <= i < j < |ps| :: ps[i] < ps[j])
  {
    if chain != [] {
      var front := chain[..|chain| - 1];
      PositionsSelect(front, from, before);
      assert forall p | 0 <= p < |front| :: front[p] == chain[p];
    }
  }

  // ---------------------------------------------------------------------------------------
  // The loop
  // ---------------------------------------------------------------------------------------

  /** One batch: each log handled moves the cursor past its block; the first fault ends the batch. */
  function HandleBatch(chain: seq<Log>, logs: seq<nat>, faults: map<nat, Fault>, c: Cursor): Cursor
    requires forall i | 0 <= i < |logs| :: logs[i] < |chain|
  {
    if logs == [] then c
    else if logs[0] in faults then c.(stopped := faults[logs[0]] == Cancels)
    else HandleBatch(chain, logs[1..], faults, Cursor(c.handled + [logs[0]], chain[logs[0]].block + 1, c.stopped))
  }

  /** The logs a turn of the loop asks for; none if the cursor is ahead of the tip. */
  function Batch(chain: seq<Log>, c: Cursor, poll: Poll): (logs: seq<nat>)
    ensures forall i | 0 <= i < |logs| :: logs[i] < |chain|
  {
    if poll.RpcFailure? || c.fromBlock > poll.tip then []
    else Positions(chain, c.fromBlock, poll.latest + 1)
  }

  function Turn(chain: seq<Log>, c: Cursor, poll: Poll): Cursor {
    if c.stopped || poll.RpcFailure? then c else HandleBatch(chain, Batch(chain, c, poll), poll.faults, c)
  }

  function Turns(chain: seq<Log>, c: Cursor, polls: seq<Poll>): Cursor {
    if polls == [] then c else Turn(chain, Turns(chain, c, polls[..|polls| - 1]), polls[|polls| - 1])
  }

  /** `SubscribeToEventAsync`, for as many turns as `polls` describes. */
  method SubscribeToEvent(chain: seq<Log>, start: nat, polls: seq<Poll>) returns (handled: seq<nat>, fromBlock: nat)
    ensures var c := Turns(chain, Cursor([], start, false), polls); handled == c.handled && fromBlock == c.fromBlock
  {
    handled, fromBlock := [], start;
    var stopped := false;
    ghost var initial := Cursor([], start, false);
    var turn := 0;
    while turn < |polls|
      invariant turn <= |polls|
      invariant Turns(chain, initial, polls[..turn]) == Cursor(handled, fromBlock, stopped)
    {
      var poll := polls[turn];
      ghost var c := Cursor(handled, fromBlock, stopped);
      assert polls[..turn + 1][..turn] == polls[..turn];
      turn := turn + 1;
      if stopped || poll.RpcFailure? {
        continue;
      }
      if fromBlock > poll.tip {
        continue;
      }
      var logs := Positions(chain, fromBlock, poll.latest + 1);
      var i := 0;
      while i < |logs|
        invariant i <= |logs|
        invariant HandleBatch(chain, logs, poll.faults, c)
               == HandleBatch(chain, logs[i..], poll.faults, Cursor(handled, fromBlock, stopped))
      {
        assert logs[i..][1..] == logs[i + 1..];
        if logs[i] in poll.faults {
          stopped := poll.faults[logs[i]] == Cancels;
          break;
        }
        handled := handled + [logs[i]];
        fromBlock := chain[logs[i]].block + 1;
        i := i + 1;
      }
    }
    assert polls[..|polls|] == polls;
  }

  // ---------------------------------------------------------------------------------------
  // One turn in closed form
  // ---------------------------------------------------------------------------------------

  /** How many logs of a batch come before the first fault. */
  function Successes(logs: seq<nat>, faults: map<nat, Fault>): (k: nat)
    ensures k <= |logs|
    ensures forall i | 0 <= i < k :: logs[i] !in faults
    ensures k < |logs| ==> logs[k] in faults
  {
    if logs == [] || logs[0] in faults then 0 else 1 + Successes(logs[1..], faults)
  }

  lemma {:induction false} HandleBatchResult(chain: seq<Log>, logs: seq<nat>, faults: map<nat, Fault>, c: Cursor)
    requires forall i | 0 <= i < |logs| :: logs[i] < |chain|
    ensures var k := Successes(logs, faults);
            var c' := HandleBatch(chain, logs, faults, c);
            c'.handled == c.handled + logs[..k]
            && c'.fromBlock == if k == 0 then c.fromBlock else chain[logs[k - 1]].block + 1
  {
    if logs != [] && logs[0] !in faults {
      var k := Successes(logs, faults);
      HandleBatchResult(chain, logs[1..], faults, Cursor(c.handled + [logs[0]], chain[logs[0]].block + 1, c.stopped));
      assert logs[..k] == [logs[0]] + logs[1..][..k - 1];
    }
  }

  // ---------------------------------------------------------------------------------------
  // Positions and blocks
  // ---------------------------------------------------------------------------------------

  /** How many logs lie in blocks before `b`; on a chain in order, the first position at or after `b`. */
  function CountBefore(chain: seq<Log>, b: nat): (n: nat)
    ensures n <= |chain|
  {
    if chain == [] then 0
    else CountBefore(chain[..|chain| - 1], b) + if chain[|chain| - 1].block < b then 1 else 0
  }

  lemma {:induction false} BeforeIff(chain: seq<Log>, b: nat)
    requires InOrder(chain)
    ensures forall p | 0 <= p < |chain| :: chain[p].block < b <==> p < CountBefore(chain, b)
  {
    if chain != [] {
      var front := chain[..|chain| - 1];
      BeforeIff(front, b);
      assert forall p | 0 <= p < |front| :: front[p] == chain[p];
      var n := CountBefore(front, b);
      assert n < |front| ==> chain[n].block <= chain[|chain| - 1].block;
    }
  }

  lemma CountBeforeMonotone(chain: seq<Log>, a: nat, b: nat)
    requires InOrder(chain) && a <= b
    ensures CountBefore(chain, a) <= CountBefore(chain, b)
  {
    BeforeIff(chain, a);
    BeforeIff(chain, b);
    var n := CountBefore(chain, b);
    assert n < |chain| ==> chain[n].block >= b;
  }

  function Range(lo: nat, hi: nat): (ps: seq<nat>)
    requires lo <= hi
    ensures |ps| == hi - lo && forall i | 0 <= i < |ps| :: ps[i] == lo + i
  {
    seq(hi - lo, i requires 0 <= i => lo + i)
  }

  /** On a chain in order, the logs of an interval of blocks are an interval of positions. */
  lemma {:induction false} PositionsAreRange(chain: seq<Log>, from: nat, before: nat)
    requires InOrder(chain) && from <= before
    ensures CountBefore(chain, from) <= CountBefore(chain, before)
    ensures Positions(chain, from, before) == Range(CountBefore(chain, from), CountBefore(chain, before))
  {
    CountBeforeMonotone(chain, from, before);
    if chain != [] {
      var front := chain[..|chain| - 1];
      PositionsAreRange(front, from, before);
      BeforeIff(chain, from);
      BeforeIff(chain, before);
    }
  }

  // ---------------------------------------------------------------------------------------
  // What every turn keeps
  // ---------------------------------------------------------------------------------------

  /** `c` is a state of a subscription from `start`: its handled logs are behind the cursor, in strict chain order. */
  ghost predicate Sound(chain: seq<Log>, start: nat, c: Cursor) {
    && start <= c.fromBlock
    && (forall i | 0 <= i < |c.handled| :: CountBefore(chain, start) <= c.handled[i] < CountBefore(chain, c.fromBlock))
    && (forall i, j | 0 <= i < j < |c.handled| :: c.handled[i] < c.handled[j])
  }

  /** Nothing behind the cursor has been passed over. */
  ghost predicate Complete(chain: seq<Log>, start: nat, c: Cursor) {
    forall p | CountBefore(chain, start) <= p < CountBefore(chain, c.fromBlock) :: p in c.handled
  }

  /**
   * The handler fails on a log whose predecessor in the batch, in the same block, was handled: the
   * cursor is already past that block.
   */
  predicate FailsMidBlock(chain: seq<Log>, c: Cursor, poll: Poll) {
    !c.stopped && !poll.RpcFailure? &&
    var logs := Batch(chain, c, poll);
    var k := Successes(logs, poll.faults);
    0 < k < |logs| && chain[logs[k]].block == chain[logs[k - 1]].block
  }

  /** A cursor set past the block of position `q` has passed `q`, and more iff the next log shares the block. */
  lemma PastBlock(chain: seq<Log>, from: nat, before: nat, q: nat)
    requires InOrder(chain) && CountBefore(chain, from) <= q < CountBefore(chain, before)
    ensures var passed := CountBefore(chain, chain[q].block + 1);
            && from <= chain[q].block
            && q + 1 <= passed
            && (q + 1 < passed <==> q + 1 < CountBefore(chain, before) && chain[q + 1].block == chain[q].block)
  {
    BeforeIff(chain, from);
    BeforeIff(chain, before);
    BeforeIff(chain, chain[q].block + 1);
    if q + 1 < |chain| {
      assert chain[q].block <= chain[q + 1].block;
    }
  }

  /**
   * From `c` to `c'` the next `k` logs have been handled; they are exactly those between the old cursor and
   * the new one, unless `skipping`, when there are more.
   */
  ghost predicate Advances(chain: seq<Log>, c: Cursor, c': Cursor, k: nat, skipping: bool) {
    var lo := CountBefore(chain, c.fromBlock);
    && c.fromBlock <= c'.fromBlock
    && c'.handled == c.handled + Range(lo, lo + k)
    && lo + k <= CountBefore(chain, c'.fromBlock)
    && (lo + k < CountBefore(chain, c'.fromBlock) <==> skipping)
  }

  /** Handling `k` of the logs between two blocks skips some iff the next of them shares the block of the last handled. */
  lemma HandledAdvance(chain: seq<Log>, c: Cursor, c': Cursor, before: nat, k: nat)
    requires InOrder(chain)
    requires var lo := CountBefore(chain, c.fromBlock);
             && lo + k <= CountBefore(chain, before)
             && c'.handled == c.handled + Range(lo, lo + k)
             && c'.fromBlock == if k == 0 then c.fromBlock else chain[lo + k - 1].block + 1
    ensures var lo := CountBefore(chain, c.fromBlock);
            Advances(chain, c, c', k,
                     0 < k && lo + k < CountBefore(chain, before) && chain[lo + k].block == chain[lo + k - 1].block)
  {
    if k > 0 {
      PastBlock(chain, c.fromBlock, before, CountBefore(chain, c.fromBlock) + k - 1);
    }
  }

  /** The closed form for a batch that is an interval of positions. */
  lemma HandleRange(chain: seq<Log>, lo: nat, hi: nat, faults: map<nat, Fault>, c: Cursor)
    requires lo <= hi <= |chain|
    ensures var k := Successes(Range(lo, hi), faults);
            var c' := HandleBatch(chain, Range(lo, hi), faults, c);
            && c'.handled == c.handled + Range(lo, lo + k)
            && c'.fromBlock == if k == 0 then c.fromBlock else chain[lo + k - 1].block + 1
  {
    var logs := Range(lo, hi);
    var k := Successes(logs, faults);
    HandleBatchResult(chain, logs, faults, c);
    assert logs[..k] == Range(lo, lo + k);
  }

  /** A turn advances; it skips logs iff the failure is mid-block. */
  lemma TurnAdvances(chain: seq<Log>, c: Cursor, poll: Poll) returns (k: nat)
    requires InOrder(chain)
    ensures Advances(chain, c, Turn(chain, c, poll), k, FailsMidBlock(chain, c, poll))
  {
    k := 0;
    if c.stopped || poll.RpcFailure? {
      HandledAdvance(chain, c, c, c.fromBlock, 0);
    } else if Batch(chain, c, poll) == [] {
      HandledAdvance(chain, c, Turn(chain, c, poll), c.fromBlock, 0);
    } else {
      k := Successes(Batch(chain, c, poll), poll.faults);
      BatchAdvances(chain, c, poll, Turn(chain, c, poll), k);
    }
  }

  /** Is the log after the first `k` of the positions `lo` to `hi` in the block of the last of those? */
  predicate SharesBlock(chain: seq<Log>, lo: nat, hi: nat, k: nat)
    requires hi <= |chain|
  {
    0 < k && lo + k < hi && chain[lo + k].block == chain[lo + k - 1].block
  }

  lemma RangeAdvances(chain: seq<Log>, c: Cursor, before: nat, faults: map<nat, Fault>, c': Cursor, k: nat)
    requires InOrder(chain) && CountBefore(chain, c.fromBlock) <= CountBefore(chain, before)
    requires var logs := Range(CountBefore(chain, c.fromBlock), CountBefore(chain, before));
             c' == HandleBatch(chain, logs, faults, c) && k == Successes(logs, faults)
    ensures Advances(chain, c, c', k, SharesBlock(chain, CountBefore(chain, c.fromBlock), CountBefore(chain, before), k))
  {
    HandleRange(chain, CountBefore(chain, c.fromBlock), CountBefore(chain, before), faults, c);
    HandledAdvance(chain, c, c', before, k);
  }

  lemma MidBlockOfRange(chain: seq<Log>, c: Cursor, poll: Poll, lo: nat, hi: nat)
    requires lo <= hi <= |chain| && !c.stopped && poll.Answer? && Batch(chain, c, poll) == Range(lo, hi)
    ensures FailsMidBlock(chain, c, poll) <==> SharesBlock(chain, lo, hi, Successes(Range(lo, hi), poll.faults))
  {
  }

  lemma BatchAdvances(chain: seq<Log>, c: Cursor, poll: Poll, c': Cursor, k: nat)
    requires InOrder(chain) && poll.Answer? && !c.stopped && Batch(chain, c, poll) != []
    requires c' == HandleBatch(chain, Batch(chain, c, poll), poll.faults, c)
    requires k == Successes(Batch(chain, c, poll), poll.faults)
    ensures Advances(chain, c, c', k, FailsMidBlock(chain, c, poll))
  {
    BatchIsRange(chain, c, poll);
    RangeAdvances(chain, c, poll.latest + 1, poll.faults, c', k);
    MidBlockOfRange(chain, c, poll, CountBefore(chain, c.fromBlock), CountBefore(chain, poll.latest + 1));
  }

  lemma BatchIsRange(chain: seq<Log>, c: Cursor, poll: Poll)
    requires InOrder(chain) && poll.Answer? && Batch(chain, c, poll) != []
    ensures CountBefore(chain, c.fromBlock) <= CountBefore(chain, poll.latest + 1)
    ensures Batch(chain, c, poll) == Range(CountBefore(chain, c.fromBlock), CountBefore(chain, poll.latest + 1))
  {
    PositionsSelect(chain, c.fromBlock, poll.latest + 1);
    assert Batch(chain, c, poll)[0] in Batch(chain, c, poll);
    PositionsAreRange(chain, c.fromBlock, poll.latest + 1);
  }

  /** Whatever fails, a turn keeps the cursor from moving back and the handled logs sound. */
  lemma AdvanceKeepsSound(chain: seq<Log>, start: nat, c: Cursor, c': Cursor, k: nat, skipping: bool)
    requires InOrder(chain) && Sound(chain, start, c) && Advances(chain, c, c', k, skipping)
    ensures Sound(chain, start, c') && c.fromBlock <= c'.fromBlock && c.handled <= c'.handled
  {
    CountBeforeMonotone(chain, start, c.fromBlock);
  }

  /** An advance passes a log over iff it skips, and a log passed over stays so. */
  lemma AdvanceCompleteIff(chain: seq<Log>, start: nat, c: Cursor, c': Cursor, k: nat, skipping: bool)
    requires InOrder(chain) && Sound(chain, start, c) && Advances(chain, c, c', k, skipping)
    ensures Complete(chain, start, c') <==> Complete(chain, start, c) && !skipping
  {
    var lo := CountBefore(chain, c.fromBlock);
    CountBeforeMonotone(chain, start, c.fromBlock);
    forall p: nat ensures p in c'.handled <==> p in c.handled || lo <= p < lo + k {
      if lo <= p < lo + k { assert Range(lo, lo + k)[p - lo] == p; }
    }
    if skipping {
      assert lo + k !in c.handled;
    }
  }

  // ---------------------------------------------------------------------------------------
  // Whole subscriptions
  // ---------------------------------------------------------------------------------------

  function Initial(start: nat): Cursor {
    Cursor([], start, false)
  }

  /**
   * At most once, always: whatever throws, the handled positions are strictly increasing, so none
   * is handled twice and none out of order, and the cursor never moves back.
   */
  lemma {:induction false} AtMostOnce(chain: seq<Log>, start: nat, polls: seq<Poll>)
    requires InOrder(chain)
    ensures Sound(chain, start, Turns(chain, Initial(start), polls))
    ensures polls != [] ==>
              var before := Turns(chain, Initial(start), polls[..|polls| - 1]);
              var after := Turns(chain, Initial(start), polls);
              before.fromBlock <= after.fromBlock && before.handled <= after.handled
  {
    if polls != [] {
      AtMostOnce(chain, start, polls[..|polls| - 1]);
      var front, last := polls[..|polls| - 1], polls[|polls| - 1];
      var c := Turns(chain, Initial(start), front);
      var k := TurnAdvances(chain, c, last);
      AdvanceKeepsSound(chain, start, c, Turn(chain, c, last), k, FailsMidBlock(chain, c, last));
    }
  }

  /** Some turn of the subscription fails mid-block. */
  predicate SomeFailsMidBlock(chain: seq<Log>, start: nat, polls: seq<Poll>) {
    polls != [] &&
    var front, last := polls[..|polls| - 1], polls[|polls| - 1];
    SomeFailsMidBlock(chain, start, front) || FailsMidBlock(chain, Turns(chain, Initial(start), front), last)
  }

  /** At least once, exactly when no failure is mid-block: otherwise some log behind the cursor is never handled. */
  lemma {:induction false} CompleteIff(chain: seq<Log>, start: nat, polls: seq<Poll>)
    requires InOrder(chain)
    ensures Complete(chain, start, Turns(chain, Initial(start), polls)) <==> !SomeFailsMidBlock(chain, start, polls)
  {
    if polls != [] {
      var front, last := polls[..|polls| - 1], polls[|polls| - 1];
      AtMostOnce(chain, start, front);
      CompleteIff(chain, start, front);
      var c := Turns(chain, Initial(start), front);
      var k := TurnAdvances(chain, c, last);
      AdvanceCompleteIff(chain, start, c, Turn(chain, c, last), k, FailsMidBlock(chain, c, last));
    }
  }

  lemma {:induction false} TurnsThen(chain: seq<Log>, c: Cursor, poll: Poll, later: seq<Poll>)
    ensures Turns(chain, c, [poll] + later) == Turns(chain, Turn(chain, c, poll), later)
  {
    var polls := [poll] + later;
    if later == [] {
      assert polls == [poll] && polls[..0] == [];
    } else {
      TurnsThen(chain, c, poll, later[..|later| - 1]);
      assert polls[..|polls| - 1] == [poll] + later[..|later| - 1];
    }
  }

  /** A log behind the cursor that has not been handled never will be. */
  lemma {:induction false} PassedOverForGood(chain: seq<Log>, start: nat, c: Cursor, polls: seq<Poll>, p: nat)
    requires InOrder(chain) && Sound(chain, start, c)
    requires p < CountBefore(chain, c.fromBlock) && p !in c.handled
    ensures var c' := Turns(chain, c, polls);
            Sound(chain, start, c') && p < CountBefore(chain, c'.fromBlock) && p !in c'.handled
  {
    if polls != [] {
      var front, last := polls[..|polls| - 1], polls[|polls| - 1];
      PassedOverForGood(chain, start, c, front, p);
      var before := Turns(chain, c, front);
      var after := Turn(chain, before, last);
      var k := TurnAdvances(chain, before, last);
      AdvanceKeepsSound(chain, start, before, after, k, FailsMidBlock(chain, before, last));
      CountBeforeMonotone(chain, before.fromBlock, after.fromBlock);
    }
  }

  lemma SuccessesBeforeOnlyFault(lo: nat, hi: nat, p: nat, faults: map<nat, Fault>)
    requires lo <= p < hi && faults.Keys == {p}
    ensures Successes(Range(lo, hi), faults) == p - lo
  {
    var logs := Range(lo, hi);
    assert logs[p - lo] == p;
  }

  /** Handling the logs up to position `p` and no further leaves the one after it behind, if it is in the same block. */
  lemma NeighbourPassed(chain: seq<Log>, start: nat, p: nat, c: Cursor)
    requires InOrder(chain) && p + 1 < |chain| && start <= chain[p].block == chain[p + 1].block
    requires CountBefore(chain, start) <= p + 1
    requires c.handled == Range(CountBefore(chain, start), p + 1) && c.fromBlock == chain[p].block + 1
    ensures p + 1 !in c.handled && p + 1 < CountBefore(chain, c.fromBlock)
  {
    BeforeIff(chain, c.fromBlock);
  }

  /** The logs a first turn asks for when it reads up to the block of position `p`, shared by the log after it. */
  lemma BatchAround(chain: seq<Log>, start: nat, p: nat, poll: Poll)
    requires InOrder(chain) && p + 1 < |chain| && start <= chain[p].block == chain[p + 1].block
    requires poll.Answer? && poll.tip == poll.latest == chain[p].block
    ensures var lo, hi := CountBefore(chain, start), CountBefore(chain, chain[p].block + 1);
            lo <= p && p + 1 < hi && Batch(chain, Initial(start), poll) == Range(lo, hi)
  {
    BeforeIff(chain, start);
    BeforeIff(chain, chain[p].block + 1);
    PositionsAreRange(chain, start, chain[p].block + 1);
  }

  /** The first turn, when it fails just on the log after position `p`, handles the logs up to `p`. */
  lemma FailsAfter(chain: seq<Log>, start: nat, p: nat, poll: Poll, c: Cursor)
    requires InOrder(chain) && p + 1 < |chain| && start <= chain[p].block == chain[p + 1].block
    requires poll.Answer? && poll.tip == poll.latest == chain[p].block && poll.faults.Keys == {p + 1}
    requires c == HandleBatch(chain, Batch(chain, Initial(start), poll), poll.faults, Initial(start))
    ensures CountBefore(chain, start) <= p
    ensures c.handled == Range(CountBefore(chain, start), p + 1) && c.fromBlock == chain[p].block + 1
  {
    var lo, hi := CountBefore(chain, start), CountBefore(chain, chain[p].block + 1);
    BatchAround(chain, start, p, poll);
    SuccessesBeforeOnlyFault(lo, hi, p + 1, poll.faults);
    HandleRange(chain, lo, hi, poll.faults, Initial(start));
    assert lo + Successes(Range(lo, hi), poll.faults) == p + 1;
  }

  /**
   * The loss, wherever two neighbouring logs share a block: one failure, on the second of them, and it is behind
   * the cursor, and is handled neither then nor by any later turn.
   */
  lemma MidBlockFailureLosesLog(chain: seq<Log>, start: nat, p: nat, later: seq<Poll>)
    requires InOrder(chain) && p + 1 < |chain| && start <= chain[p].block == chain[p + 1].block
    ensures var b := chain[p].block;
            var c := Turns(chain, Initial(start), [Answer(b, b, map[p + 1 := Throws])] + later);
            p + 1 < CountBefore(chain, c.fromBlock) && p + 1 !in c.handled
  {
    var b := chain[p].block;
    var first := Answer(b, b, map[p + 1 := Throws]);
    var c := Turn(chain, Initial(start), first);
    FailsAfter(chain, start, p, first, c);
    NeighbourPassed(chain, start, p, c);
    var k := TurnAdvances(chain, Initial(start), first);
    AdvanceKeepsSound(chain, start, Initial(start), c, k, FailsMidBlock(chain, Initial(start), first));
    PassedOverForGood(chain, start, c, later, p + 1);
    TurnsThen(chain, Initial(start), first, later);
  }

  /** No two logs from block `start` on are in one block. */
  ghost predicate OneLogPerBlock(chain: seq<Log>, start: nat) {
    forall i, j | 0 <= i < j < |chain| && start <= chain[i].block :: chain[i].block < chain[j].block
  }

  lemma NotMidBlock(chain: seq<Log>, start: nat, c: Cursor, poll: Poll)
    requires OneLogPerBlock(chain, start) && start <= c.fromBlock
    ensures !FailsMidBlock(chain, c, poll)
  {
    if poll.Answer? { PositionsSelect(chain, c.fromBlock, poll.latest + 1); }
  }

  lemma {:induction false} NeverMidBlock(chain: seq<Log>, start: nat, polls: seq<Poll>)
    requires InOrder(chain) && OneLogPerBlock(chain, start)
    ensures !SomeFailsMidBlock(chain, start, polls)
  {
    if polls != [] {
      var front, last := polls[..|polls| - 1], polls[|polls| - 1];
      NeverMidBlock(chain, start, front);
      AtMostOnce(chain, start, front);
      NotMidBlock(chain, start, Turns(chain, Initial(start), front), last);
    }
  }

  /**
   * What the chain alone decides: a subscription misses nothing under every pattern of polls, failures and
   * cancellation iff no two logs from its start block on share a block.
   */
  lemma LossFreeIff(chain: seq<Log>, start: nat)
    requires InOrder(chain)
    ensures (forall polls :: Complete(chain, start, Turns(chain, Initial(start), polls))) <==> OneLogPerBlock(chain, start)
  {
    if OneLogPerBlock(chain, start) {
      forall polls ensures Complete(chain, start, Turns(chain, Initial(start), polls)) {
        NeverMidBlock(chain, start, polls);
        CompleteIff(chain, start, polls);
      }
    } else {
      var i, j :| 0 <= i < j < |chain| && start <= chain[i].block && chain[i].block >= chain[j].block;
      var b := chain[i].block;
      assert b <= chain[i + 1].block <= chain[j].block;
      var polls := [Answer(b, b, map[i + 1 := Throws])] + [];
      MidBlockFailureLosesLog(chain, start, i, []);
      BeforeIff(chain, start);
      assert !Complete(chain, start, Turns(chain, Initial(start), polls));
    }
  }

  // ---------------------------------------------------------------------------------------
  // Without faults
  // ---------------------------------------------------------------------------------------

  /** The furthest block the answered polls have read, `start` before the first. */
  function Reach(start: nat, polls: seq<Poll>): nat {
    if polls == [] then start
    else
      var last := polls[|polls| - 1];
      if last.Answer? then last.latest else Reach(start, polls[..|polls| - 1])
  }

  /** Successive readings of a chain that grows, from the tip the subscription started at. */
  ghost predicate TipsGrow(start: nat, polls: seq<Poll>) {
    polls == [] ||
      var front, last := polls[..|polls| - 1], polls[|polls| - 1];
      TipsGrow(start, front) && (last.Answer? ==> Reach(start, front) <= last.tip <= last.latest)
  }

  lemma {:induction false} TipsFromStart(start: nat, polls: seq<Poll>)
    requires TipsGrow(start, polls)
    ensures start <= Reach(start, polls)
  {
    if polls != [] { TipsFromStart(start, polls[..|polls| - 1]); }
  }

  predicate FaultFree(polls: seq<Poll>) {
    polls == [] ||
      var front, last := polls[..|polls| - 1], polls[|polls| - 1];
      FaultFree(front) && (last.Answer? ==> last.faults == map[])
  }

  /** The block up to which a turn has read the chain. */
  function ReadUpTo(c: Cursor, poll: Poll): nat
    requires poll.Answer?
  {
    if c.fromBlock > poll.tip then poll.tip else poll.latest
  }

  lemma {:induction false} NoFaultNoStop(chain: seq<Log>, logs: seq<nat>, c: Cursor)
    requires forall i | 0 <= i < |logs| :: logs[i] < |chain|
    ensures HandleBatch(chain, logs, map[], c).stopped == c.stopped
    ensures Successes(logs, map[]) == |logs|
  {
    if logs != [] {
      NoFaultNoStop(chain, logs[1..], Cursor(c.handled + [logs[0]], chain[logs[0]].block + 1, c.stopped));
    }
  }

  /** Past the block of the last log before a block there is nothing more before it. */
  lemma PastLastBlock(chain: seq<Log>, from: nat, before: nat)
    requires InOrder(chain) && CountBefore(chain, from) < CountBefore(chain, before)
    ensures var last := chain[CountBefore(chain, before) - 1].block;
            last < before && CountBefore(chain, last + 1) == CountBefore(chain, before)
  {
    PastBlock(chain, from, before, CountBefore(chain, before) - 1);
    BeforeIff(chain, before);
  }

  /** Where the cursor ends: past the block of the last log of the batch, or where it was if there is none. */
  lemma FaultFreeCursor(chain: seq<Log>, c: Cursor, poll: Poll)
    requires InOrder(chain) && poll.Answer? && poll.faults == map[] && !c.stopped
    ensures var logs, c' := Batch(chain, c, poll), Turn(chain, c, poll);
            && !c'.stopped
            && !FailsMidBlock(chain, c, poll)
            && c'.fromBlock == if logs == [] then c.fromBlock else chain[logs[|logs| - 1]].block + 1
  {
    var logs := Batch(chain, c, poll);
    HandleBatchResult(chain, logs, poll.faults, c);
    NoFaultNoStop(chain, logs, c);
  }

  /** A turn without faults leaves nothing between the new cursor and what it has read. */
  lemma FaultFreeTurn(chain: seq<Log>, c: Cursor, poll: Poll, c': Cursor)
    requires InOrder(chain) && poll.Answer?
    requires c.fromBlock <= poll.tip + 1 && poll.tip <= poll.latest
    requires var logs := Batch(chain, c, poll);
             c'.fromBlock == if logs == [] then c.fromBlock else chain[logs[|logs| - 1]].block + 1
    ensures c'.fromBlock <= ReadUpTo(c, poll) + 1
    ensures CountBefore(chain, c'.fromBlock) == CountBefore(chain, ReadUpTo(c, poll) + 1)
  {
    if c.fromBlock <= poll.tip {
      PositionsAreRange(chain, c.fromBlock, poll.latest + 1);
      if Batch(chain, c, poll) != [] {
        PastLastBlock(chain, c.fromBlock, poll.latest + 1);
      }
    }
  }

  lemma AdvanceExtendsRange(chain: seq<Log>, start: nat, c: Cursor, c': Cursor, k: nat)
    requires InOrder(chain) && start <= c.fromBlock && Advances(chain, c, c', k, false)
    requires CountBefore(chain, start) <= CountBefore(chain, c.fromBlock)
    requires c.handled == Range(CountBefore(chain, start), CountBefore(chain, c.fromBlock))
    ensures CountBefore(chain, start) <= CountBefore(chain, c'.fromBlock)
    ensures c'.handled == Range(CountBefore(chain, start), CountBefore(chain, c'.fromBlock))
  {
  }

  /** The handled logs are all those before the cursor, from `start` on. */
  ghost predicate HandledAll(chain: seq<Log>, start: nat, c: Cursor) {
    && !c.stopped
    && start <= c.fromBlock
    && CountBefore(chain, start) <= CountBefore(chain, c.fromBlock)
    && c.handled == Range(CountBefore(chain, start), CountBefore(chain, c.fromBlock))
  }

  lemma AllBeforeIsPositions(chain: seq<Log>, start: nat, c: Cursor, before: nat)
    requires InOrder(chain) && HandledAll(chain, start, c) && start <= before
    requires CountBefore(chain, c.fromBlock) == CountBefore(chain, before)
    ensures c.handled == Positions(chain, start, before)
  {
    PositionsAreRange(chain, start, before);
  }

  /** One turn without faults: from all up to the cursor to all up to what the turn has read. */
  lemma ExactTurn(chain: seq<Log>, start: nat, c: Cursor, poll: Poll)
    requires InOrder(chain) && HandledAll(chain, start, c)
    requires poll.Answer? && poll.faults == map[] && c.fromBlock <= poll.tip + 1 && start <= poll.tip <= poll.latest
    ensures var c' := Turn(chain, c, poll);
            && HandledAll(chain, start, c')
            && c'.fromBlock <= ReadUpTo(c, poll) + 1
            && c'.handled == Positions(chain, start, ReadUpTo(c, poll) + 1)
  {
    var c' := Turn(chain, c, poll);
    var k := TurnAdvances(chain, c, poll);
    FaultFreeCursor(chain, c, poll);
    FaultFreeTurn(chain, c, poll, c');
    AdvanceExtendsRange(chain, start, c, c', k);
    AllBeforeIsPositions(chain, start, c', ReadUpTo(c, poll) + 1);
  }

  /** Without faults every log before the cursor has been handled, and the cursor stays within reach of the tip. */
  lemma {:induction false} FaultFreeTurns(chain: seq<Log>, start: nat, polls: seq<Poll>)
    requires InOrder(chain) && TipsGrow(start, polls) && FaultFree(polls)
    ensures var c := Turns(chain, Initial(start), polls);
            HandledAll(chain, start, c) && c.fromBlock <= Reach(start, polls) + 1
  {
    if polls != [] {
      var front, last := polls[..|polls| - 1], polls[|polls| - 1];
      var c := Turns(chain, Initial(start), front);
      FaultFreeTurns(chain, start, front);
      if last.Answer? {
        TipsFromStart(start, front);
        ExactTurn(chain, start, c, last);
      }
    }
  }

  /**
   * Exactly once: if no handler fails, then after each answered poll, whatever polls came before it,
   * the handled logs are all the logs from the start block up to the block that poll has read, each
   * once, in chain order.
   */
  lemma ExactlyOnce(chain: seq<Log>, start: nat, polls: seq<Poll>, last: Poll)
    requires InOrder(chain)
    requires TipsGrow(start, polls) && FaultFree(polls)
    requires last.Answer? && last.faults == map[] && Reach(start, polls) <= last.tip <= last.latest
    ensures var c := Turns(chain, Initial(start), polls);
            && last.tip <= ReadUpTo(c, last) <= last.latest
            && Turn(chain, c, last).handled == Positions(chain, start, ReadUpTo(c, last) + 1)
  {
    FaultFreeTurns(chain, start, polls);
    TipsFromStart(start, polls);
    ExactTurn(chain, start, Turns(chain, Initial(start), polls), last);
  }

  // ---------------------------------------------------------------------------------------
  // After failures and after cancellation
  // ---------------------------------------------------------------------------------------

  /** A turn of a running subscription whose first fault is a cancellation. */
  predicate MeetsCancel(chain: seq<Log>, c: Cursor, poll: Poll) {
    !c.stopped && poll.Answer? &&
    var logs := Batch(chain, c, poll);
    var k := Successes(logs, poll.faults);
    k < |logs| && poll.faults[logs[k]] == Cancels
  }

  predicate SomeCancelled(chain: seq<Log>, start: nat, polls: seq<Poll>) {
    polls != [] &&
    var front, last := polls[..|polls| - 1], polls[|polls| - 1];
    SomeCancelled(chain, start, front) || MeetsCancel(chain, Turns(chain, Initial(start), front), last)
  }

  lemma {:induction false} BatchStops(chain: seq<Log>, logs: seq<nat>, faults: map<nat, Fault>, c: Cursor)
    requires forall i | 0 <= i < |logs| :: logs[i] < |chain|
    requires !c.stopped
    ensures var k := Successes(logs, faults);
            HandleBatch(chain, logs, faults, c).stopped <==> k < |logs| && faults[logs[k]] == Cancels
  {
    if logs != [] && logs[0] !in faults {
      BatchStops(chain, logs[1..], faults, Cursor(c.handled + [logs[0]], chain[logs[0]].block + 1, false));
    }
  }

  lemma TurnStops(chain: seq<Log>, c: Cursor, poll: Poll)
    ensures Turn(chain, c, poll).stopped <==> c.stopped || MeetsCancel(chain, c, poll)
  {
    if !c.stopped && poll.Answer? {
      BatchStops(chain, Batch(chain, c, poll), poll.faults, c);
    }
  }

  /** A cancelled handler ends the subscription, and nothing else does, a throwing handler least of all. */
  lemma {:induction false} StoppedIffCancelled(chain: seq<Log>, start: nat, polls: seq<Poll>)
    ensures Turns(chain, Initial(start), polls).stopped <==> SomeCancelled(chain, start, polls)
  {
    if polls != [] {
      var front, last := polls[..|polls| - 1], polls[|polls| - 1];
      StoppedIffCancelled(chain, start, front);
      TurnStops(chain, Turns(chain, Initial(start), front), last);
    }
  }

  lemma {:induction false} StoppedStays(chain: seq<Log>, c: Cursor, later: seq<Poll>)
    requires c.stopped
    ensures Turns(chain, c, later) == c
  {
    if later != [] { StoppedStays(chain, c, later[..|later| - 1]); }
  }

  lemma {:induction false} TurnsAppend(chain: seq<Log>, c: Cursor, polls: seq<Poll>, later: seq<Poll>)
    ensures Turns(chain, c, polls + later) == Turns(chain, Turns(chain, c, polls), later)
    decreases |later|
  {
    if later == [] {
      assert polls + later == polls;
    } else {
      TurnsAppend(chain, c, polls, later[..|later| - 1]);
      assert (polls + later)[..|polls + later| - 1] == polls + later[..|later| - 1];
    }
  }

  /** Once a handler has been cancelled, no later poll handles anything. */
  lemma CancelledHandlesNoMore(chain: seq<Log>, start: nat, polls: seq<Poll>, later: seq<Poll>)
    requires SomeCancelled(chain, start, polls)
    ensures Turns(chain, Initial(start), polls + later) == Turns(chain, Initial(start), polls)
  {
    StoppedIffCancelled(chain, start, polls);
    TurnsAppend(chain, Initial(start), polls, later);
    StoppedStays(chain, Turns(chain, Initial(start), polls), later);
  }

  /**
   * Failures are retried. After any polls, however many handlers threw, an answered poll without faults, its tip not
   * behind the cursor, handles every log from the cursor up to what it reads, unless a handler was cancelled.
   */
  lemma FaultFreePollCatchesUp(chain: seq<Log>, start: nat, polls: seq<Poll>, poll: Poll)
    requires !SomeCancelled(chain, start, polls)
    requires var c := Turns(chain, Initial(start), polls);
             poll.Answer? && poll.faults == map[] && c.fromBlock <= poll.tip <= poll.latest
    ensures var c := Turns(chain, Initial(start), polls);
            Turn(chain, c, poll).handled == c.handled + Positions(chain, c.fromBlock, poll.latest + 1)
  {
    var c := Turns(chain, Initial(start), polls);
    StoppedIffCancelled(chain, start, polls);
    var logs := Batch(chain, c, poll);
    HandleBatchResult(chain, logs, poll.faults, c);
    NoFaultNoStop(chain, logs, c);
  }

  /** The log a turn fails on, by an exception and not mid-block, is not behind the cursor afterwards. */
  lemma FailedLogAhead(chain: seq<Log>, c: Cursor, poll: Poll, c': Cursor, k: nat)
    requires InOrder(chain) && !c.stopped && poll.Answer? && !FailsMidBlock(chain, c, poll)
    requires k == Successes(Batch(chain, c, poll), poll.faults) < |Batch(chain, c, poll)|
    requires c' == HandleBatch(chain, Batch(chain, c, poll), poll.faults, c)
    ensures c'.fromBlock <= chain[Batch(chain, c, poll)[k]].block
  {
    var logs := Batch(chain, c, poll);
    HandleBatchResult(chain, logs, poll.faults, c);
    PositionsSelect(chain, c.fromBlock, poll.latest + 1);
    assert logs[k] in logs;
    if k > 0 {
      assert logs[k - 1] < logs[k];
      assert chain[logs[k - 1]].block <= chain[logs[k]].block;
    }
  }

  /**
   * So a log whose handler threw, no earlier log of its block having been handled in that turn, is handled by the
   * next poll that answers without faults and reads its block.
   */
  lemma FailedLogIsRetried(chain: seq<Log>, start: nat, polls: seq<Poll>, failing: Poll, next: Poll)
    requires InOrder(chain) && !SomeCancelled(chain, start, polls + [failing])
    requires failing.Answer? && next.Answer? && next.faults == map[]
    requires var c := Turns(chain, Initial(start), polls);
             && !FailsMidBlock(chain, c, failing)
             && Successes(Batch(chain, c, failing), failing.faults) < |Batch(chain, c, failing)|
             && Turn(chain, c, failing).fromBlock <= next.tip <= next.latest
    ensures var c := Turns(chain, Initial(start), polls);
            var failed := Batch(chain, c, failing)[Successes(Batch(chain, c, failing), failing.faults)];
            chain[failed].block <= next.latest ==>
              failed in Turns(chain, Initial(start), polls + [failing] + [next]).handled
  {
    var c := Turns(chain, Initial(start), polls);
    var c1 := Turn(chain, c, failing);
    var k := Successes(Batch(chain, c, failing), failing.faults);
    var failed := Batch(chain, c, failing)[k];
    assert (polls + [failing])[..|polls|] == polls;
    assert (polls + [failing] + [next])[..|polls| + 1] == polls + [failing];
    StoppedIffCancelled(chain, start, polls);
    FailedLogAhead(chain, c, failing, c1, k);
    FaultFreePollCatchesUp(chain, start, polls + [failing], next);
    PositionsSelect(chain, c1.fromBlock, next.latest + 1);
  }
}
