/** The message bus of the Wi-Fi core thread: any number of sender threads, one bounded
    queue, one core thread, interleaved at interrupt-disabled regions and queue calls.
    RX notifications are throttled by a counter, TX messages carry references to packet
    buffers. */
module CoreBus {
  import opened Bytes

  const QUEUE_MAX: nat := 64   // CORE_QITEM_COUNT

  datatype Msg = RxMsg | TxMsg(p: nat) | OtherMsg

  /** Where a thread stands in bmsg_rx_sender. */
  datatype RxPc = RxOut | RxCounted | RxPushFailed

  /** Where a thread stands in bmsg_tx_sender. */
  datatype TxPc = TxOut | TxHolding(p: nat) | TxPushFailed(p: nat)

  /** Where the core thread stands in its loop. */
  datatype CorePc =
    | Waiting
    | RxPopped           // before the decrement in bmsg_rx_handler
    | RxReady            // before rxl_cntrl_evt
    | TxPopped(p: nat)   // before pbuf_coalesce
    | TxSent(q: nat)     // before pbuf_free

  /** `refs` are the reference counts of packet buffers, `ext` the references that anyone
      but the bus holds; `events` counts calls of rxl_cntrl_evt. */
  datatype Bus = Bus(
    count: int, queue: seq<Msg>, rx: seq<RxPc>, tx: seq<TxPc>, core: CorePc,
    refs: map<nat, nat>, ext: map<nat, nat>, events: nat)

  function Get(m: map<nat, nat>, p: nat): nat {
    if p in m then m[p] else 0
  }

  datatype Coalesced = Single | Cloned(q: nat) | NoMemory

  datatype Step =
    | RxAdmit(i: nat)            // count test and increment, or refusal
    | RxPush(i: nat)
    | RxRollback(i: nat)
    | TxRef(i: nat, p: nat)
    | TxPush(i: nat)
    | TxRelease(i: nat)
    | OtherPush
    | Pop
    | RxDecrement
    | RxEvent
    | TxCoalesce(c: Coalesced)
    | TxFree
    | ExtTake(p: nat)            // someone else allocates or references a buffer
    | ExtDrop(p: nat)

  predicate Full(s: Bus) {
    |s.queue| >= QUEUE_MAX
  }

  ghost predicate Enabled(s: Bus, a: Step) {
    match a
    case RxAdmit(i) => i < |s.rx| && s.rx[i].RxOut?
    case RxPush(i) => i < |s.rx| && s.rx[i].RxCounted?
    case RxRollback(i) => i < |s.rx| && s.rx[i].RxPushFailed?
    case TxRef(i, p) => i < |s.tx| && s.tx[i].TxOut? && Get(s.ext, p) > 0
    case TxPush(i) => i < |s.tx| && s.tx[i].TxHolding?
    case TxRelease(i) => i < |s.tx| && s.tx[i].TxPushFailed?
    case OtherPush => !Full(s)
    case Pop => s.core.Waiting? && s.queue != []
    case RxDecrement => s.core.RxPopped?
    case RxEvent => s.core.RxReady?
    case TxCoalesce(c) => s.core.TxPopped? && (c.Cloned? ==> Get(s.refs, c.q) == 0)
    case TxFree => s.core.TxSent?
    case ExtTake(p) => true
    case ExtDrop(p) => Get(s.ext, p) > 0
  }

  function Drop(m: map<nat, nat>, p: nat): map<nat, nat> {
    m[p := if Get(m, p) > 0 then Get(m, p) - 1 else 0]
  }

  function Raise(m: map<nat, nat>, p: nat): map<nat, nat> {
    m[p := Get(m, p) + 1]
  }

  function Next(s: Bus, a: Step): Bus
    requires Enabled(s, a)
  {
    match a
    case RxAdmit(i) =>
      if s.count >= 2 then s
      else s.(count := s.count + 1, rx := s.rx[i := RxCounted])
    case RxPush(i) =>
      if Full(s) then s.(rx := s.rx[i := RxPushFailed])
      else s.(queue := s.queue + [RxMsg], rx := s.rx[i := RxOut])
    case RxRollback(i) => s.(count := s.count - 1, rx := s.rx[i := RxOut])
    case TxRef(i, p) => s.(refs := Raise(s.refs, p), tx := s.tx[i := TxHolding(p)])
    case TxPush(i) =>
      var p := s.tx[i].p;
      if Full(s) then s.(tx := s.tx[i := TxPushFailed(p)])
      else s.(queue := s.queue + [TxMsg(p)], tx := s.tx[i := TxOut])
    case TxRelease(i) => s.(refs := Drop(s.refs, s.tx[i].p), tx := s.tx[i := TxOut])
    case OtherPush => s.(queue := s.queue + [OtherMsg])
    case Pop =>
      s.(queue := s.queue[1..],
         core := match s.queue[0]
                 case RxMsg => RxPopped
                 case TxMsg(p) => TxPopped(p)
                 case OtherMsg => Waiting)
    case RxDecrement => s.(count := if s.count > 0 then s.count - 1 else s.count, core := RxReady)
    case RxEvent => s.(core := Waiting, events := s.events + 1)
    case TxCoalesce(c) =>
      if c.Cloned?
      then s.(refs := Drop(Raise(s.refs, c.q), s.core.p), core := TxSent(c.q))
      else s.(core := TxSent(s.core.p))
    case TxFree => s.(refs := Drop(s.refs, s.core.q), core := Waiting)
    case ExtTake(p) => s.(refs := Raise(s.refs, p), ext := Raise(s.ext, p))
    case ExtDrop(p) => s.(refs := Drop(s.refs, p), ext := Drop(s.ext, p))
  }

  // ---------------------------------------------------------------- accounts

  /** Occurrences of `x` in `q`. */
  ghost function N<T>(q: seq<T>, x: T): nat {
    multiset(q)[x]
  }

  lemma NUpdate<T>(q: seq<T>, i: nat, y: T, x: T)
    requires i < |q|
    ensures N(q[i := y], x) + Bit(q[i] == x) == N(q, x) + Bit(y == x)
  {
  }

  lemma NSnoc<T>(q: seq<T>, y: T, x: T)
    ensures N(q + [y], x) == N(q, x) + Bit(y == x)
  {
  }

  lemma NTail<T>(q: seq<T>, x: T)
    requires q != []
    ensures N(q, x) == N(q[1..], x) + Bit(q[0] == x)
  {
    assert q == [q[0]] + q[1..];
  }

  lemma NAll<T>(q: seq<T>, y: T, x: T)
    requires x != y && forall i | 0 <= i < |q| :: q[i] == y
    ensures N(q, x) == 0
  {
    if x in multiset(q) {
      assert x in q;
    }
  }

  ghost function Queued(s: Bus): nat { N(s.queue, RxMsg) }
  ghost function Failed(s: Bus): nat { N(s.rx, RxPushFailed) }
  ghost function Counted(s: Bus): nat { N(s.rx, RxCounted) }

  /** bmsg_rx_count is the number of notifications admitted and not yet taken back. */
  ghost predicate RxBalanced(s: Bus) {
    && s.count == Queued(s) + Counted(s) + Failed(s) + Bit(s.core.RxPopped?)
    && 0 <= s.count <= 2
    && |s.queue| <= QUEUE_MAX
  }

  /** References to `p` that the bus itself answers for. */
  ghost function Owned(s: Bus, p: nat): nat {
    N(s.queue, TxMsg(p)) + N(s.tx, TxHolding(p)) + N(s.tx, TxPushFailed(p))
    + Bit(s.core == TxPopped(p) || s.core == TxSent(p))
  }

  ghost predicate TxBalancedAt(s: Bus, p: nat) {
    Get(s.refs, p) == Get(s.ext, p) + Owned(s, p)
  }

  /** Each buffer's count is what its holders add up to. */
  ghost predicate TxBalanced(s: Bus) {
    forall p: nat :: TxBalancedAt(s, p)
  }

  ghost predicate Inv(s: Bus) {
    RxBalanced(s) && TxBalanced(s)
  }

  /** How the RX accounts move in one step. */
  lemma RxAccounts(s: Bus, a: Step)
    requires Enabled(s, a)
    ensures var t := Next(s, a);
            match a
            case RxAdmit(_) =>
              Queued(t) == Queued(s) && Failed(t) == Failed(s) && Counted(t) == Counted(s) + Bit(s.count < 2)
            case RxPush(_) =>
              && Counted(t) + 1 == Counted(s)
              && Failed(t) == Failed(s) + Bit(Full(s)) && Queued(t) == Queued(s) + Bit(!Full(s))
            case RxRollback(_) => Queued(t) == Queued(s) && Counted(t) == Counted(s) && Failed(t) + 1 == Failed(s)
            case Pop => Counted(t) == Counted(s) && Failed(t) == Failed(s) && Queued(t) + Bit(t.core.RxPopped?) == Queued(s)
            case _ => Counted(t) == Counted(s) && Failed(t) == Failed(s) && Queued(t) == Queued(s)
  {
    hide N, Drop, Raise, Get;
    match a
    case RxAdmit(i) => RxMove(s.rx, i, RxCounted);
    case RxPush(i) =>
      RxMove(s.rx, i, RxPushFailed);
      RxMove(s.rx, i, RxOut);
      NSnoc(s.queue, RxMsg, RxMsg);
    case RxRollback(i) => RxMove(s.rx, i, RxOut);
    case TxPush(i) => NSnoc(s.queue, TxMsg(s.tx[i].p), RxMsg);
    case OtherPush => NSnoc(s.queue, OtherMsg, RxMsg);
    case Pop => NTail(s.queue, RxMsg);
    case _ =>
  }

  lemma RxMove(rx: seq<RxPc>, i: nat, y: RxPc)
    requires i < |rx|
    ensures N(rx[i := y], RxCounted) + Bit(rx[i].RxCounted?) == N(rx, RxCounted) + Bit(y.RxCounted?)
    ensures N(rx[i := y], RxPushFailed) + Bit(rx[i].RxPushFailed?) == N(rx, RxPushFailed) + Bit(y.RxPushFailed?)
  {
    hide N;
    NUpdate(rx, i, y, RxCounted);
    NUpdate(rx, i, y, RxPushFailed);
  }

  lemma RxKept(s: Bus, a: Step)
    requires RxBalanced(s) && Enabled(s, a)
    ensures RxBalanced(Next(s, a))
  {
    hide Queued, Failed, Counted, Drop, Raise, Get;
    RxAccounts(s, a);
  }

  /** How the references to `p` held by the bus move in one step. */
  ghost predicate TxMoves(s: Bus, a: Step, p: nat)
    requires Enabled(s, a)
  {
    var t := Next(s, a);
    match a
    case TxRef(_, q) => Owned(t, p) == Owned(s, p) + Bit(p == q)
    case TxRelease(i) => Owned(t, p) + Bit(s.tx[i].p == p) == Owned(s, p)
    case TxCoalesce(c) =>
      if c.Cloned? then Owned(t, p) + Bit(s.core.p == p) == Owned(s, p) + Bit(c.q == p)
      else Owned(t, p) == Owned(s, p)
    case TxFree => Owned(t, p) + Bit(s.core.q == p) == Owned(s, p)
    case _ => Owned(t, p) == Owned(s, p)
  }

  lemma TxAccounts(s: Bus, a: Step, p: nat)
    requires Enabled(s, a)
    ensures TxMoves(s, a, p)
  {
    hide TxMoves, Next, Enabled;
    if a.TxRef? || a.TxPush? || a.TxRelease? {
      TxBySender(s, a, p);
    } else if a.Pop? || a.TxCoalesce? || a.TxFree? {
      TxByCore(s, a, p);
    } else {
      TxByOthers(s, a, p);
    }
  }

  lemma TxBySender(s: Bus, a: Step, p: nat)
    requires Enabled(s, a) && (a.TxRef? || a.TxPush? || a.TxRelease?)
    ensures TxMoves(s, a, p)
  {
    hide N, Drop, Raise, Get;
    match a
    case TxRef(i, q) => TxMove(s.tx, i, TxHolding(q), p);
    case TxPush(i) =>
      TxMove(s.tx, i, TxPushFailed(s.tx[i].p), p);
      TxMove(s.tx, i, TxOut, p);
      NSnoc(s.queue, TxMsg(s.tx[i].p), TxMsg(p));
    case TxRelease(i) => TxMove(s.tx, i, TxOut, p);
  }

  lemma TxByCore(s: Bus, a: Step, p: nat)
    requires Enabled(s, a) && (a.Pop? || a.TxCoalesce? || a.TxFree?)
    ensures TxMoves(s, a, p)
  {
    hide N, Drop, Raise, Get;
    if a.Pop? {
      NTail(s.queue, TxMsg(p));
    }
  }

  lemma TxByOthers(s: Bus, a: Step, p: nat)
    requires Enabled(s, a) && !(a.TxRef? || a.TxPush? || a.TxRelease?) && !(a.Pop? || a.TxCoalesce? || a.TxFree?)
    ensures TxMoves(s, a, p)
  {
    hide N, Drop, Raise, Get;
    NSnoc(s.queue, RxMsg, TxMsg(p));
    NSnoc(s.queue, OtherMsg, TxMsg(p));
  }

  lemma TxMove(tx: seq<TxPc>, i: nat, y: TxPc, p: nat)
    requires i < |tx|
    ensures N(tx[i := y], TxHolding(p)) + Bit(tx[i] == TxHolding(p)) == N(tx, TxHolding(p)) + Bit(y == TxHolding(p))
    ensures N(tx[i := y], TxPushFailed(p)) + Bit(tx[i] == TxPushFailed(p)) ==
            N(tx, TxPushFailed(p)) + Bit(y == TxPushFailed(p))
  {
    hide N;
    NUpdate(tx, i, y, TxHolding(p));
    NUpdate(tx, i, y, TxPushFailed(p));
  }

  lemma TxKept(s: Bus, a: Step, p: nat)
    requires TxBalanced(s) && Enabled(s, a)
    ensures TxBalancedAt(Next(s, a), p)
  {
    hide Owned;
    assert TxBalancedAt(s, p);
    TxAccounts(s, a, p);
    match a
    case TxCoalesce(c) =>
      assert TxBalancedAt(s, s.core.p);
      TxAccounts(s, a, s.core.p);
      if c.Cloned? {
        assert TxBalancedAt(s, c.q);
        InHand(s);
      }
    case _ =>
  }

  lemma InHand(s: Bus)
    requires s.core.TxPopped?
    ensures Owned(s, s.core.p) > 0
  {
  }

  // ---------------------------------------------------------------- runs

  /** All threads outside, nothing queued. */
  ghost predicate Boot(s: Bus) {
    && s.count == 0 && s.queue == [] && s.core.Waiting? && s.refs == s.ext
    && (forall i | 0 <= i < |s.rx| :: s.rx[i].RxOut?)
    && (forall i | 0 <= i < |s.tx| :: s.tx[i].TxOut?)
  }

  ghost predicate Runs(s: Bus, steps: seq<Step>, t: Bus)
    decreases |steps|
  {
    if steps == [] then s == t
    else Enabled(s, steps[0]) && Runs(Next(s, steps[0]), steps[1..], t)
  }

  lemma BootInv(s: Bus)
    requires Boot(s)
    ensures Inv(s)
  {
    hide N;
    NAll(s.rx, RxOut, RxCounted);
    NAll(s.rx, RxOut, RxPushFailed);
    NAll(s.queue, OtherMsg, RxMsg);
    forall p: nat ensures TxBalancedAt(s, p) {
      NAll(s.queue, OtherMsg, TxMsg(p));
      NAll(s.tx, TxOut, TxHolding(p));
      NAll(s.tx, TxOut, TxPushFailed(p));
    }
  }

  lemma {:induction false} RunInv(s: Bus, steps: seq<Step>, t: Bus)
    requires Inv(s) && Runs(s, steps, t)
    ensures Inv(t)
    decreases |steps|
  {
    hide RxBalanced, TxBalancedAt, Next, Enabled;
    if steps != [] {
      RxKept(s, steps[0]);
      forall p: nat ensures TxBalancedAt(Next(s, steps[0]), p) {
        TxKept(s, steps[0], p);
      }
      RunInv(Next(s, steps[0]), steps[1..], t);
    }
  }

  /** In every reachable state the RX counter is the sum of its four accounts and stays
      within 0..2, and the guard in bmsg_rx_handler holds whenever it is reached. */
  lemma RxCounterExact(s: Bus, steps: seq<Step>, t: Bus)
    requires Boot(s) && Runs(s, steps, t)
    ensures t.count == Queued(t) + Counted(t) + Failed(t) + Bit(t.core.RxPopped?)
    ensures 0 <= t.count <= 2
    ensures t.core.RxPopped? ==> t.count > 0
  {
    BootInv(s);
    RunInv(s, steps, t);
  }

  /** In every reachable state each buffer's reference count is what its holders add up to:
      a buffer in a sender's or the handler's hands is alive, and once everybody is outside
      and the queue is empty the bus holds nothing back. */
  lemma TxReferencesExact(s: Bus, steps: seq<Step>, t: Bus, p: nat)
    requires Boot(s) && Runs(s, steps, t)
    ensures Get(t.refs, p) == Get(t.ext, p) + Owned(t, p)
    ensures t.core == TxPopped(p) || t.core == TxSent(p) || TxMsg(p) in t.queue ==> Get(t.refs, p) > 0
    ensures t.queue == [] && t.core.Waiting? && (forall i | 0 <= i < |t.tx| :: t.tx[i].TxOut?) ==>
              Get(t.refs, p) == Get(t.ext, p)
  {
    hide Runs;
    BootInv(s);
    RunInv(s, steps, t);
    assert TxBalancedAt(t, p);
    if t.queue == [] && t.core.Waiting? && (forall i | 0 <= i < |t.tx| :: t.tx[i].TxOut?) {
      NAll(t.tx, TxOut, TxHolding(p));
      NAll(t.tx, TxOut, TxPushFailed(p));
    }
  }

  // ---------------------------------------------------------------- refused senders

  /** rxl_cntrl_evt calls that are bound to come. */
  ghost function Owed(s: Bus): nat {
    Queued(s) + Counted(s) + Bit(s.core.RxPopped? || s.core.RxReady?)
  }

  predicate PushFails(s: Bus, a: Step) {
    a.RxPush? && Full(s)
  }

  ghost function Admits(s: Bus, a: Step): nat {
    Bit(a.RxAdmit? && s.count < 2)
  }

  lemma OwedStep(s: Bus, a: Step)
    requires Enabled(s, a)
    ensures var t := Next(s, a);
            t.events + Owed(t) + Bit(PushFails(s, a)) == s.events + Owed(s) + Admits(s, a)
  {
    hide Queued, Counted, Failed, Drop, Raise, Get;
    RxAccounts(s, a);
  }

  ghost predicate NoPushFails(s: Bus, steps: seq<Step>)
    decreases |steps|
  {
    steps == [] ||
    (Enabled(s, steps[0]) && !PushFails(s, steps[0]) && NoPushFails(Next(s, steps[0]), steps[1..]))
  }

  lemma {:induction false} EventsPaid(s: Bus, steps: seq<Step>, t: Bus)
    requires Runs(s, steps, t) && NoPushFails(s, steps)
    ensures t.events + Owed(t) >= s.events + Owed(s)
    decreases |steps|
  {
    if steps != [] {
      OwedStep(s, steps[0]);
      EventsPaid(Next(s, steps[0]), steps[1..], t);
    }
  }

  /** A sender refused in a reachable state has events coming, exactly unless both tokens
      belong to senders whose push has failed and the core thread is not about to make one. */
  lemma RefusedExactly(s0: Bus, before: seq<Step>, s: Bus)
    requires Boot(s0) && Runs(s0, before, s) && s.count >= 2
    ensures Owed(s) == 0 <==> Failed(s) == 2 && !s.core.RxReady?
    ensures Failed(s) == 0 ==> Owed(s) >= 2
  {
    BootInv(s0);
    RunInv(s0, before, s);
  }

  /** The core thread is between popping a notification and its event. */
  predicate Busy(s: Bus) {
    s.core.RxPopped? || s.core.RxReady?
  }

  /** Events made or in the core thread's hands. */
  function Begun(s: Bus): nat {
    s.events + Bit(Busy(s))
  }

  ghost function Pops(steps: seq<Step>): nat {
    if steps == [] then 0 else Bit(steps[0].Pop?) + Pops(steps[1..])
  }

  /** The queue only moves up, and a notification that leaves it is in hand. */
  lemma QueueStep(s: Bus, a: Step, k: nat)
    requires Enabled(s, a)
    ensures Begun(Next(s, a)) >= Begun(s)
    ensures k < |s.queue| && s.queue[k].RxMsg? ==>
              var q := Next(s, a).queue;
              if a.Pop? && k == 0 then Begun(Next(s, a)) > Begun(s)
              else if a.Pop? then k - 1 < |q| && q[k - 1].RxMsg?
              else k < |q| && q[k].RxMsg?
  {
    hide Drop, Raise, Get;
  }

  lemma {:induction false} BegunRun(s: Bus, steps: seq<Step>, t: Bus)
    requires Runs(s, steps, t)
    ensures Begun(t) >= Begun(s)
    decreases |steps|
  {
    hide Next, Enabled, Begun;
    if steps != [] {
      QueueStep(s, steps[0], 0);
      BegunRun(Next(s, steps[0]), steps[1..], t);
    }
  }

  /** First in, first out: a notification with `k` messages in front of it is in hand after
      `k + 1` pops, whatever else is pushed meanwhile. */
  lemma {:induction false} FirstOut(s: Bus, steps: seq<Step>, t: Bus, k: nat)
    requires Runs(s, steps, t) && k < |s.queue| && s.queue[k].RxMsg? && k < Pops(steps)
    ensures Begun(t) > Begun(s)
    decreases |steps|
  {
    hide Next, Enabled, Begun;
    var u := Next(s, steps[0]);
    QueueStep(s, steps[0], k);
    if steps[0].Pop? && k == 0 {
      BegunRun(u, steps[1..], t);
    } else {
      FirstOut(u, steps[1..], t, if steps[0].Pop? then k - 1 else k);
    }
  }

  /** What a step puts into the queue: a sender's message while it holds fewer than 64. */
  ghost function Pushes(s: Bus, a: Step): seq<Msg>
    requires Enabled(s, a)
  {
    match a
    case RxPush(_) => if |s.queue| < 64 then [RxMsg] else []
    case TxPush(i) => if |s.queue| < 64 then [TxMsg(s.tx[i].p)] else []
    case OtherPush => [OtherMsg]
    case _ => []
  }

  /** Everything a run puts into the queue, in order. */
  ghost function Pushed(s: Bus, steps: seq<Step>): seq<Msg>
    decreases |steps|
  {
    if steps == [] || !Enabled(s, steps[0]) then []
    else Pushes(s, steps[0]) + Pushed(Next(s, steps[0]), steps[1..])
  }

  lemma QueueMoves(s: Bus, a: Step)
    requires Enabled(s, a)
    ensures a.Pop? ==> s.queue != []
    ensures Next(s, a).queue == (s.queue + Pushes(s, a))[Bit(a.Pop?)..]
  {
    hide Drop, Raise, Get;
    assert s.queue + [] == s.queue;
  }

  /** The queue over every run: what was in it and what was pushed, in this order, without
      as many messages from the front as were popped. */
  lemma {:induction false} QueueExactly(s: Bus, steps: seq<Step>, t: Bus)
    requires Runs(s, steps, t)
    ensures Pops(steps) <= |s.queue| + |Pushed(s, steps)|
    ensures t.queue == (s.queue + Pushed(s, steps))[Pops(steps)..]
    decreases |steps|
  {
    hide Next, Enabled, Pushes;
    if steps == [] {
      assert s.queue + [] == s.queue;
    } else {
      var a, u, rest := steps[0], Next(s, steps[0]), steps[1..];
      QueueMoves(s, a);
      QueueExactly(u, rest, t);
      var all, b := s.queue + Pushed(s, steps), Bit(a.Pop?);
      assert all == (s.queue + Pushes(s, a)) + Pushed(u, rest);
      assert all[b..] == u.queue + Pushed(u, rest);
      assert all[b..][Pops(rest)..] == all[b + Pops(rest)..];
    }
  }

  /** First in, first out for transmissions too: a buffer with `k` messages in front of it,
      queued already or pushed later, is in the handler's hands after `k + 1` pops and not
      before. */
  lemma TxFirstOut(s: Bus, steps: seq<Step>, t: Bus, k: nat, p: nat)
    requires Runs(s, steps, t) && Enabled(t, Pop) && Pops(steps) == k
    requires k < |s.queue + Pushed(s, steps)| && (s.queue + Pushed(s, steps))[k] == TxMsg(p)
    ensures Next(t, Pop).core == TxPopped(p)
  {
    hide Runs, Pushed, Pops;
    QueueExactly(s, steps, t);
  }

  /** A new notification is queued or one has been taken up since `e` were begun. */
  ghost predicate Underway(s: Bus, e: nat) {
    Begun(s) > e || RxMsg in s.queue
  }

  lemma {:induction false} StaysUnderway(s: Bus, steps: seq<Step>, t: Bus, e: nat)
    requires Runs(s, steps, t) && Underway(s, e) && e <= Begun(s)
    ensures Underway(t, e)
    decreases |steps|
  {
    hide Next, Enabled, Begun;
    if steps != [] {
      var k := if RxMsg in s.queue then IndexOf(s.queue) else 0;
      QueueStep(s, steps[0], k);
      StaysUnderway(Next(s, steps[0]), steps[1..], t, e);
    }
  }

  ghost function IndexOf(q: seq<Msg>): (k: nat)
    requires RxMsg in q
    ensures k < |q| && q[k] == RxMsg
  {
    var k :| 0 <= k < |q| && q[k] == RxMsg;
    k
  }

  /** An admitted sender that makes its push puts a notification under way. */
  lemma {:induction false} PushUnderway(s: Bus, steps: seq<Step>, t: Bus, i: nat, e: nat)
    requires Runs(s, steps, t) && NoPushFails(s, steps) && e <= Begun(s)
    requires i < |s.rx| && s.rx[i].RxCounted? && RxPush(i) in steps
    ensures Underway(t, e)
    decreases |steps|
  {
    var u := Next(s, steps[0]);
    QueueStep(s, steps[0], 0);
    if steps[0] == RxPush(i) {
      assert u.queue[|u.queue| - 1] == RxMsg;
      StaysUnderway(u, steps[1..], t, e);
    } else {
      hide Begun;
      assert RxPush(i) in steps[1..];
      StillCounted(s, steps[0], i);
      PushUnderway(u, steps[1..], t, i, e);
    }
  }

  lemma StillCounted(s: Bus, a: Step, i: nat)
    requires Enabled(s, a) && a != RxPush(i) && i < |s.rx| && s.rx[i].RxCounted?
    ensures var t := Next(s, a); i < |t.rx| && t.rx[i].RxCounted?
  {
    hide Drop, Raise, Get;
  }

  /** The promise behind a refusal: while the senders admitted at that moment make their
      pushes and none fails, and then the core thread works off the messages it finds, at
      least one rxl_cntrl_evt call is made, however many senders are admitted meanwhile. */
  lemma RefusedSenderServed(s: Bus, mid: seq<Step>, u: Bus, after: seq<Step>, t: Bus)
    requires Owed(s) > 0
    requires Runs(s, mid, u) && NoPushFails(s, mid)
    requires forall i | 0 <= i < |s.rx| && s.rx[i].RxCounted? :: RxPush(i) in mid
    requires Runs(u, after, t) && Pops(after) >= |u.queue| && !Busy(t)
    ensures t.events > s.events
  {
    hide Runs, NoPushFails, Pops;
    BegunRun(s, mid, u);
    BegunRun(u, after, t);
    if !Busy(s) {
      if Queued(s) > 0 {
        assert RxMsg in multiset(s.queue);
        StaysUnderway(s, mid, u, s.events);
      } else {
        assert RxCounted in multiset(s.rx);
        var i :| 0 <= i < |s.rx| && s.rx[i] == RxCounted;
        PushUnderway(s, mid, u, i, s.events);
      }
      if RxMsg in u.queue {
        FirstOut(u, after, t, IndexOf(u.queue));
      }
    }
  }

  // ---------------------------------------------------------------- the lost notification

  lemma {:induction false} Flood(s: Bus, n: nat) returns (steps: seq<Step>)
    requires |s.queue| + n <= QUEUE_MAX
    ensures Runs(s, steps, s.(queue := s.queue + seq(n, _ => OtherMsg)))
    decreases n
  {
    if n == 0 {
      steps := [];
      assert s.queue + seq(0, _ => OtherMsg) == s.queue;
    } else {
      var t := Next(s, OtherPush);
      var rest := Flood(t, n - 1);
      steps := [OtherPush] + rest;
      assert steps[1..] == rest;
      assert t.queue + seq(n - 1, _ => OtherMsg) == s.queue + seq(n, _ => OtherMsg);
    }
  }

  lemma {:induction false} Chain(s: Bus, a: seq<Step>, t: Bus, b: seq<Step>, u: Bus)
    requires Runs(s, a, t) && Runs(t, b, u)
    ensures Runs(s, a + b, u)
    decreases |a|
  {
    if a == [] {
      assert a + b == b;
    } else {
      Chain(Next(s, a[0]), a[1..], t, b, u);
      assert (a + b)[1..] == a[1..] + b;
    }
  }

  lemma Then(s: Bus, steps: seq<Step>, t: Bus, a: Step)
    requires Runs(s, steps, t) && Enabled(t, a)
    ensures Runs(s, steps + [a], Next(t, a))
  {
    hide Next, Enabled;
    assert Runs(Next(t, a), [a][1..], Next(t, a));
    Chain(s, steps, t, [a], Next(t, a));
  }

  /** Two senders take the tokens in turn and find the queue full. */
  lemma BothFail(s0: Bus, steps: seq<Step>, f: Bus) returns (r: seq<Step>, s: Bus)
    requires Runs(s0, steps, f) && Full(f) && f.count == 0 && f.rx == [RxOut, RxOut, RxOut]
    ensures Runs(s0, r, s) && s == f.(count := 2, rx := [RxPushFailed, RxPushFailed, RxOut])
  {
    hide Runs;
    Then(s0, steps, f, RxAdmit(0));
    var a := f.(count := 1, rx := [RxCounted, RxOut, RxOut]);
    assert Next(f, RxAdmit(0)) == a;
    r := steps + [RxAdmit(0)];
    Then(s0, r, a, RxAdmit(1));
    var b := f.(count := 2, rx := [RxCounted, RxCounted, RxOut]);
    assert Next(a, RxAdmit(1)) == b;
    r := r + [RxAdmit(1)];
    Then(s0, r, b, RxPush(0));
    var c := f.(count := 2, rx := [RxPushFailed, RxCounted, RxOut]);
    assert Next(b, RxPush(0)) == c;
    r := r + [RxPush(0)];
    Then(s0, r, c, RxPush(1));
    s := f.(count := 2, rx := [RxPushFailed, RxPushFailed, RxOut]);
    assert Next(c, RxPush(1)) == s;
    r := r + [RxPush(1)];
  }

  /** With a full queue two senders can hold both tokens and fail: a third sender is refused
      although no rxl_cntrl_evt call is owed to anyone. */
  lemma RefusalWithoutEvent() returns (s0: Bus, steps: seq<Step>, s: Bus)
    ensures Boot(s0) && Runs(s0, steps, s)
    ensures Enabled(s, RxAdmit(2)) && Next(s, RxAdmit(2)) == s && Owed(s) == 0
  {
    hide Runs, N;
    s0 := Bus(0, [], [RxOut, RxOut, RxOut], [], Waiting, map[], map[], 0);
    steps := Flood(s0, QUEUE_MAX);
    var f := s0.(queue := s0.queue + seq(QUEUE_MAX, _ => OtherMsg));
    steps, s := BothFail(s0, steps, f);
    NAll(s.queue, OtherMsg, RxMsg);
    NThree(RxPushFailed, RxPushFailed, RxOut, RxCounted);
  }

  lemma NThree<T>(a: T, b: T, c: T, x: T)
    requires x != a && x != b && x != c
    ensures N([a, b, c], x) == 0
  {
  }
}
