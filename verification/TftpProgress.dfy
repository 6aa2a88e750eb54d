/** From which states of the TFTP system the download can still be completed. */
module TftpProgress {
  import opened Bytes
  import opened Tftp
  import opened TftpSafety

  // ---------------------------------------------------------------- before the server answers

  /** Until the server has seen a request the client has nothing but requests to send. */
  ghost predicate IdleOk(s: Sys) {
    s.server.Idle? ==>
      && s.client.mode == STATE_RRQ && s.client.peer == WELL_KNOWN_PORT && s.down == []
      && (forall i | 0 <= i < |s.up| :: s.up[i].msg.ReadRequest?)
  }

  lemma StepKeepsIdle(f: File, s: Sys, a: Step)
    requires IdleOk(s) && Enabled(f, s, a)
    ensures IdleOk(Next(f, s, a))
  {
    hide Handle;
    if s.server.Idle? {
      var t := Next(f, s, a);
      assert forall i | 0 <= i < |t.up| :: t.up[i] in s.up || t.up[i].msg == Send(s.client);
    }
  }

  lemma {:induction false} RunKeepsIdle(f: File, c: Client, steps: seq<Step>)
    requires Feasible(f, c, steps)
    ensures IdleOk(RunSys(f, c, steps))
    decreases |steps|
  {
    hide Next, IdleOk, Enabled;
    if steps == [] {
      assert IdleOk(Boot(c)) by { BootIdle(c); }
    } else {
      var prev := steps[..|steps| - 1];
      RunKeepsIdle(f, c, prev);
      StepKeepsIdle(f, RunSys(f, c, prev), steps[|steps| - 1]);
    }
  }

  lemma BootIdle(c: Client)
    ensures IdleOk(Boot(c))
  {
  }

  // ---------------------------------------------------------------- going on

  /** `r` continues `steps` and brings the system to a state. */
  lemma Extend(f: File, c: Client, steps: seq<Step>, a: Step) returns (r: seq<Step>)
    requires Feasible(f, c, steps) && Enabled(f, RunSys(f, c, steps), a)
    ensures r == steps + [a] && Feasible(f, c, r) && RunSys(f, c, r) == Next(f, RunSys(f, c, steps), a)
  {
    r := steps + [a];
    assert r[..|r| - 1] == steps;
  }

  /** `r` continues `steps` without any repetition by the server. */
  ghost predicate Unaided(steps: seq<Step>, r: seq<Step>) {
    steps <= r && ServerRepeats !in r[|steps|..]
  }

  lemma UnaidedStep(steps: seq<Step>, r: seq<Step>, a: Step)
    requires Unaided(steps, r) && a != ServerRepeats
    ensures Unaided(steps, r + [a])
  {
    assert (r + [a])[|steps|..] == r[|steps|..] + [a];
  }

  lemma UnaidedTrans(steps: seq<Step>, r: seq<Step>, t: seq<Step>)
    requires Unaided(steps, r) && Unaided(r, t)
    ensures Unaided(steps, t)
  {
    assert t[|steps|..] == r[|steps|..] + t[|r|..];
  }

  /** Everything under way can get lost. */
  lemma {:induction false} Drain(f: File, c: Client, steps: seq<Step>) returns (r: seq<Step>)
    requires Feasible(f, c, steps)
    ensures Unaided(steps, r) && Feasible(f, c, r)
    ensures RunSys(f, c, r) == RunSys(f, c, steps).(down := [], up := [])
    decreases |RunSys(f, c, steps).down| + |RunSys(f, c, steps).up|
  {
    hide Feasible, RunSys;
    var s := RunSys(f, c, steps);
    r := steps;
    if s.down != [] || s.up != [] {
      var a := if s.down != [] then LoseDown(0) else LoseUp(0);
      UnaidedStep(steps, steps, a);
      var next := Extend(f, c, steps, a);
      r := Drain(f, c, next);
      UnaidedTrans(steps, next, r);
    }
  }

  /** Block `k` stored, its acknowledgement the only datagram under way. */
  ghost predicate Quiet(f: File, s: Sys, k: nat) {
    && 0 < k <= |f.blocks| && |s.client.stored| == k
    && ClientOk(f, s.client) && s.client.mode == STATE_DATA
    && s.server == Sending(k) && s.down == []
    && s.up == [Mail(Ack(Number(k)), k)]
  }

  lemma QuietRound(f: File, s: Sys, k: nat)
    requires FileOk(f) && Quiet(f, s, k) && k < |f.blocks|
    ensures var t := Next(f, s, ServerReceives);
            t.down != [] && Quiet(f, Next(f, t, ClientReceives), k + 1)
  {
    var t := Next(f, s, ServerReceives);
    assert t == Sys(s.client, Sending(k + 1), [k + 1], []) by {
      assert s.up[1..] == [] && s.down + [k + 1] == [k + 1];
    }
    BlockArrives(f, t, k + 1);
  }

  /** Block `k` reaches a client that lacks it or has just stored it. */
  lemma BlockArrives(f: File, s: Sys, k: nat)
    requires FileOk(f) && Repeated(f, s) && s.server == Sending(k)
    ensures Quiet(f, Next(f, s, ClientReceives), k)
  {
    if k == |s.client.stored| {
      RepeatLast(f, s.client);
    } else {
      StoreNext(f, s.client);
    }
    var e := Handle(s.client, Datagram(f, k), f.port);
    assert e.sent == Some(Ack(Number(k))) && e.client.peer == f.port && e.client.mode == STATE_DATA;
  }

  lemma {:induction false} Finish(f: File, c: Client, steps: seq<Step>, k: nat) returns (r: seq<Step>)
    requires FileOk(f) && Feasible(f, c, steps) && Quiet(f, RunSys(f, c, steps), k)
    ensures Unaided(steps, r) && Feasible(f, c, r) && RunSys(f, c, r).client.finished
    decreases |f.blocks| - k
  {
    hide Feasible, RunSys, Next, Unaided;
    r := steps;
    UnaidedNone(steps);
    if k < |f.blocks| {
      QuietRound(f, RunSys(f, c, r), k);
      UnaidedStep(steps, r, ServerReceives);
      r := Extend(f, c, r, ServerReceives);
      UnaidedStep(steps, r, ClientReceives);
      r := Extend(f, c, r, ClientReceives);
      var whole := Finish(f, c, r, k + 1);
      UnaidedTrans(steps, r, whole);
      r := whole;
    }
  }

  lemma UnaidedNone(steps: seq<Step>)
    ensures Unaided(steps, steps)
  {
  }

  /** The server's datagram is the only one under way. */
  ghost predicate Repeated(f: File, s: Sys) {
    && ClientOk(f, s.client) && InStep(f, s.client, s.server) && !s.client.finished
    && !s.server.Idle? && s.down == Current(s.server) && s.up == []
  }

  lemma RepeatsAlone(f: File, s: Sys)
    requires Inv(f, s) && s.down == [] && s.up == [] && !s.server.Idle? && !s.client.finished
    ensures Repeated(f, Next(f, s, ServerRepeats))
  {
    hide ClientOk, InStep;
    assert [] + Current(s.server) == Current(s.server);
  }

  lemma FromBlock(f: File, c: Client, steps: seq<Step>, k: nat) returns (r: seq<Step>)
    requires FileOk(f) && Feasible(f, c, steps)
    requires Repeated(f, RunSys(f, c, steps)) && RunSys(f, c, steps).server == Sending(k)
    ensures Unaided(steps, r) && Feasible(f, c, r) && RunSys(f, c, r).client.finished
  {
    hide Feasible, RunSys, ClientOk, Next, Enabled, Unaided;
    BlockArrives(f, RunSys(f, c, steps), k);
    assert Enabled(f, RunSys(f, c, steps), ClientReceives) by { Receivable(f, RunSys(f, c, steps)); }
    UnaidedNone(steps);
    UnaidedStep(steps, steps, ClientReceives);
    var next := Extend(f, c, steps, ClientReceives);
    r := Finish(f, c, next, k);
    UnaidedTrans(steps, next, r);
  }

  lemma Receivable(f: File, s: Sys)
    ensures s.down != [] ==> Enabled(f, s, ClientReceives)
    ensures s.up != [] ==> Enabled(f, s, ServerReceives)
    ensures Enabled(f, s, ServerRepeats) && Enabled(f, s, TimerFires)
  {
  }

  lemma FromOptions(f: File, c: Client, steps: seq<Step>) returns (r: seq<Step>)
    requires FileOk(f) && Feasible(f, c, steps)
    requires Repeated(f, RunSys(f, c, steps)) && RunSys(f, c, steps).server == Options
    ensures Unaided(steps, r) && Feasible(f, c, r) && RunSys(f, c, r).client.finished
  {
    hide Feasible, RunSys, ClientOk, Next, Enabled, Unaided;
    OptionsArrive(f, RunSys(f, c, steps));
    Receivable(f, RunSys(f, c, steps));
    UnaidedNone(steps);
    UnaidedStep(steps, steps, ClientReceives);
    var next := Extend(f, c, steps, ClientReceives);
    Receivable(f, RunSys(f, c, next));
    UnaidedStep(steps, next, ServerReceives);
    next := Extend(f, c, next, ServerReceives);
    r := FromBlock(f, c, next, 1);
    UnaidedTrans(steps, next, r);
  }

  /** The server's datagram has just left and is alone: the rest needs nothing but delivery. */
  lemma FromAnswer(f: File, c: Client, steps: seq<Step>) returns (r: seq<Step>)
    requires FileOk(f) && Feasible(f, c, steps) && Repeated(f, RunSys(f, c, steps))
    ensures Unaided(steps, r) && Feasible(f, c, r) && RunSys(f, c, r).client.finished
  {
    hide Feasible, RunSys, Unaided, Repeated;
    RepeatedServer(f, RunSys(f, c, steps));
    match RunSys(f, c, steps).server {
      case Sending(n) => r := FromBlock(f, c, steps, n);
      case Options => r := FromOptions(f, c, steps);
    }
  }

  /** Once the server has answered, its repetition is enough to go on. */
  lemma ServerGoesOn(f: File, c: Client, steps: seq<Step>) returns (r: seq<Step>)
    requires FileOk(f) && Feasible(f, c, steps)
    requires !RunSys(f, c, steps).server.Idle? && !RunSys(f, c, steps).client.finished
    ensures steps <= r && Feasible(f, c, r) && RunSys(f, c, r).client.finished
  {
    hide Feasible, RunSys, Inv, Next, Enabled, Repeated;
    r := Drain(f, c, steps);
    RunKeepsInv(f, c, r);
    RepeatsAlone(f, RunSys(f, c, r));
    Receivable(f, RunSys(f, c, r));
    r := Extend(f, c, r, ServerRepeats);
    r := FromAnswer(f, c, r);
  }

  // ---------------------------------------------------------------- by the client alone

  /** The server has sent something the client has not taken yet. */
  ghost predicate Ahead(s: Sys) {
    Rank(s.server) == |s.client.stored| + 1 || s.client.mode == STATE_RRQ
  }

  /** The acknowledgement of the last block stored is under way. */
  ghost predicate AckUnderWay(s: Sys) {
    exists i | 0 <= i < |s.up| :: s.up[i].msg == Ack(Number(|s.client.stored|))
  }

  /** The timer is not used up, and what it sends reaches the server, at the latest after a
      datagram from port 69. */
  ghost predicate CanSpeak(f: File, c: Client) {
    c.timeouts < 10 && (f.port != 69 || c.peer == 69)
  }

  /** What is missing can come without the server repeating itself: the request; the datagram
      the server has sent, if it is still under way; or the acknowledgement, if it or anything
      that makes the client repeat it is, or the timer can. */
  ghost predicate Recoverable(f: File, s: Sys) {
    || s.client.finished
    || (if s.server.Idle? then s.up != [] || s.client.timeouts < 10
        else if Ahead(s) then Rank(s.server) as nat in s.down
        else s.down != [] || AckUnderWay(s) || CanSpeak(f, s.client))
  }

  /** Which of several datagrams to lose when `x` is to be kept. */
  function Spare<T(==)>(s: seq<T>, x: T): (j: nat)
    requires x in s && s != [x]
    ensures j < |s| && x in Without(s, j)
  {
    if s[0] != x || x in s[1..] then
      assert Without(s, 0) == s[1..];
      0
    else
      assert Without(s, |s| - 1)[0] == s[0];
      |s| - 1
  }

  lemma {:induction false} KeepDown(f: File, c: Client, steps: seq<Step>, x: nat) returns (r: seq<Step>)
    requires Feasible(f, c, steps) && x in RunSys(f, c, steps).down
    ensures Unaided(steps, r) && Feasible(f, c, r)
    ensures RunSys(f, c, r) == RunSys(f, c, steps).(down := [x])
    decreases |RunSys(f, c, steps).down|
  {
    hide Feasible, RunSys, Unaided;
    r := steps;
    UnaidedNone(steps);
    var down := RunSys(f, c, steps).down;
    if down != [x] {
      var a := LoseDown(Spare(down, x));
      UnaidedStep(steps, r, a);
      var next := Extend(f, c, steps, a);
      r := KeepDown(f, c, next, x);
      UnaidedTrans(steps, next, r);
    }
  }

  lemma {:induction false} KeepUp(f: File, c: Client, steps: seq<Step>, x: Mail) returns (r: seq<Step>)
    requires Feasible(f, c, steps) && x in RunSys(f, c, steps).up
    ensures Unaided(steps, r) && Feasible(f, c, r)
    ensures RunSys(f, c, r) == RunSys(f, c, steps).(up := [x])
    decreases |RunSys(f, c, steps).up|
  {
    hide Feasible, RunSys, Unaided;
    r := steps;
    UnaidedNone(steps);
    var up := RunSys(f, c, steps).up;
    if up != [x] {
      var a := LoseUp(Spare(up, x));
      UnaidedStep(steps, r, a);
      var next := Extend(f, c, steps, a);
      r := KeepUp(f, c, next, x);
      UnaidedTrans(steps, next, r);
    }
  }

  lemma {:induction false} LoseAllDown(f: File, c: Client, steps: seq<Step>) returns (r: seq<Step>)
    requires Feasible(f, c, steps)
    ensures Unaided(steps, r) && Feasible(f, c, r)
    ensures RunSys(f, c, r) == RunSys(f, c, steps).(down := [])
    decreases |RunSys(f, c, steps).down|
  {
    hide Feasible, RunSys, Unaided;
    r := steps;
    UnaidedNone(steps);
    if RunSys(f, c, steps).down != [] {
      UnaidedStep(steps, r, LoseDown(0));
      var next := Extend(f, c, steps, LoseDown(0));
      r := LoseAllDown(f, c, next);
      UnaidedTrans(steps, next, r);
    }
  }

  lemma {:induction false} LoseAllUp(f: File, c: Client, steps: seq<Step>) returns (r: seq<Step>)
    requires Feasible(f, c, steps)
    ensures Unaided(steps, r) && Feasible(f, c, r)
    ensures RunSys(f, c, r) == RunSys(f, c, steps).(up := [])
    decreases |RunSys(f, c, steps).up|
  {
    hide Feasible, RunSys, Unaided;
    r := steps;
    UnaidedNone(steps);
    if RunSys(f, c, steps).up != [] {
      UnaidedStep(steps, r, LoseUp(0));
      var next := Extend(f, c, steps, LoseUp(0));
      r := LoseAllUp(f, c, next);
      UnaidedTrans(steps, next, r);
    }
  }

  /** The datagram the client lacks is under way. */
  lemma FromUnderWay(f: File, c: Client, steps: seq<Step>) returns (r: seq<Step>)
    requires FileOk(f) && Feasible(f, c, steps)
    requires var s := RunSys(f, c, steps); !s.client.finished && !s.server.Idle? && Rank(s.server) as nat in s.down
    ensures Unaided(steps, r) && Feasible(f, c, r) && RunSys(f, c, r).client.finished
  {
    hide Feasible, RunSys, Unaided, Inv, Next;
    var a := KeepDown(f, c, steps, Rank(RunSys(f, c, steps).server) as nat);
    var b := LoseAllUp(f, c, a);
    UnaidedTrans(steps, a, b);
    RunKeepsInv(f, c, b);
    assert Repeated(f, RunSys(f, c, b)) by { AloneIsRepeated(f, RunSys(f, c, b)); }
    r := FromAnswer(f, c, b);
    UnaidedTrans(steps, b, r);
  }

  lemma AloneIsRepeated(f: File, s: Sys)
    requires Inv(f, s) && !s.server.Idle? && !s.client.finished && s.down == [Rank(s.server) as nat] && s.up == []
    ensures Repeated(f, s)
  {
  }

  /** The acknowledgement the server waits for is under way. */
  lemma FromAck(f: File, c: Client, steps: seq<Step>) returns (r: seq<Step>)
    requires FileOk(f) && Feasible(f, c, steps)
    requires var s := RunSys(f, c, steps); !s.client.finished && !s.server.Idle? && !Ahead(s) && AckUnderWay(s)
    ensures Unaided(steps, r) && Feasible(f, c, r) && RunSys(f, c, r).client.finished
  {
    hide Feasible, RunSys, Unaided, Inv, Next, Repeated, Quiet;
    var s := RunSys(f, c, steps);
    var i :| 0 <= i < |s.up| && s.up[i].msg == Ack(Number(|s.client.stored|));
    var a := KeepUp(f, c, steps, s.up[i]);
    var b := LoseAllDown(f, c, a);
    UnaidedTrans(steps, a, b);
    RunKeepsInv(f, c, b);
    AckArrives(f, RunSys(f, c, b));
    if RunSys(f, c, b).server.Sending? {
      r := Finish(f, c, b, |s.client.stored|);
      UnaidedTrans(steps, b, r);
    } else {
      UnaidedStep(steps, b, ServerReceives);
      var d := Extend(f, c, b, ServerReceives);
      r := FromAnswer(f, c, d);
      UnaidedTrans(steps, d, r);
    }
  }

  lemma AckArrives(f: File, s: Sys)
    requires FileOk(f) && Inv(f, s) && !s.client.finished && !s.server.Idle? && !Ahead(s) && s.down == []
    requires |s.up| == 1 && s.up[0].msg == Ack(Number(|s.client.stored|))
    ensures s.server.Sending? ==> Quiet(f, s, |s.client.stored|)
    ensures !s.server.Sending? ==> Repeated(f, Next(f, s, ServerReceives))
  {
    var m := |s.client.stored|;
    assert MailOk(s.client, s.up[0]);
    if s.server.Sending? {
      NumbersDiffer(m - 1);
      assert s.up[0].ord == m;
    } else {
      assert s.up[1..] == [];
    }
  }

  /** Something makes the client send the acknowledgement: a repeated datagram, or the timer,
      if need be behind a datagram from port 69. */
  lemma Reminded(f: File, c: Client, steps: seq<Step>) returns (r: seq<Step>)
    requires FileOk(f) && Feasible(f, c, steps)
    requires var s := RunSys(f, c, steps);
             !s.client.finished && !s.server.Idle? && !Ahead(s) && (s.down != [] || CanSpeak(f, s.client))
    ensures Unaided(steps, r) && Feasible(f, c, r)
    ensures var t := RunSys(f, c, r); !t.client.finished && !t.server.Idle? && !Ahead(t) && AckUnderWay(t)
  {
    hide Feasible, RunSys, Unaided, Inv, Next, Enabled, Ahead, AckUnderWay, CanSpeak;
    r := steps;
    UnaidedNone(steps);
    RunKeepsInv(f, c, r);
    var s := RunSys(f, c, r);
    if s.down != [] {
      Receivable(f, s);
      RemindedByServer(f, s);
      UnaidedStep(steps, r, ClientReceives);
      r := Extend(f, c, r, ClientReceives);
    } else {
      var hint := ForeignDatagram(Other, 69);
      RemindedByTimer(f, s);
      if !(s.client.peer == f.port || s.client.peer == 69) {
        UnaidedStep(steps, r, hint);
        r := Extend(f, c, r, hint);
      }
      Receivable(f, RunSys(f, c, r));
      UnaidedStep(steps, r, TimerFires);
      r := Extend(f, c, r, TimerFires);
    }
  }

  lemma RemindedByServer(f: File, s: Sys)
    requires FileOk(f) && Inv(f, s) && !s.client.finished && !s.server.Idle? && !Ahead(s) && s.down != []
    ensures var t := Next(f, s, ClientReceives);
            !t.client.finished && !t.server.Idle? && !Ahead(t) && AckUnderWay(t)
  {
    hide UpOk, ClientOk, MailOk;
    Answers(f, s);
    ClientStep(f, s);
    var t := Next(f, s, ClientReceives);
    assert s.down[0] <= Rank(s.server);
    assert t.client.stored == s.client.stored;
    StillUnfinished(f, s, t.client);
    assert t.up[|t.up| - 1].msg == Ack(Number(|t.client.stored|));
  }

  lemma StillUnfinished(f: File, s: Sys, d: Client)
    requires Inv(f, s) && ClientOk(f, d) && d.stored == s.client.stored && !s.client.finished
    ensures !d.finished
  {
  }

  lemma RemindedByTimer(f: File, s: Sys)
    requires FileOk(f) && Inv(f, s) && !s.client.finished && !s.server.Idle? && !Ahead(s) && CanSpeak(f, s.client)
    ensures var hint := ForeignDatagram(Other, 69);
            var spoken := s.client.peer == f.port || s.client.peer == 69;
            var u := if spoken then s else Next(f, s, hint);
            var t := Next(f, u, TimerFires);
            && (!spoken ==> Enabled(f, s, hint))
            && !t.client.finished && !t.server.Idle? && !Ahead(t) && AckUnderWay(t)
  {
    var hint := ForeignDatagram(Other, 69);
    var u := if s.client.peer == f.port || s.client.peer == 69 then s else Next(f, s, hint);
    var t := Next(f, u, TimerFires);
    assert t.up == s.up + [Mail(Ack(s.client.block), |s.client.stored|)];
    assert t.up[|t.up| - 1].msg == Ack(Number(|t.client.stored|));
  }

  lemma Recovers(f: File, c: Client, steps: seq<Step>) returns (r: seq<Step>)
    requires FileOk(f) && Feasible(f, c, steps) && Recoverable(f, RunSys(f, c, steps))
    ensures Unaided(steps, r) && Feasible(f, c, r) && RunSys(f, c, r).client.finished
  {
    hide Feasible, RunSys, Unaided, Ahead, AckUnderWay, CanSpeak;
    r := steps;
    UnaidedNone(steps);
    var s := RunSys(f, c, steps);
    if s.client.finished {
    } else if s.server.Idle? {
      r := FirstAnswer(f, c, steps);
      var rest := FromAnswer(f, c, r);
      UnaidedTrans(steps, r, rest);
      r := rest;
    } else if Ahead(s) {
      r := FromUnderWay(f, c, steps);
    } else {
      if !AckUnderWay(s) {
        r := Reminded(f, c, steps);
      }
      var rest := FromAck(f, c, r);
      UnaidedTrans(steps, r, rest);
      r := rest;
    }
  }

  /** The request reaches a server that has not answered yet. */
  lemma FirstAnswer(f: File, c: Client, steps: seq<Step>) returns (r: seq<Step>)
    requires FileOk(f) && Feasible(f, c, steps)
    requires var s := RunSys(f, c, steps);
             !s.client.finished && s.server.Idle? && (s.up != [] || s.client.timeouts < 10)
    ensures Unaided(steps, r) && Feasible(f, c, r) && Repeated(f, RunSys(f, c, r))
  {
    hide Feasible, RunSys, Unaided, Inv;
    r := steps;
    UnaidedNone(steps);
    RunKeepsIdle(f, c, r);
    if RunSys(f, c, r).up == [] {
      UnaidedStep(steps, r, TimerFires);
      r := Extend(f, c, r, TimerFires);
    }
    var s := RunSys(f, c, r);
    assert s.up[0].msg.ReadRequest?;
    UnaidedStep(steps, r, ServerReceives);
    r := Extend(f, c, r, ServerReceives);
    var quiet := LoseAllUp(f, c, r);
    UnaidedTrans(steps, r, quiet);
    r := quiet;
    RunKeepsInv(f, c, r);
    AloneIsRepeated(f, RunSys(f, c, r));
  }

  /** What cannot be recovered stays so unless the server repeats itself. */
  lemma LostStep(f: File, s: Sys, a: Step)
    requires FileOk(f) && Inv(f, s) && IdleOk(s) && Enabled(f, s, a) && a != ServerRepeats && !Recoverable(f, s)
    ensures !Recoverable(f, Next(f, s, a))
  {
    if s.server.Idle? {
      hide Handle;
    } else if Ahead(s) {
      LostData(f, s, a);
    } else {
      LostAck(f, s, a);
    }
  }

  lemma LostData(f: File, s: Sys, a: Step)
    requires FileOk(f) && Inv(f, s) && Enabled(f, s, a) && a != ServerRepeats && !s.client.finished
    requires !s.server.Idle? && Ahead(s) && Rank(s.server) as nat !in s.down
    ensures var t := Next(f, s, a);
            !t.client.finished && !t.server.Idle? && Ahead(t) && Rank(t.server) as nat !in t.down
  {
    var t := Next(f, s, a);
    match a
    case ClientReceives =>
      Answers(f, s);
      ClientStep(f, s);
      assert s.down[0] in s.down;
    case ServerReceives =>
      assert MailOk(s.client, s.up[0]);
      NumbersDiffer(|s.client.stored|);
    case ForeignDatagram(p, port) => ForeignStep(f, s.client, p, port);
    case _ =>
  }

  lemma LostAck(f: File, s: Sys, a: Step)
    requires FileOk(f) && Inv(f, s) && Enabled(f, s, a) && a != ServerRepeats && !s.client.finished
    requires !s.server.Idle? && !Ahead(s) && s.down == [] && !AckUnderWay(s) && !CanSpeak(f, s.client)
    ensures var t := Next(f, s, a);
            && !t.client.finished && !t.server.Idle? && !Ahead(t) && t.down == []
            && !AckUnderWay(t) && !CanSpeak(f, t.client)
  {
    var t := Next(f, s, a);
    if a.ForeignDatagram? {
      ForeignStep(f, s.client, a.p, a.port);
    } else if a.TimerFires? || a.ServerReceives? || a.LoseUp? || a.DuplicateUp? {
      assert forall i | 0 <= i < |t.up| :: t.up[i] in s.up;
    }
  }

  lemma {:induction false} StaysLost(f: File, c: Client, steps: seq<Step>, r: seq<Step>)
    requires FileOk(f) && Feasible(f, c, steps) && !Recoverable(f, RunSys(f, c, steps))
    requires Unaided(steps, r) && Feasible(f, c, r)
    ensures !Recoverable(f, RunSys(f, c, r))
    decreases |r|
  {
    hide Recoverable, Next, Enabled, Inv, IdleOk;
    if |r| > |steps| {
      var prev := r[..|r| - 1];
      assert r[|steps|..] == prev[|steps|..] + [r[|r| - 1]];
      StaysLost(f, c, steps, prev);
      RunKeepsInv(f, c, prev);
      RunKeepsIdle(f, c, prev);
      LostStep(f, RunSys(f, c, prev), r[|r| - 1]);
    } else {
      assert r == steps;
    }
  }

  /** Without the server repeating itself, the client's own retransmissions complete the
      download from a reachable state if and only if what is missing there can still come. */
  lemma UnaidedExactly(f: File, c: Client, steps: seq<Step>)
    requires FileOk(f) && Feasible(f, c, steps)
    ensures (exists r :: Unaided(steps, r) && Feasible(f, c, r) && RunSys(f, c, r).client.finished) <==>
            Recoverable(f, RunSys(f, c, steps))
  {
    hide Feasible, RunSys, Unaided;
    if Recoverable(f, RunSys(f, c, steps)) {
      var r := Recovers(f, c, steps);
    }
    forall r | Unaided(steps, r) && Feasible(f, c, r) && !Recoverable(f, RunSys(f, c, steps))
      ensures !RunSys(f, c, r).client.finished
    {
      StaysLost(f, c, steps, r);
    }
  }

  lemma RepeatedServer(f: File, s: Sys)
    requires Repeated(f, s)
    ensures !s.server.Idle?
  {
  }

  lemma OptionsArrive(f: File, s: Sys)
    requires FileOk(f) && Repeated(f, s) && s.server == Options
    ensures var t := Next(f, s, ClientReceives);
            var u := Next(f, t, ServerReceives);
            t.up != [] && Repeated(f, u) && u.server == Sending(1)
  {
    LatchOptions(f, s.client);
    var e := Handle(s.client, Datagram(f, 0), f.port);
    assert e.sent == Some(Ack(0)) && e.client.mode == STATE_OACK && e.client.peer == f.port;
    var t := Next(f, s, ClientReceives);
    assert t.up == [Mail(Ack(0), 0)] && t.down == [];
    assert t.up[1..] == [];
  }

  // ---------------------------------------------------------------- exactly when

  /** The server has answered, or a request is under way, or the timer can still send one. */
  ghost predicate Live(s: Sys) {
    s.client.finished || !s.server.Idle? || s.up != [] || s.client.timeouts < TIMEOUT_COUNT
  }

  lemma Resume(f: File, c: Client, steps: seq<Step>) returns (r: seq<Step>)
    requires FileOk(f) && Feasible(f, c, steps) && Live(RunSys(f, c, steps))
    ensures steps <= r && Feasible(f, c, r) && RunSys(f, c, r).client.finished
  {
    hide Feasible, RunSys, ClientOk, UpOk, DownOk;
    r := steps;
    if RunSys(f, c, r).client.finished {
      return;
    }
    RunKeepsIdle(f, c, r);
    RunKeepsInv(f, c, r);
    if RunSys(f, c, r).server.Idle? && RunSys(f, c, r).up == [] {
      r := Extend(f, c, r, TimerFires);
    }
    var s := RunSys(f, c, r);
    if s.server.Idle? {
      assert s.up[0].msg.ReadRequest?;
      r := Extend(f, c, r, ServerReceives);
    }
    r := ServerGoesOn(f, c, r);
  }

  /** Nothing under way, no answer yet and the timer used up: nothing moves any more. */
  lemma {:induction false} Stuck(f: File, c: Client, steps: seq<Step>, r: seq<Step>)
    requires Feasible(f, c, steps) && !Live(RunSys(f, c, steps)) && steps <= r && Feasible(f, c, r)
    ensures !Live(RunSys(f, c, r))
    decreases |r|
  {
    if |r| > |steps| {
      var prev := r[..|r| - 1];
      Stuck(f, c, steps, prev);
      RunKeepsIdle(f, c, prev);
      StuckStep(f, RunSys(f, c, prev), r[|r| - 1]);
    } else {
      assert r == steps;
    }
  }

  lemma StuckStep(f: File, s: Sys, a: Step)
    requires !Live(s) && IdleOk(s) && Enabled(f, s, a)
    ensures !Live(Next(f, s, a))
  {
    hide Handle;
  }

  /** From every reachable state the download can be completed if and only if it is live:
      as the timer's count is never reset, a client that has lost its first ten requests
      stays silent for good, and that is the only way to get stuck. */
  lemma CompletableExactly(f: File, c: Client, steps: seq<Step>)
    requires FileOk(f) && Feasible(f, c, steps)
    ensures (exists r :: steps <= r && Feasible(f, c, r) && RunSys(f, c, r).client.finished) <==>
            Live(RunSys(f, c, steps))
  {
    hide Feasible, RunSys;
    if Live(RunSys(f, c, steps)) {
      var r := Resume(f, c, steps);
    }
    forall r | steps <= r && Feasible(f, c, r) && !Live(RunSys(f, c, steps))
      ensures !RunSys(f, c, r).client.finished
    {
      Stuck(f, c, steps, r);
    }
  }

  /** In particular every file of every length can be downloaded. */
  lemma CanComplete(f: File, c: Client)
    requires FileOk(f)
    ensures exists steps :: Feasible(f, c, steps) && RunSys(f, c, steps).client.finished
  {
    CompletableExactly(f, c, []);
    var r :| [] <= r && Feasible(f, c, r) && RunSys(f, c, r).client.finished;
  }

  /** A run that loses its first ten requests, and the download with them. */
  lemma {:induction false} LostRequests(f: File, c: Client, k: nat) returns (steps: seq<Step>)
    requires k <= TIMEOUT_COUNT
    ensures Feasible(f, c, steps) && |steps| == 2 * k
    ensures RunSys(f, c, steps) == Boot(c).(client := Start(c).(timeouts := k))
    ensures k == TIMEOUT_COUNT ==> !Live(RunSys(f, c, steps))
    decreases k
  {
    hide Feasible, RunSys;
    if k == 0 {
      steps := [];
      assert Feasible(f, c, []) && RunSys(f, c, []) == Boot(c) by { NoSteps(f, c); }
    } else {
      steps := LostRequests(f, c, k - 1);
      steps := Extend(f, c, steps, TimerFires);
      steps := Extend(f, c, steps, LoseUp(0));
    }
  }

  /** A package whose last packet is full, sent in blocks of its size, ends in an empty
      block, and the download hands that to store_block. */
  lemma FullLastPacketHandsOverNothing(f: File, c: Client) returns (steps: seq<Step>)
    requires FileOk(f) && f.blocks[|f.blocks| - 1] == []
    ensures Feasible(f, c, steps) && RunSys(f, c, steps).client.finished
    ensures var stored := RunSys(f, c, steps).client.stored; stored != [] && stored[|stored| - 1].payload == []
  {
    hide Feasible, RunSys;
    CanComplete(f, c);
    steps :| Feasible(f, c, steps) && RunSys(f, c, steps).client.finished;
    RunKeepsInv(f, c, steps);
  }

  lemma NoSteps(f: File, c: Client)
    ensures Feasible(f, c, []) && RunSys(f, c, []) == Boot(c)
  {
  }
}
