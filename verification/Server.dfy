/** Liveness and memory of the server: when it hangs, when it can go on, and what main frees. */
module Server {
  import opened Bytes
  import opened Lines
  import opened DeviceLog
  import opened Protocol
  import opened Sessions

  // ------------------------------------------------------------- hanging

  predicate OwnerAt(s: System, pc: Pc) {
    s.owner.Some? && At(s, s.owner.value, pc)
  }

  /** The owner's first read of the device waits for the lock that its own seek has left held. */
  predicate Hung(s: System) {
    OwnerAt(s, Replying) && s.dev.locked
  }

  /** The owner is in a write that the driver does not survive. What the kernel makes of that thread is
      not modelled: it has no further step. */
  predicate Faulted(s: System) {
    OwnerAt(s, Faulting)
  }

  predicate Stuck(s: System) {
    Hung(s) || Faulted(s)
  }

  lemma StuckStep(s: System, a: Action)
    requires Inv(s) && Stuck(s) && Enabled(s, a)
    ensures ThreadOf(a) != s.owner
    ensures var r := Next(s, a);
            && (Hung(r) <==> Hung(s)) && (Faulted(r) <==> Faulted(s))
            && r.dev == s.dev && r.owner == s.owner && r.order == s.order
            && |s.threads| <= |r.threads| && forall t | 0 <= t < |s.threads| :: r.threads[t].reply == s.threads[t].reply
  {
    hide Tracked, RequestOf, LineOf, Effect, StartPos, AfterPiece;
    var o := s.owner.value;
    assert forall t: nat | t < |s.threads| && t != o :: !InSection(s.threads[t].pc);
  }

  /** Once stuck, the server never serves again: whatever happens, the device, the lock and every reply
      stay as they are. */
  lemma {:induction false} StuckForever(s: System, actions: seq<Action>, r: System)
    requires Inv(s) && Stuck(s) && Runs(s, actions, r)
    ensures (Hung(r) <==> Hung(s)) && (Faulted(r) <==> Faulted(s))
    ensures r.dev == s.dev && r.owner == s.owner && r.order == s.order
    ensures |s.threads| <= |r.threads| && forall t | 0 <= t < |s.threads| :: r.threads[t].reply == s.threads[t].reply
    decreases |actions|
  {
    hide Inv, Hung, Faulted, Next, Enabled;
    if actions != [] {
      StuckStep(s, actions[0]);
      InvPreserved(s, actions[0]);
      StuckForever(Next(s, actions[0]), actions[1..], r);
    }
  }

  /** While the lock is owned, the sessions before the owner's have left the device lock free. */
  lemma EarlierUnlocked(s: System)
    requires Inv(s) && s.owner.Some?
    ensures s.order != [] && InRange(s.order[..|s.order| - 1], |s.clients|)
    ensures !Serial(Served(s.clients, s.order[..|s.order| - 1])).locked
  {
    hide Serial, Served, RequestOf, ReplyAfter, Effect, Contents, Completes, LineOf;
    OthersOutside(s, s.owner.value);
    var n := |s.order| - 1;
    if n > 0 {
      BeforeLastCompletes(s);
      ServedSnoc(s.clients, s.order[..n]);
      assert s.order[..n][..n - 1] == s.order[..n - 1];
      CompletesExactly(Served(s.clients, s.order[..n - 1]), s.clients[s.order[n - 1]]);
    } else {
      assert Served(s.clients, s.order[..0]) == [];
      SerialNone();
    }
  }

  lemma SerialNone()
    ensures Serial([]) == FRESH_DEV
  {
  }

  lemma BeforeLastCompletes(s: System)
    requires Inv(s) && s.owner.Some? && |s.order| > 1
    ensures var n := |s.order| - 1;
            && s.order[n - 1] < |s.clients| && InRange(s.order[..n - 1], |s.clients|)
            && Completes(Served(s.clients, s.order[..n - 1]), s.clients[s.order[n - 1]])
  {
    hide Serial, Served, RequestOf, ReplyAfter, Effect, Contents, Completes, LineOf;
    OthersOutside(s, s.owner.value);
    ReplyAt(s, |s.order| - 2);
    hide Inv;
  }

  lemma ServedSnoc(clients: seq<Client>, ids: seq<nat>)
    requires ids != [] && InRange(ids, |clients|)
    ensures Served(clients, ids) == Served(clients, ids[..|ids| - 1]) + [clients[ids[|ids| - 1]]]
  {
  }

  /** A server hangs, or faults, exactly on a session that is past its seek, or write, and whose request
      blocks on what the sessions before it left: a seek to a byte past the command in that slot or to
      the first unfilled slot, or an empty C string with nothing pending. */
  lemma WhyStuck(actions: seq<Action>, r: System)
    requires Runs(START, actions, r) && r.owner.Some?
    ensures r.order != [] && r.owner.value == r.order[|r.order| - 1] < |r.clients| == |r.threads|
    ensures InRange(r.order[..|r.order| - 1], |r.clients|)
    ensures var l := Serial(Served(r.clients, r.order[..|r.order| - 1])).log;
            var q, begun := RequestOf(r.clients[r.owner.value]), r.threads[r.owner.value].pc != Opened;
            && (Hung(r) <==> begun && q.SeekTo? && KeepsLock(l, q.cmd, q.off))
            && (Faulted(r) <==> begun && q.Append? && q.text == [] && l.pending == [])
  {
    StartInv();
    InvAlways(START, actions, r);
    var t := r.owner.value;
    OthersOutside(r, t);
    OwnerFacts(r, t);
    EarlierUnlocked(r);
    var d := Serial(Served(r.clients, r.order[..|r.order| - 1]));
    EffectBlocks(d, RequestOf(r.clients[t]), r.clients[t].after);
    hide Serial, Served, RequestOf, Effect, ReplyAfter, Runs, KeepsLock;
  }

  /** A session that gets stuck has sent nothing, which is also what it sends in the serial run. */
  lemma StuckSendsNothing(actions: seq<Action>, r: System)
    requires Runs(START, actions, r) && Stuck(r)
    ensures r.order != [] && r.owner.value == r.order[|r.order| - 1] < |r.clients|
    ensures InRange(r.order[..|r.order| - 1], |r.clients|)
    ensures var earlier, c := Served(r.clients, r.order[..|r.order| - 1]), r.clients[r.owner.value];
            r.threads[r.owner.value].reply == ReplyAfter(earlier, c) == [] && !Completes(earlier, c)
  {
    StartInv();
    InvAlways(START, actions, r);
    var t := r.owner.value;
    OthersOutside(r, t);
    OwnerFacts(r, t);
    hide Inv, Serial, Served, RequestOf, Effect, Runs, Echo, ReadBack;
  }

  /** The step a thread is at. */
  function StepOf(s: System, t: nat): Action
    requires t < |s.threads| && t < |s.clients| && s.threads[t].pc != Ended
  {
    match s.threads[t].pc
    case Receiving => Receive(t)
    case Waiting => Lock(t)
    case Opened => if RequestOf(s.clients[t]).Append? then WriteLine(t) else SeekCommand(t)
    case Faulting => WriteLine(t)
    case Rewinding => Rewind(t)
    case Replying => ReadPiece(t)
    case Closing => Unlock(t)
    case Released => MarkSuccess(t)
    case Finishing => MarkComplete(t)
    case Returning => Return(t)
  }

  lemma OwnerMoves(s: System, t: nat)
    requires Inv(s) && s.owner == Some(t)
    ensures t < |s.threads| && t < |s.clients| && InSection(s.threads[t].pc)
    ensures Enabled(s, StepOf(s, t)) <==> !Stuck(s)
  {
    hide Tracked, RepliesOk, Serial, Served, ReplyAfter, LineOf, Contents;
    OthersOutside(s, t);
    OwnerFacts(s, t);
    hide Shaped, LockHeld;
  }

  /** No deadlock but the two known ones: in every reachable state with a thread that has not ended,
      some thread can take its next step, unless the server is stuck; and then its owner cannot. */
  lemma DeadlockFree(s: System, t: nat) returns (u: nat)
    requires Inv(s) && t < |s.threads| && s.threads[t].pc != Ended
    ensures u < |s.threads| && u < |s.clients| && s.threads[u].pc != Ended
    ensures Stuck(s) ==> s.owner == Some(u)
    ensures Enabled(s, StepOf(s, u)) <==> !Stuck(s)
  {
    hide Inv, Enabled, StepOf;
    u := if s.owner.Some? then s.owner.value else t;
    if s.owner.Some? {
      OwnerMoves(s, u);
    }
    ThreadMoves(s, u);
  }

  /** A thread that has not ended can take its next step exactly when it is not waiting for a lock that
      another one owns and is not itself the owner of a stuck server. */
  lemma ThreadMoves(s: System, t: nat)
    requires Inv(s) && t < |s.threads| && s.threads[t].pc != Ended
    ensures t < |s.clients|
    ensures Enabled(s, StepOf(s, t))
       <==> !(s.threads[t].pc == Waiting && s.owner.Some?) && !(Stuck(s) && s.owner == Some(t))
  {
    if s.owner == Some(t) {
      OwnerMoves(s, t);
      hide Inv, Enabled;
      assert InSection(s.threads[t].pc);
    } else {
      OutsideMoves(s, t);
    }
  }

  lemma OutsideMoves(s: System, t: nat)
    requires Inv(s) && s.owner != Some(t) && t < |s.threads| && s.threads[t].pc != Ended
    ensures t < |s.clients| && (Enabled(s, StepOf(s, t)) <==> !(s.threads[t].pc == Waiting && s.owner.Some?))
  {
    hide Tracked, Placed, NoLine, LineOf, RequestOf, Effect;
    assert !InSection(s.threads[t].pc);
  }

  /** A seek session leaves the server hung exactly when its target is a byte past the command in that
      slot or the first unfilled slot, and a write faults exactly when it is empty with nothing pending. */
  lemma SeekHangs(s: System, t: nat, a: Action)
    requires Inv(s) && Enabled(s, a) && (a == SeekCommand(t) || a == WriteLine(t))
    ensures var q, r := RequestOf(s.clients[t]), Next(s, a);
            && (Hung(r) <==> q.SeekTo? && KeepsLock(s.dev.log, q.cmd, q.off))
            && (Faulted(r) <==> q.Append? && q.text == [] && s.dev.log.pending == [])
  {
    hide Tracked, LineOf, StartPos, KeepsLock, SeekShipped, RequestOf;
    EffectBlocks(s.dev, RequestOf(s.clients[t]), s.clients[t].after);
  }

  /** One seek to a command that was never written hangs a fresh server. */
  lemma HangExample() returns (c: Client, r: System)
    ensures c == Client(SEEK_TAG + [58, 48, 44, 48, NEWLINE], 0, false)
    ensures Runs(START, [Accept(c), Receive(0), Lock(0), SeekCommand(0)], r) && Hung(r)
  {
    var input := SEEK_TAG + [58, 48, 44, 48, NEWLINE];
    c := Client(input, 0, false);
    CutLine(input, []);
    assert input + [] == input;
    assert input[..|SEEK_TAG|] == SEEK_TAG;
    assert RequestOf(c) == SeekTo(0, 0);
    LockLeakExactly(EMPTY_LOG, 0, 0);
    r := TakeEffect(c, SeekCommand(0));
  }

  /** One line that starts with a NUL makes the driver fault in a fresh server. */
  lemma FaultExample() returns (c: Client, r: System)
    ensures c == Client([NUL, NEWLINE], 0, false)
    ensures Runs(START, [Accept(c), Receive(0), Lock(0), WriteLine(0)], r) && Faulted(r)
  {
    c := Client([NUL, NEWLINE], 0, false);
    assert RequestOf(c) == Append([]);
    r := TakeEffect(c, WriteLine(0));
  }

  /** The first client arrives and its line, if any, is received. */
  lemma Arrive(c: Client) returns (r: System)
    ensures Runs(START, [Accept(c), Receive(0)], r)
    ensures var th := STARTED.(pc := if NoLine(c) then Finishing else Waiting);
            r == START.(clients := [c], threads := [th], main := Scanning(0), list := [0], added := 1)
  {
    hide NoLine;
    var s1 := Next(START, Accept(c));
    r := Next(s1, Receive(0));
    assert s1.threads[0 := r.threads[0]] == r.threads;
    RunsSnoc(START, [], START, Accept(c));
    RunsSnoc(START, [] + [Accept(c)], s1, Receive(0));
    assert [] + [Accept(c)] + [Receive(0)] == [Accept(c), Receive(0)];
  }

  /** Then it takes the lock and writes or seeks. */
  lemma TakeEffect(c: Client, a: Action) returns (r: System)
    requires !NoLine(c) && a == if RequestOf(c).Append? then WriteLine(0) else SeekCommand(0)
    ensures Runs(START, [Accept(c), Receive(0), Lock(0), a], r)
    ensures r.owner == Some(0) && |r.threads| == |r.clients| == 1 && r.dev == Effect(FRESH_DEV, RequestOf(c), c.after)
    ensures r.threads[0].pc == if a.SeekCommand? then Replying else if r.dev.locked then Faulting else Rewinding
  {
    hide RequestOf, Effect, StartPos, NoLine;
    var s2 := Arrive(c);
    var s3 := Next(s2, Lock(0));
    r := Next(s3, a);
    hide Runs;
    RunsSnoc(START, [Accept(c), Receive(0)], s2, Lock(0));
    RunsSnoc(START, [Accept(c), Receive(0)] + [Lock(0)], s3, a);
    assert [Accept(c), Receive(0)] + [Lock(0)] + [a] == [Accept(c), Receive(0), Lock(0), a];
  }

  /** A run goes on with a step that is enabled where it ends. */
  lemma {:induction false} RunsSnoc(s: System, actions: seq<Action>, r: System, a: Action)
    requires Runs(s, actions, r) && Enabled(r, a)
    ensures Runs(s, actions + [a], Next(r, a))
    decreases |actions|
  {
    hide Enabled, Next;
    if actions == [] {
      assert [a][1..] == [];
      assert Runs(Next(r, a), [], Next(r, a));
      assert actions + [a] == [a];
    } else {
      assert (actions + [a])[1..] == actions[1..] + [a];
      RunsSnoc(Next(s, actions[0]), actions[1..], r, a);
    }
  }

  // ------------------------------------------------------------- the registry

  /** Every record is either listed once or freed, and a freed one belongs to a thread that ended. */
  ghost predicate Registered(s: System) {
    && (forall i, j | 0 <= i < j < |s.list| :: s.list[i] != s.list[j])
    && (forall i | 0 <= i < |s.list| :: s.list[i] < |s.threads|)
    && (forall t: nat | t < |s.threads| :: t in s.list <==> t !in s.freed)
    && (forall t: nat | t in s.freed :: Finished(s, t))
    && s.added == |s.threads| == |s.list| + s.removed
    && |s.freed| == s.removed
    && (s.main.Scanning? ==> s.main.at <= |s.list|)
    && (s.main.Joining? ==> s.main.at < |s.list|)
    && (s.main.Advancing? ==> s.main.at <= |s.list| && s.main.rec in s.freed)
    && (s.main.Exited? ==> s.list == [])
  }

  lemma FreeKeeps(s: System, i: nat, next: MainPc)
    requires Registered(s) && i < |s.list| && Finished(s, s.list[i])
    requires !next.Scanning? && !next.Joining? && !next.Exited?
    requires next.Advancing? ==> next.rec == s.list[i] && next.at == i
    ensures Registered(Free(s, i, next))
  {
    hide Remove;
    RemoveFacts(s.list, i);
    assert s.list[i] in s.list;
  }

  lemma RemoveFacts(list: seq<nat>, i: nat)
    requires i < |list|
    requires forall j, k | 0 <= j < k < |list| :: list[j] != list[k]
    ensures var r := Remove(list, i);
            && |r| == |list| - 1
            && (forall j, k | 0 <= j < k < |r| :: r[j] != r[k])
            && (forall t :: t in r <==> t in list && t != list[i])
            && (forall k | 0 <= k < |r| :: r[k] in list)
  {
    var r := Remove(list, i);
    assert forall k | 0 <= k < |r| :: r[k] == list[if k < i then k else k + 1];
    assert forall k | 0 <= k < |list| && k != i :: list[k] == r[if k < i then k else k - 1];
  }

  lemma RegisterKeeps(s: System, c: Client)
    requires Registered(s) && Enabled(s, Accept(c))
    ensures Registered(Next(s, Accept(c)))
  {
    var r := Next(s, Accept(c));
    assert r.list[1..] == s.list;
    assert forall k | 1 <= k < |r.list| :: r.list[k] == s.list[k - 1];
    assert forall t: nat | t < |r.threads| :: t in r.list <==> t == |s.threads| || t in s.list;
    assert |s.threads| !in s.freed;
  }

  /** A step of a thread leaves the registry, main and the other threads where they are. */
  lemma ThreadLeavesMain(s: System, a: Action)
    requires Enabled(s, a) && ThreadOf(a).Some?
    ensures var r, t := Next(s, a), ThreadOf(a).value;
            && t < |s.threads| && s.threads[t].pc != Ended && r.threads == s.threads[t := r.threads[t]]
            && r == s.(dev := r.dev, owner := r.owner, order := r.order, threads := r.threads)
  {
    hide LineOf, NoLine, RequestOf, Effect, StartPos, AfterPiece, Contents;
  }

  lemma ThreadKeeps(s: System, a: Action)
    requires Registered(s) && Enabled(s, a) && ThreadOf(a).Some?
    ensures Registered(Next(s, a))
  {
    ThreadLeavesMain(s, a);
    hide Next, Enabled;
    assert !Finished(s, ThreadOf(a).value);
  }

  lemma RegisteredPreserved(s: System, a: Action)
    requires Registered(s) && Enabled(s, a)
    ensures Registered(Next(s, a))
  {
    match a
    case Accept(c) => RegisterKeeps(s, c);
    case Reap => FreeKeeps(s, s.main.at, Advancing(s.list[s.main.at], s.main.at));
    case Unwind => FreeKeeps(s, 0, Unwinding);
    case _ =>
      if ThreadOf(a).Some? {
        ThreadKeeps(s, a);
      }
  }

  lemma {:induction false} RegisteredAlways(s: System, actions: seq<Action>, r: System)
    requires Registered(s) && Runs(s, actions, r)
    ensures Registered(r)
    decreases |actions|
  {
    hide Registered, Next, Enabled;
    if actions != [] {
      RegisteredPreserved(s, actions[0]);
      RegisteredAlways(Next(s, actions[0]), actions[1..], r);
    }
  }

  /** The records a step reads or writes. A removal walks the list up to the record it unlinks. */
  function Touches(s: System, a: Action): set<nat>
    requires Enabled(s, a)
  {
    match a
    case Accept(_) => {|s.threads|}
    case Look => if s.main.at < |s.list| then {s.list[s.main.at]} else {}
    case Reap => set i | 0 <= i <= s.main.at :: s.list[i]
    case Advance => {s.main.rec}
    case Stop => {}
    case Unwind => {s.list[0]}
    case Quit => {}
    case _ => {ThreadOf(a).value}
  }

  predicate TouchesFreed(s: System, a: Action)
    requires Enabled(s, a)
  {
    !(Touches(s, a) !! s.freed)
  }

  /** In every interleaving the counts balance, a record is freed once and only after its thread has
      ended, and when main exits every record has been freed. A step touches a freed record if and
      only if it is main's step from the record it has just freed to the next one. */
  lemma ReapingExactly(actions: seq<Action>, r: System, a: Action)
    requires Runs(START, actions, r) && Enabled(r, a)
    ensures r.added == r.removed + |r.list| && |r.freed| == r.removed
    ensures forall t: nat | t in r.freed :: Finished(r, t)
    ensures TouchesFreed(r, a) <==> a.Advance?
    ensures Next(r, a).freed <= r.freed + Touches(r, a)
    ensures a.Reap? ==> r.list[r.main.at] !in r.freed && Finished(r, r.list[r.main.at])
    ensures a.Unwind? ==> r.list[0] !in r.freed && Finished(r, r.list[0])
    ensures a.Quit? ==> forall t: nat | t < |r.threads| :: t in r.freed && Finished(r, t)
  {
    hide Runs;
    RegisteredAlways(START, actions, r);
    TouchesRegistered(r, a);
    FreesTouched(r, a);
    hide LineOf, RequestOf, TouchesFreed, Touches, Next;
  }

  lemma FreesTouched(s: System, a: Action)
    requires Registered(s) && Enabled(s, a)
    ensures Next(s, a).freed <= s.freed + Touches(s, a)
  {
    if ThreadOf(a).Some? {
      ThreadLeavesMain(s, a);
      hide Next, Enabled;
    } else if !a.Accept? {
      MainNext(s, a);
      hide Next, Enabled;
    }
  }

  lemma TouchesRegistered(s: System, a: Action)
    requires Registered(s) && Enabled(s, a)
    ensures TouchesFreed(s, a) <==> a.Advance?
  {
    hide LineOf, RequestOf;
    assert forall i | 0 <= i < |s.list| :: s.list[i] in s.list;
    assert |s.threads| !in s.freed;
    if ThreadOf(a).Some? {
      assert !Finished(s, ThreadOf(a).value);
    }
  }

  /** The record main looks at belongs to a session that has set one of its flags. */
  predicate Flagged(s: System) {
    && s.main.Scanning? && s.main.at < |s.list| && s.list[s.main.at] < |s.threads|
    && var th := s.threads[s.list[s.main.at]]; th.success || th.complete
  }

  /** How many steps of a run satisfy the test. */
  function Count(s: System, actions: seq<Action>, test: (System, Action) -> bool): nat
    decreases |actions|
  {
    if actions == [] || !Enabled(s, actions[0]) then 0
    else (if test(s, actions[0]) then 1 else 0) + Count(Next(s, actions[0]), actions[1..], test)
  }

  function FlaggedLooks(s: System, actions: seq<Action>): nat {
    Count(s, actions, (s: System, a: Action) => a.Look? && Flagged(s))
  }

  function FreedTouches(s: System, actions: seq<Action>): nat {
    Count(s, actions, (s: System, a: Action) => Enabled(s, a) && TouchesFreed(s, a))
  }

  /** Main has looked at a flagged record and not yet gone on from it. */
  function Pending(s: System): nat {
    if s.main.Joining? || s.main.Advancing? then 1 else 0
  }

  /** A run reads freed memory exactly once for every look at a record whose session has set a flag, as
      soon as main has gone on from that record: it is free of such reads if and only if no look that
      main has gone on from found a flag. */
  lemma FreedTouchesExactly(actions: seq<Action>, r: System)
    requires Runs(START, actions, r)
    ensures FreedTouches(START, actions) + Pending(r) == FlaggedLooks(START, actions)
  {
    TouchesCounted(START, actions, r);
  }

  lemma {:induction false} TouchesCounted(s: System, actions: seq<Action>, r: System)
    requires Registered(s) && Runs(s, actions, r)
    ensures FreedTouches(s, actions) + Pending(r) == FlaggedLooks(s, actions) + Pending(s)
    decreases |actions|
  {
    if actions != [] {
      var a := actions[0];
      TouchesRegistered(s, a);
      PendingStep(s, a);
      RegisteredPreserved(s, a);
      hide Registered, Next, Enabled, TouchesFreed, Pending;
      TouchesCounted(Next(s, a), actions[1..], r);
    }
  }

  lemma PendingStep(s: System, a: Action)
    requires Registered(s) && Enabled(s, a)
    ensures Pending(Next(s, a)) + (if a.Advance? then 1 else 0)
         == Pending(s) + (if a.Look? && Flagged(s) then 1 else 0)
  {
    hide LineOf, RequestOf, Effect, StartPos, AfterPiece;
  }

  /** One client that closes without sending a line is enough to have main read a freed record. */
  lemma FreedReadExample() returns (c: Client, r: System)
    ensures c == Client([], 0, false)
    ensures Runs(START, [Accept(c), Receive(0), MarkComplete(0), Return(0), Look, Reap], r)
    ensures Enabled(r, Advance) && TouchesFreed(r, Advance)
  {
    c := Client([], 0, false);
    var s3 := EmptySession(c);
    r := ReapEnded(s3);
    var begun := [Accept(c), Receive(0), MarkComplete(0)];
    hide *;
    RunsThree(START, begun, s3, Return(0), Look, Reap);
    assert begun + [Return(0), Look, Reap] == [Accept(c), Receive(0), MarkComplete(0), Return(0), Look, Reap];
  }

  lemma RunsThree(s: System, actions: seq<Action>, m: System, a: Action, b: Action, c: Action)
    requires Runs(s, actions, m) && Enabled(m, a) && Enabled(Next(m, a), b) && Enabled(Next(Next(m, a), b), c)
    ensures Runs(s, actions + [a, b, c], Next(Next(Next(m, a), b), c))
  {
    hide *;
    RunsSnoc(s, actions, m, a);
    RunsSnoc(s, actions + [a], Next(m, a), b);
    RunsSnoc(s, actions + [a] + [b], Next(Next(m, a), b), c);
    assert actions + [a] + [b] + [c] == actions + [a, b, c];
  }

  lemma ReapEnded(s: System) returns (r: System)
    requires s.threads == [STARTED.(pc := Returning, complete := true)] && |s.clients| == 1
    requires s.main == Scanning(0) && s.list == [0] && s.freed == {}
    ensures Enabled(s, Return(0)) && Enabled(Next(s, Return(0)), Look) && Enabled(Next(Next(s, Return(0)), Look), Reap)
    ensures r == Next(Next(Next(s, Return(0)), Look), Reap) && Enabled(r, Advance) && TouchesFreed(r, Advance)
  {
    hide LineOf, NoLine, RequestOf, Effect, StartPos, AfterPiece, Contents;
    var m := Next(s, Return(0));
    assert m == s.(threads := [s.threads[0].(pc := Ended)]);
    var j := Next(m, Look);
    assert j == m.(main := Joining(0));
    r := Next(j, Reap);
    assert r.main.rec in Touches(r, Advance);
  }

  lemma EmptySession(c: Client) returns (r: System)
    requires NoLine(c)
    ensures Runs(START, [Accept(c), Receive(0), MarkComplete(0)], r)
    ensures r.threads == [STARTED.(pc := Returning, complete := true)] && r.clients == [c]
    ensures r.main == Scanning(0) && r.list == [0] && r.freed == {}
  {
    hide NoLine;
    var s2 := Arrive(c);
    r := Next(s2, MarkComplete(0));
    RunsSnoc(START, [Accept(c), Receive(0)], s2, MarkComplete(0));
    assert [Accept(c), Receive(0)] + [MarkComplete(0)] == [Accept(c), Receive(0), MarkComplete(0)];
  }

  // ------------------------------------------------------------- the scan

  /** What the steps of a run give, in order. */
  function Collect(s: System, actions: seq<Action>, gives: (System, Action) -> seq<nat>): seq<nat>
    decreases |actions|
  {
    if actions == [] || !Enabled(s, actions[0]) then []
    else gives(s, actions[0]) + Collect(Next(s, actions[0]), actions[1..], gives)
  }

  /** The record that a step looks at. */
  function LookOf(s: System, a: Action): seq<nat> {
    if a.Look? && s.main.Scanning? && s.main.at < |s.list| then [s.list[s.main.at]] else []
  }

  /** The record that a step finds flagged. */
  function FindOf(s: System, a: Action): seq<nat> {
    if a.Look? && Flagged(s) then [s.list[s.main.at]] else []
  }

  /** The record that a step of the scan frees. */
  function ReapOf(s: System, a: Action): seq<nat> {
    if a.Reap? && s.main.Joining? && s.main.at < |s.list| then [s.list[s.main.at]] else []
  }

  /** The record that a step frees after the last scan. */
  function UnwindOf(s: System, a: Action): seq<nat> {
    if a.Unwind? && s.list != [] then [s.list[0]] else []
  }

  function LookedAt(s: System, actions: seq<Action>): seq<nat> {
    Collect(s, actions, LookOf)
  }

  function Found(s: System, actions: seq<Action>): seq<nat> {
    Collect(s, actions, FindOf)
  }

  function Reaped(s: System, actions: seq<Action>): seq<nat> {
    Collect(s, actions, ReapOf)
  }

  function Unwound(s: System, actions: seq<Action>): seq<nat> {
    Collect(s, actions, UnwindOf)
  }

  /** The records that the scan under way has still to look at. */
  function ToVisit(s: System): seq<nat> {
    match s.main
    case Scanning(at) => if at <= |s.list| then s.list[at..] else []
    case Joining(at) => if at < |s.list| then s.list[at + 1..] else []
    case Advancing(_, at) => if at <= |s.list| then s.list[at..] else []
    case _ => []
  }

  /** The record found flagged whose thread main is joining. */
  function Due(s: System): seq<nat> {
    if s.main.Joining? && s.main.at < |s.list| then [s.list[s.main.at]] else []
  }

  predicate NoAccept(actions: seq<Action>) {
    forall i | 0 <= i < |actions| :: !actions[i].Accept?
  }

  predicate Ending(s: System) {
    s.main.Unwinding? || s.main.Exited?
  }

  /** The step of the scan from `s` to `r` that looks at, finds flagged, reaps and unwinds as given. */
  ghost predicate Scanned(s: System, r: System, look: seq<nat>, found: seq<nat>, reap: seq<nat>, unwind: seq<nat>) {
    && look + ToVisit(r) == ToVisit(s)
    && reap + Due(r) == Due(s) + found
    && r.freed == s.freed + Set(reap) + Set(unwind)
    && (Ending(s) ==> Ending(r)) && (unwind != [] ==> Ending(r)) && |r.threads| == |s.threads|
  }

  lemma ThreadScanStep(s: System, a: Action)
    requires Enabled(s, a) && ThreadOf(a).Some?
    ensures Scanned(s, Next(s, a), LookOf(s, a), FindOf(s, a), ReapOf(s, a), UnwindOf(s, a))
  {
    ThreadLeavesMain(s, a);
    hide Enabled, Next, Flagged;
    StandStill(s, Next(s, a));
  }

  lemma StandStill(s: System, r: System)
    requires r.main == s.main && r.list == s.list && r.freed == s.freed && |r.threads| == |s.threads|
    ensures Scanned(s, r, [], [], [], [])
  {
    assert s.freed + Set([]) + Set([]) == s.freed;
    assert [] + ToVisit(r) == ToVisit(s) && [] + Due(r) == Due(s) + [];
  }

  /** What a step of main other than a new client makes of the state. */
  lemma MainNext(s: System, a: Action)
    requires Registered(s) && Enabled(s, a) && ThreadOf(a) == None && !a.Accept?
    ensures match a
            case Look => s.main.Scanning? && s.main.at <= |s.list| && Next(s, a) == s.(main := AfterLook(s))
            case Reap =>
              && s.main.Joining? && s.main.at < |s.list|
              && Next(s, a) == Free(s, s.main.at, Advancing(s.list[s.main.at], s.main.at))
            case Advance => s.main.Advancing? && s.main.at <= |s.list| && Next(s, a) == s.(main := Scanning(s.main.at))
            case Unwind => s.main == Unwinding && s.list != [] && Next(s, a) == Free(s, 0, Unwinding)
            case _ => s.main != Exited && !Scans(s) && Next(s, a) == s.(main := if a.Stop? then Unwinding else Exited)
  {
    hide Free, LineOf, NoLine, RequestOf, Effect, StartPos, AfterPiece, Contents;
  }

  predicate Scans(s: System) {
    s.main.Scanning? || s.main.Joining? || s.main.Advancing?
  }

  function AfterLook(s: System): MainPc
    requires s.main.Scanning?
  {
    if s.main.at >= |s.list| then Accepting else if Flagged(s) then Joining(s.main.at) else Scanning(s.main.at + 1)
  }

  lemma LookStep(s: System)
    requires s.main.Scanning? && s.main.at <= |s.list|
    ensures Scanned(s, s.(main := AfterLook(s)), LookOf(s, Look), FindOf(s, Look), [], [])
  {
    var r, at := s.(main := AfterLook(s)), s.main.at;
    if at == |s.list| {
      assert s.list[at..] == [];
      OtherScanStep(s, r, []);
    } else if Flagged(s) {
      LookOne(s, r, s.list[at], [s.list[at]]);
    } else {
      LookOne(s, r, s.list[at], []);
    }
  }

  lemma LookOne(s: System, r: System, rec: nat, found: seq<nat>)
    requires r == s.(main := r.main)
    requires [rec] + ToVisit(r) == ToVisit(s) && Due(r) == found && Due(s) == [] && !Ending(s)
    ensures Scanned(s, r, [rec], found, [], [])
  {
    assert [] + Due(r) == Due(s) + found;
    assert s.freed + Set([]) + Set([]) == s.freed;
  }

  lemma ReapStep(s: System)
    requires s.main.Joining? && s.main.at < |s.list|
    ensures var rec := s.list[s.main.at];
            Scanned(s, Free(s, s.main.at, Advancing(rec, s.main.at)), [], [], [rec], [])
  {
    var r := Free(s, s.main.at, Advancing(s.list[s.main.at], s.main.at));
    assert r.list[s.main.at..] == s.list[s.main.at + 1..];
    assert [] + ToVisit(r) == ToVisit(r) && Due(s) + [] == Due(s);
  }

  lemma OtherScanStep(s: System, r: System, unwind: seq<nat>)
    requires r.freed == s.freed + Set(unwind) && |r.threads| == |s.threads|
    requires ToVisit(r) == ToVisit(s) && Due(r) == Due(s) == []
    requires (Ending(s) ==> Ending(r)) && (unwind != [] ==> Ending(r))
    ensures Scanned(s, r, [], [], [], unwind)
  {
    assert [] + ToVisit(r) == ToVisit(r);
  }

  lemma ScanStep(s: System, a: Action)
    requires Registered(s) && Enabled(s, a) && !a.Accept?
    ensures Scanned(s, Next(s, a), LookOf(s, a), FindOf(s, a), ReapOf(s, a), UnwindOf(s, a))
  {
    hide Registered, Enabled, Next, Scanned, AfterLook, Flagged;
    if ThreadOf(a).Some? {
      ThreadScanStep(s, a);
    } else {
      MainNext(s, a);
      match a
      case Look => LookStep(s);
      case Reap => ReapStep(s);
      case Advance => OtherScanStep(s, Next(s, a), []);
      case Stop => OtherScanStep(s, Next(s, a), []);
      case Unwind => OtherScanStep(s, Next(s, a), [s.list[0]]);
      case Quit => OtherScanStep(s, Next(s, a), []);
      case _ =>
    }
  }

  /** Two stretches of a scan are one. */
  lemma ScannedJoin(s: System, m: System, r: System, look: seq<nat>, found: seq<nat>, reap: seq<nat>,
                    unwind: seq<nat>, look2: seq<nat>, found2: seq<nat>, reap2: seq<nat>, unwind2: seq<nat>)
    requires Scanned(s, m, look, found, reap, unwind) && Scanned(m, r, look2, found2, reap2, unwind2)
    ensures Scanned(s, r, look + look2, found + found2, reap + reap2, unwind + unwind2)
  {
    Grouped(look, look2, ToVisit(r));
    Grouped(reap, reap2, Due(r));
    Grouped(reap, Due(m), found2);
    Grouped(Due(s), found, found2);
    SetJoin(reap, reap2);
    SetJoin(unwind, unwind2);
    hide ToVisit, Due, Set;
  }

  /** Between new clients, what has been looked at and what is still to be looked at are the records
      listed, each once and in order; what has been found flagged is freed or due; and nothing else is
      freed before main unwinds. */
  lemma {:induction false} ScanVisits(s: System, actions: seq<Action>, r: System)
    requires Registered(s) && Runs(s, actions, r) && NoAccept(actions)
    ensures Scanned(s, r, LookedAt(s, actions), Found(s, actions), Reaped(s, actions), Unwound(s, actions))
    decreases |actions|
  {
    hide Registered, Enabled, Next, Scanned, LookOf, FindOf, ReapOf, UnwindOf, LookedAt, Found, Reaped, Unwound;
    if actions == [] {
      ScanNone(s);
    } else {
      var a := actions[0];
      var m := Next(s, a);
      ScanStep(s, a);
      RegisteredPreserved(s, a);
      assert NoAccept(actions[1..]);
      ScanVisits(m, actions[1..], r);
      CollectHead(s, actions, m);
      ScannedJoin(s, m, r, LookOf(s, a), FindOf(s, a), ReapOf(s, a), UnwindOf(s, a),
                  LookedAt(m, actions[1..]), Found(m, actions[1..]), Reaped(m, actions[1..]), Unwound(m, actions[1..]));
    }
  }

  lemma ScanNone(s: System)
    ensures Scanned(s, s, LookedAt(s, []), Found(s, []), Reaped(s, []), Unwound(s, []))
  {
  }

  lemma CollectHead(s: System, actions: seq<Action>, m: System)
    requires actions != [] && Enabled(s, actions[0]) && m == Next(s, actions[0])
    ensures LookedAt(s, actions) == LookOf(s, actions[0]) + LookedAt(m, actions[1..])
    ensures Found(s, actions) == FindOf(s, actions[0]) + Found(m, actions[1..])
    ensures Reaped(s, actions) == ReapOf(s, actions[0]) + Reaped(m, actions[1..])
    ensures Unwound(s, actions) == UnwindOf(s, actions[0]) + Unwound(m, actions[1..])
  {
    hide Next, Enabled, LookOf, FindOf, ReapOf, UnwindOf;
  }

  ghost function Set(ids: seq<nat>): set<nat> {
    set t | t in ids
  }

  lemma SetJoin(a: seq<nat>, b: seq<nat>)
    ensures Set(a + b) == Set(a) + Set(b)
  {
  }

  /** After a new client main comes back to accepting only when it has looked at every listed record, the
      new one first, each once and in order. It has then freed exactly those it found flagged, and the
      others are still listed. */
  lemma ScanComplete(actions: seq<Action>, s: System, c: Client, more: seq<Action>, r: System)
    requires Runs(START, actions, s) && Enabled(s, Accept(c))
    requires Runs(Next(s, Accept(c)), more, r) && NoAccept(more) && r.main == Accepting
    ensures var m := Next(s, Accept(c));
            && LookedAt(m, more) == [|s.threads|] + s.list
            && Reaped(m, more) == Found(m, more)
            && r.freed == s.freed + Set(Found(m, more))
            && forall t: nat :: t in r.list <==> t in [|s.threads|] + s.list && t !in Found(m, more)
  {
    hide *;
    var m := Next(s, Accept(c));
    StartRegistered();
    RegisteredAlways(START, actions, s);
    RegisterKeeps(s, c);
    ScanVisits(m, more, r);
    RegisteredAlways(m, more, r);
    ScanEnds(s, c, r, LookedAt(m, more), Found(m, more), Reaped(m, more), Unwound(m, more));
    ListedIsNotFreed(m, r, Found(m, more));
  }

  lemma StartRegistered()
    ensures Registered(START)
  {
  }

  lemma ScanEnds(s: System, c: Client, r: System, look: seq<nat>, found: seq<nat>, reap: seq<nat>, unwind: seq<nat>)
    requires Enabled(s, Accept(c)) && r.main == Accepting
    requires Scanned(Next(s, Accept(c)), r, look, found, reap, unwind)
    ensures var m := Next(s, Accept(c));
            && m.list == [|s.threads|] + s.list && look == m.list
            && reap == found && r.freed == m.freed + Set(found) && m.freed == s.freed && |r.threads| == |m.threads|
  {
    var m := Next(s, Accept(c));
    assert look + [] == look && reap + [] == reap && [] + found == found;
    assert ToVisit(m) == m.list;
  }

  lemma ListedIsNotFreed(m: System, r: System, found: seq<nat>)
    requires Registered(m) && Registered(r) && |m.threads| == |r.threads| && r.freed == m.freed + Set(found)
    ensures forall t: nat :: t in r.list <==> t in m.list && t !in found
  {
    forall t: nat ensures t in r.list <==> t in m.list && t !in found {
      assert t in m.list ==> t < |m.threads|;
      assert t in r.list ==> t < |r.threads|;
    }
  }

  // ------------------------------------------------------------- finishing

  /** Main has exited and every thread has ended. */
  ghost predicate Done(s: System) {
    s.main.Exited? && forall t: nat | t < |s.threads| :: Finished(s, t)
  }

  /** Unless it is stuck or done, the server can make a step that needs no new client. */
  lemma SomeoneMoves(s: System) returns (a: Action)
    requires Inv(s) && Registered(s) && !Stuck(s) && !Done(s)
    ensures Enabled(s, a) && !a.Accept?
  {
    if t: nat :| t < |s.threads| && s.threads[t].pc != Ended {
      var u := DeadlockFree(s, t);
      return StepOf(s, u);
    }
    a := MainStep(s);
  }

  lemma MainStep(s: System) returns (a: Action)
    requires Registered(s) && !s.main.Exited?
    requires forall t: nat | t < |s.threads| :: s.threads[t].pc == Ended
    ensures Enabled(s, a) && !a.Accept?
  {
    match s.main
    case Accepting => a := Stop;
    case Scanning(_) => a := Look;
    case Joining(_) => a := Reap;
    case Advancing(_, _) => a := Advance;
    case Unwinding => a := if s.list == [] then Quit else Unwind;
  }

  /** How many steps a thread is from its end, its read-back loop counted as one. */
  function StepsLeft(pc: Pc): nat {
    match pc
    case Receiving => 9
    case Waiting => 8
    case Opened => 7
    case Faulting => 0
    case Rewinding => 6
    case Replying => 5
    case Closing => 4
    case Released => 3
    case Finishing => 2
    case Returning => 1
    case Ended => 0
  }

  function AllStepsLeft(threads: seq<Thread>): nat {
    if threads == [] then 0 else StepsLeft(threads[0].pc) + AllStepsLeft(threads[1..])
  }

  /** The bytes that the owner has still to read back. */
  function BytesLeft(s: System): nat {
    if OwnerAt(s, Replying) && s.threads[s.owner.value].fPos <= |Contents(s.dev.log)|
    then |Contents(s.dev.log)| - s.threads[s.owner.value].fPos
    else 0
  }

  /** A bound on the steps main can make without a new client. */
  function MainLeft(s: System): nat {
    var n := |s.list|;
    match s.main
    case Accepting => 4 * n + 2
    case Scanning(at) => 4 * n + 3 + if at < n then n - at else 0
    case Joining(at) => 4 * n + 2 + if at < n then n - at else 0
    case Advancing(_, at) => 4 * n + 4 + if at < n then n - at else 0
    case Unwinding => n + 1
    case Exited => 0
  }

  lemma {:induction false} StepsUpdate(threads: seq<Thread>, t: nat, th: Thread)
    requires t < |threads|
    ensures AllStepsLeft(threads[t := th]) + StepsLeft(threads[t].pc) == AllStepsLeft(threads) + StepsLeft(th.pc)
  {
    if t == 0 {
      assert threads[0 := th][1..] == threads[1..];
    } else {
      assert threads[t := th][1..] == threads[1..][t - 1 := th];
      StepsUpdate(threads[1..], t - 1, th);
    }
  }

  /** Every step that is not a new client brings the server closer to its end. */
  lemma StepDown(s: System, a: Action)
    requires Inv(s) && Enabled(s, a) && !a.Accept?
    ensures var r := Next(s, a);
            || AllStepsLeft(r.threads) < AllStepsLeft(s.threads)
            || (AllStepsLeft(r.threads) == AllStepsLeft(s.threads)
                && BytesLeft(r) + MainLeft(r) < BytesLeft(s) + MainLeft(s))
  {
    if ThreadOf(a).Some? {
      ThreadStepDown(s, a, ThreadOf(a).value);
    } else {
      MainStepDown(s, a);
    }
  }

  lemma MainStepDown(s: System, a: Action)
    requires Enabled(s, a) && !a.Accept? && ThreadOf(a) == None
    ensures var r := Next(s, a);
            r.threads == s.threads && BytesLeft(r) == BytesLeft(s) && MainLeft(r) < MainLeft(s)
  {
    hide LineOf, RequestOf, Contents;
  }

  lemma ThreadStepDown(s: System, a: Action, t: nat)
    requires Inv(s) && Enabled(s, a) && ThreadOf(a) == Some(t)
    ensures var r := Next(s, a);
            || AllStepsLeft(r.threads) < AllStepsLeft(s.threads)
            || (AllStepsLeft(r.threads) == AllStepsLeft(s.threads)
                && BytesLeft(r) < BytesLeft(s) && MainLeft(r) == MainLeft(s))
  {
    hide Tracked, LineOf, RequestOf, Effect, StartPos, AllStepsLeft, Contents;
    var r := Next(s, a);
    StepsUpdate(s.threads, t, r.threads[t]);
    assert r.threads == s.threads[t := r.threads[t]];
    if a.ReadPiece? && r.threads[t].pc == Replying {
      assert s.owner == Some(t);
      PieceLeft(s, t);
    }
  }

  lemma PieceLeft(s: System, t: nat)
    requires s.owner == Some(t) && Enabled(s, ReadPiece(t))
    requires Next(s, ReadPiece(t)).threads[t].pc == Replying
    ensures var r := Next(s, ReadPiece(t)); BytesLeft(r) < BytesLeft(s) && MainLeft(r) == MainLeft(s)
  {
  }

  /** Once no more clients come and the stop signal does, every way of scheduling the threads and main
      in which a step is taken whenever there is one comes to an end: main has exited, every session has
      ended and every record is freed, or the server is stuck. */
  lemma {:induction false} Finishes(run: nat -> System, steps: nat -> Action, i: nat) returns (n: nat)
    requires Inv(run(i)) && Registered(run(i))
    requires forall j: nat | Enabled(run(j), steps(j)) :: !steps(j).Accept? && run(j + 1) == Next(run(j), steps(j))
    requires forall j: nat, a: Action | !Enabled(run(j), steps(j)) && Enabled(run(j), a) :: a.Accept?
    ensures n >= i
    ensures Stuck(run(n)) || (Done(run(n)) && forall t: nat | t < |run(n).threads| :: t in run(n).freed)
    decreases AllStepsLeft(run(i).threads), BytesLeft(run(i)) + MainLeft(run(i))
  {
    if Stuck(run(i)) || Done(run(i)) {
      return i;
    }
    var a := SomeoneMoves(run(i));
    assert Enabled(run(i), steps(i));
    InvPreserved(run(i), steps(i));
    RegisteredPreserved(run(i), steps(i));
    StepDown(run(i), steps(i));
    n := Finishes(run, steps, i + 1);
  }
}
