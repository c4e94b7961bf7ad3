/** The server: any number of session threads, one lock, and the main loop that reaps them. */
module Sessions {
  import opened Bytes
  import opened Lines
  import opened DeviceLog
  import opened Protocol

  /** Where a session thread is. Opened to Closing is the section under the server lock. A thread at
      Faulting is in a write of nothing onto nothing pending, which the driver does not survive. */
  datatype Pc =
    | Receiving | Waiting | Opened | Faulting | Rewinding | Replying | Closing | Released | Finishing | Returning
    | Ended

  datatype Thread = Thread(pc: Pc, fPos: nat, reply: seq<byte>, success: bool, complete: bool)

  const STARTED: Thread := Thread(Receiving, 0, [], false, false)

  /** Where main is. Scanning at a list position, it joins a thread, frees its record, and is then
      Advancing: it reads the link to the next record out of the record just freed, `rec`. */
  datatype MainPc = Accepting | Scanning(at: nat) | Joining(at: nat) | Advancing(rec: nat, at: nat) | Unwinding | Exited

  /** `clients` and `threads` are indexed by thread; `order` lists the threads that took the lock, in
      order; `list` is the registry, most recent first; `freed` holds the records given back. */
  datatype System = System(
    dev: Dev, owner: Option<nat>, order: seq<nat>,
    clients: seq<Client>, threads: seq<Thread>,
    main: MainPc, list: seq<nat>, freed: set<nat>, added: nat, removed: nat)

  const START: System := System(FRESH_DEV, None, [], [], [], Accepting, [], {}, 0, 0)

  datatype Action =
    | Receive(t: nat) | Lock(t: nat) | WriteLine(t: nat) | Rewind(t: nat) | SeekCommand(t: nat)
    | ReadPiece(t: nat) | Unlock(t: nat) | MarkSuccess(t: nat) | MarkComplete(t: nat) | Return(t: nat)
    | Accept(c: Client) | Look | Reap | Advance | Stop | Unwind | Quit

  predicate At(s: System, t: nat, pc: Pc) {
    t < |s.threads| && t < |s.clients| && s.threads[t].pc == pc
  }

  /** A device call blocks while the device lock is held. Joining waits for the thread to end. */
  predicate Enabled(s: System, a: Action) {
    match a
    case Receive(t) => At(s, t, Receiving)
    case Lock(t) => At(s, t, Waiting) && s.owner == None
    case WriteLine(t) => At(s, t, Opened) && !s.dev.locked && RequestOf(s.clients[t]).Append?
    case SeekCommand(t) => At(s, t, Opened) && !s.dev.locked && RequestOf(s.clients[t]).SeekTo?
    case Rewind(t) => At(s, t, Rewinding)
    case ReadPiece(t) => At(s, t, Replying) && !s.dev.locked
    case Unlock(t) => At(s, t, Closing)
    case MarkSuccess(t) => At(s, t, Released)
    case MarkComplete(t) => At(s, t, Finishing)
    case Return(t) => At(s, t, Returning)
    case Accept(_) => s.main == Accepting
    case Look => s.main.Scanning? && (s.main.at < |s.list| ==> s.list[s.main.at] < |s.threads|)
    case Reap => s.main.Joining? && s.main.at < |s.list| && Finished(s, s.list[s.main.at])
    case Advance => s.main.Advancing?
    case Stop => s.main == Accepting
    case Unwind => s.main == Unwinding && s.list != [] && Finished(s, s.list[0])
    case Quit => s.main == Unwinding && s.list == []
  }

  predicate Finished(s: System, t: nat) {
    t < |s.threads| && s.threads[t].pc == Ended
  }

  function Update(s: System, t: nat, th: Thread): System
    requires t < |s.threads|
  {
    s.(threads := s.threads[t := th])
  }

  function Remove(list: seq<nat>, i: nat): seq<nat>
    requires i < |list|
  {
    list[..i] + list[i + 1..]
  }

  function Free(s: System, i: nat, next: MainPc): System
    requires i < |s.list|
  {
    s.(list := Remove(s.list, i), freed := s.freed + {s.list[i]}, removed := s.removed + 1, main := next)
  }

  /** One call of read_until_term on the device file, and the send of a complete line. */
  function AfterPiece(d: Dev, th: Thread): Thread {
    var contents := Contents(d.log);
    var rest := if th.fPos <= |contents| then contents[th.fPos..] else [];
    var piece := Cut(rest, NEWLINE);
    if NEWLINE in rest then th.(fPos := th.fPos + |piece|, reply := th.reply + CStr(piece))
    else th.(pc := Closing, success := th.success || piece != [])
  }

  function Next(s: System, a: Action): System
    requires Enabled(s, a)
  {
    match a
    case Receive(t) => Update(s, t, s.threads[t].(pc := if NoLine(s.clients[t]) then Finishing else Waiting))
    case Lock(t) => Update(s, t, s.threads[t].(pc := Opened, fPos := 0)).(owner := Some(t), order := s.order + [t])
    case WriteLine(t) =>
      var r := RequestOf(s.clients[t]);
      var d := Effect(s.dev, r, s.clients[t].after);
      Update(s, t, s.threads[t].(pc := if d.locked then Faulting else Rewinding, fPos := |r.text|)).(dev := d)
    case SeekCommand(t) =>
      var r := RequestOf(s.clients[t]);
      Update(s, t, s.threads[t].(pc := Replying, fPos := StartPos(s.dev.log, r)))
      .(dev := Effect(s.dev, r, s.clients[t].after))
    case Rewind(t) => Update(s, t, s.threads[t].(pc := Replying, fPos := 0))
    case ReadPiece(t) => Update(s, t, AfterPiece(s.dev, s.threads[t]))
    case Unlock(t) => Update(s, t, s.threads[t].(pc := Released)).(owner := None)
    case MarkSuccess(t) => Update(s, t, s.threads[t].(pc := Finishing, success := true))
    case MarkComplete(t) => Update(s, t, s.threads[t].(pc := Returning, complete := true))
    case Return(t) => Update(s, t, s.threads[t].(pc := Ended))
    case Accept(c) =>
      s.(clients := s.clients + [c], threads := s.threads + [STARTED],
         list := [|s.threads|] + s.list, added := s.added + 1, main := Scanning(0))
    case Look =>
      var at := s.main.at;
      if at >= |s.list| then s.(main := Accepting)
      else
        var th := s.threads[s.list[at]];
        s.(main := if th.success || th.complete then Joining(at) else Scanning(at + 1))
    case Reap => Free(s, s.main.at, Advancing(s.list[s.main.at], s.main.at))
    case Advance => s.(main := Scanning(s.main.at))
    case Stop => s.(main := Unwinding)
    case Unwind => Free(s, 0, Unwinding)
    case Quit => s.(main := Exited)
  }

  /** The interleaving `actions` leads from `s` to `r`. */
  ghost predicate Runs(s: System, actions: seq<Action>, r: System)
    decreases |actions|
  {
    if actions == [] then s == r
    else Enabled(s, actions[0]) && Runs(Next(s, actions[0]), actions[1..], r)
  }

  // ---------------------------------------------------------------- the lock

  predicate InSection(pc: Pc) {
    pc == Opened || pc == Faulting || pc == Rewinding || pc == Replying || pc == Closing
  }

  predicate Early(pc: Pc) {
    pc == Receiving || pc == Waiting
  }

  ghost predicate Shaped(s: System) {
    && |s.clients| == |s.threads|
    && InRange(s.order, |s.threads|)
    && (forall i, j | 0 <= i < j < |s.order| :: s.order[i] != s.order[j])
    && (forall t | 0 <= t < |s.threads| :: Placed(t in s.order, s.clients[t], s.threads[t]))
  }

  /** A thread that has had the lock, as `served` says, works on a line; one that has not has sent
      nothing, and it ends only for want of a line. The completion flag tells where it is. */
  predicate Placed(served: bool, c: Client, th: Thread) {
    && (th.complete <==> th.pc == Returning || th.pc == Ended)
    && if served then !Early(th.pc) && !NoLine(c)
       else
         && th.reply == [] && !th.success
         && match th.pc
            case Receiving => true
            case Waiting => !NoLine(c)
            case Finishing => NoLine(c)
            case Returning => NoLine(c)
            case Ended => NoLine(c)
            case _ => false
  }

  /** At most one thread is in the section, and it is the last one in the order. */
  ghost predicate LockHeld(s: System) {
    && (forall t: nat | t < |s.threads| :: InSection(s.threads[t].pc) <==> s.owner == Some(t))
    && (s.owner.Some? ==> s.owner.value < |s.threads| && s.order != [] && s.order[|s.order| - 1] == s.owner.value)
  }

  /** A step of thread `t` that neither enters nor leaves the section. */
  lemma LocalStep(s: System, t: nat, th: Thread, d: Dev)
    requires Shaped(s) && LockHeld(s) && t < |s.threads|
    requires InSection(th.pc) == InSection(s.threads[t].pc)
    requires Placed(t in s.order, s.clients[t], th)
    ensures var r := Update(s, t, th).(dev := d); Shaped(r) && LockHeld(r)
  {
    hide LineOf;
  }

  lemma LockStep(s: System, t: nat)
    requires Shaped(s) && LockHeld(s) && Enabled(s, Lock(t))
    ensures var r := Next(s, Lock(t)); Shaped(r) && LockHeld(r)
  {
    hide LineOf;
  }

  lemma UnlockStep(s: System, t: nat)
    requires Shaped(s) && LockHeld(s) && Enabled(s, Unlock(t))
    ensures var r := Next(s, Unlock(t)); Shaped(r) && LockHeld(r)
  {
    hide LineOf;
  }

  lemma AcceptStep(s: System, c: Client)
    requires Shaped(s) && LockHeld(s) && Enabled(s, Accept(c))
    ensures var r := Next(s, Accept(c)); Shaped(r) && LockHeld(r)
  {
    hide LineOf;
  }

  function ThreadOf(a: Action): Option<nat> {
    match a
    case Receive(t) => Some(t)
    case Lock(t) => Some(t)
    case WriteLine(t) => Some(t)
    case Rewind(t) => Some(t)
    case SeekCommand(t) => Some(t)
    case ReadPiece(t) => Some(t)
    case Unlock(t) => Some(t)
    case MarkSuccess(t) => Some(t)
    case MarkComplete(t) => Some(t)
    case Return(t) => Some(t)
    case _ => None
  }

  // ------------------------------------------------------- serialisation

  function Served(clients: seq<Client>, ids: seq<nat>): (r: seq<Client>)
    requires InRange(ids, |clients|)
    ensures |r| == |ids|
  {
    seq(|ids|, i requires 0 <= i < |ids| => clients[ids[i]])
  }

  /** The threads whose write or seek has taken effect, in lock order. */
  function Effective(s: System): (r: seq<nat>)
    ensures r <= s.order
  {
    if s.owner.Some? && At(s, s.owner.value, Opened) && s.order != [] then s.order[..|s.order| - 1] else s.order
  }

  /** What the session `c`, which took the lock after the sessions `earlier`, has sent back so far. */
  ghost predicate ReplyOk(d: Dev, earlier: seq<Client>, c: Client, th: Thread) {
    match th.pc
    case Receiving => false
    case Waiting => false
    case Opened => !th.success && th.reply == [] && !d.locked
    case Faulting => !th.success && th.reply == [] && d.locked && RequestOf(c).Append?
    case Rewinding => !th.success && th.reply == [] && !d.locked && RequestOf(c).Append?
    case Replying =>
      && !th.success
      && if d.locked then th.reply == [] && RequestOf(c).SeekTo?
         else
           && th.fPos <= |Contents(d.log)| && th.reply + Echo(Contents(d.log)[th.fPos..]) == ReplyAfter(earlier, c)
           && TailOf(Contents(d.log)[th.fPos..]) == TailAfter(earlier, c)
           && Completes(earlier, c)
    case _ =>
      && th.reply == ReplyAfter(earlier, c) && Completes(earlier, c)
      && (th.success <==> (th.pc != Closing && th.pc != Released) || TailAfter(earlier, c) != [])
  }

  ghost predicate InRange(order: seq<nat>, n: nat) {
    forall i | 0 <= i < |order| :: order[i] < n
  }

  ghost predicate RepliesOk(d: Dev, clients: seq<Client>, order: seq<nat>, threads: seq<Thread>)
    requires |clients| == |threads| && InRange(order, |threads|)
  {
    forall i | 0 <= i < |order| :: ReplyOk(d, Served(clients, order[..i]), clients[order[i]], threads[order[i]])
  }

  ghost predicate Tracked(s: System)
    requires Shaped(s)
  {
    && s.dev == Serial(Served(s.clients, Effective(s)))
    && (s.dev.locked ==> s.owner.Some? && (At(s, s.owner.value, Replying) || At(s, s.owner.value, Faulting)))
    && RepliesOk(s.dev, s.clients, s.order, s.threads)
  }

  ghost predicate Inv(s: System) {
    Shaped(s) && LockHeld(s) && Tracked(s)
  }

  /** The owner's session, run after the earlier ones, is the last step of the serial run. */
  lemma SerialLast(s: System)
    requires Shaped(s) && s.order != []
    ensures var n := |s.order| - 1;
            var c := s.clients[s.order[n]];
            Serial(Served(s.clients, s.order)) == Effect(Serial(Served(s.clients, s.order[..n])), RequestOf(c), c.after)
  {
    var n := |s.order| - 1;
    assert Served(s.clients, s.order)[..n] == Served(s.clients, s.order[..n]);
  }

  /** After the section a thread sets its success flag and keeps it. */
  predicate Onward(th: Thread, th2: Thread) {
    && th2.reply == th.reply && th2.success
    && (th2.pc == Finishing || th2.pc == Returning || th2.pc == Ended)
  }

  /** Outside the section the device can change without touching what a thread has sent. */
  lemma ReplyKept(d: Dev, d2: Dev, earlier: seq<Client>, c: Client, th: Thread, th2: Thread)
    requires ReplyOk(d, earlier, c, th)
    requires !InSection(th.pc) || th.pc == Closing
    requires th2 == th || (th.pc == Closing && th2 == th.(pc := Released)) || Onward(th, th2)
    requires !InSection(th2.pc)
    ensures ReplyOk(d2, earlier, c, th2)
  {
    hide Serial, ReplyAfter, TailAfter, Completes, Contents, Echo, TailOf, RequestOf;
  }

  lemma RepliesUpdate(d: Dev, d2: Dev, clients: seq<Client>, order: seq<nat>,
                      threads: seq<Thread>, t: nat, th: Thread)
    requires |clients| == |threads| && InRange(order, |threads|) && RepliesOk(d, clients, order, threads)
    requires t < |threads|
    requires forall i | 0 <= i < |order| ::
                if order[i] == t then ReplyOk(d2, Served(clients, order[..i]), clients[t], th)
                else !InSection(threads[order[i]].pc)
    ensures RepliesOk(d2, clients, order, threads[t := th])
  {
    hide ReplyOk;
    forall i | 0 <= i < |order|
      ensures ReplyOk(d2, Served(clients, order[..i]), clients[order[i]], threads[t := th][order[i]])
    {
      var u := order[i];
      if u != t {
        NotEarly(d, Served(clients, order[..i]), clients[u], threads[u]);
        ReplyKept(d, d2, Served(clients, order[..i]), clients[u], threads[u], threads[u]);
      }
    }
  }

  /** The same for the last thread in the order, while the others are outside the section. */
  lemma RepliesLast(d: Dev, d2: Dev, clients: seq<Client>, order: seq<nat>, threads: seq<Thread>, t: nat, th: Thread)
    requires |clients| == |threads| && InRange(order, |threads|) && RepliesOk(d, clients, order, threads)
    requires order != [] && order[|order| - 1] == t
    requires forall i | 0 <= i < |order| - 1 :: order[i] != t && !InSection(threads[order[i]].pc)
    requires ReplyOk(d2, Served(clients, order[..|order| - 1]), clients[t], th)
    ensures RepliesOk(d2, clients, order, threads[t := th])
  {
    hide ReplyOk, RepliesOk, Served;
    RepliesUpdate(d, d2, clients, order, threads, t, th);
  }

  lemma NotEarly(d: Dev, earlier: seq<Client>, c: Client, th: Thread)
    requires ReplyOk(d, earlier, c, th)
    ensures !Early(th.pc)
  {
  }

  lemma RepliesAppend(d: Dev, clients: seq<Client>, order: seq<nat>, threads: seq<Thread>, t: nat)
    requires |clients| == |threads| && InRange(order, |threads|) && RepliesOk(d, clients, order, threads)
    requires t < |threads| && ReplyOk(d, Served(clients, order), clients[t], threads[t])
    ensures RepliesOk(d, clients, order + [t], threads)
  {
    hide ReplyOk;
    var longer := order + [t];
    assert forall i | 0 <= i <= |order| :: longer[..i] == order[..i];
    assert order[..|order|] == order;
  }

  lemma RepliesAccept(d: Dev, clients: seq<Client>, order: seq<nat>, threads: seq<Thread>,
                      c: Client, th: Thread)
    requires |clients| == |threads| && InRange(order, |threads|) && RepliesOk(d, clients, order, threads)
    ensures RepliesOk(d, clients + [c], order, threads + [th])
  {
    hide ReplyOk;
    forall i | 0 <= i < |order|
      ensures ReplyOk(d, Served(clients + [c], order[..i]), (clients + [c])[order[i]], (threads + [th])[order[i]])
    {
      assert Served(clients + [c], order[..i]) == Served(clients, order[..i]);
    }
  }

  /** A step of the owner inside the section, past its write or seek. */
  lemma OwnerStep(s: System, t: nat, th: Thread, d: Dev)
    requires Inv(s) && s.owner == Some(t)
    requires InSection(th.pc) && th.pc != Opened && (d.locked ==> th.pc == Replying || th.pc == Faulting)
    requires th.complete == s.threads[t].complete
    requires d == Serial(Served(s.clients, s.order))
    requires ReplyOk(d, Served(s.clients, s.order[..|s.order| - 1]), s.clients[t], th)
    ensures Inv(Update(s, t, th).(dev := d))
  {
    hide Serial, ReplyOk, RepliesOk, Shaped, LockHeld, Served, InRange, LineOf, RequestOf, Contents, ReplyAfter;
    OthersOutside(s, t);
    LocalStep(s, t, th, d);
    RepliesLast(s.dev, d, s.clients, s.order, s.threads, t, th);
  }

  /** While `t` owns the lock it is the last in the order, and no other thread is in the section. */
  lemma OthersOutside(s: System, t: nat)
    requires Shaped(s) && LockHeld(s) && s.owner == Some(t)
    ensures t < |s.threads| == |s.clients| && InRange(s.order, |s.threads|) && s.order != []
    ensures InSection(s.threads[t].pc) && s.order[|s.order| - 1] == t
    ensures t in s.order && !NoLine(s.clients[t]) && !s.threads[t].complete
    ensures forall i | 0 <= i < |s.order| - 1 :: s.order[i] != t && !InSection(s.threads[s.order[i]].pc)
  {
    hide LineOf;
  }

  /** A step outside the section that leaves the reply as it is. */
  lemma OutsideStep(s: System, t: nat, th: Thread)
    requires Inv(s) && t < |s.threads|
    requires !InSection(s.threads[t].pc) && !InSection(th.pc)
    requires Placed(t in s.order, s.clients[t], th) && (t in s.order ==> Onward(s.threads[t], th))
    ensures Inv(Update(s, t, th))
  {
    hide Serial, ReplyOk, RepliesOk, LineOf, Served;
    LocalStep(s, t, th, s.dev);
    assert Effective(Update(s, t, th)) == Effective(s);
    RepliesOutside(s.dev, s.clients, s.order, s.threads, t, th);
  }

  lemma RepliesOutside(d: Dev, clients: seq<Client>, order: seq<nat>, threads: seq<Thread>, t: nat, th: Thread)
    requires |clients| == |threads| && InRange(order, |threads|) && RepliesOk(d, clients, order, threads)
    requires t < |threads| && !InSection(threads[t].pc) && !InSection(th.pc)
    requires t in order ==> Onward(threads[t], th)
    ensures RepliesOk(d, clients, order, threads[t := th])
  {
    hide ReplyOk;
    forall i | 0 <= i < |order|
      ensures ReplyOk(d, Served(clients, order[..i]), clients[order[i]], threads[t := th][order[i]])
    {
      if order[i] == t {
        ReplyKept(d, d, Served(clients, order[..i]), clients[t], threads[t], th);
      }
    }
  }

  lemma LockTracked(s: System, t: nat)
    requires Inv(s) && Enabled(s, Lock(t))
    ensures Inv(Next(s, Lock(t)))
  {
    hide Serial, RepliesOk, Shaped, LockHeld, Served, InRange, LineOf, RequestOf, Contents, ReplyAfter;
    LockStep(s, t);
    NoneInside(s, t);
    var r := Next(s, Lock(t));
    assert r.order[..|s.order|] == s.order;
    RepliesUpdate(s.dev, s.dev, s.clients, s.order, s.threads, t, r.threads[t]);
    RepliesAppend(s.dev, s.clients, s.order, r.threads, t);
  }

  /** While nobody owns the lock no thread is in the section, and a waiting thread has not had it. */
  lemma NoneInside(s: System, t: nat)
    requires Shaped(s) && LockHeld(s) && At(s, t, Waiting) && s.owner == None
    ensures |s.threads| == |s.clients| && InRange(s.order, |s.threads|)
    ensures s.threads[t].reply == [] && !s.threads[t].success
    ensures forall i | 0 <= i < |s.order| :: s.order[i] != t && !InSection(s.threads[s.order[i]].pc)
  {
    hide LineOf;
  }

  lemma UnlockTracked(s: System, t: nat)
    requires Inv(s) && Enabled(s, Unlock(t))
    ensures Inv(Next(s, Unlock(t)))
  {
    UnlockStep(s, t);
    hide Inv, Shaped, LockHeld;
    UnlockInv(s, t);
  }

  lemma UnlockInv(s: System, t: nat)
    requires Inv(s) && At(s, t, Closing)
    requires var r := Update(s, t, s.threads[t].(pc := Released)).(owner := None); Shaped(r) && LockHeld(r)
    ensures Inv(Update(s, t, s.threads[t].(pc := Released)).(owner := None))
  {
    hide ReplyOk, RepliesOk, Shaped, LockHeld, Served, InRange, Serial, Contents, RequestOf, ReplyAfter, NoLine;
    OwnerFacts(s, t);
    OthersOutside(s, t);
    ReplyKept(s.dev, s.dev, Served(s.clients, s.order[..|s.order| - 1]), s.clients[t], s.threads[t],
              s.threads[t].(pc := Released));
    RepliesLast(s.dev, s.dev, s.clients, s.order, s.threads, t, s.threads[t].(pc := Released));
    hide InSection;
  }

  lemma AcceptTracked(s: System, c: Client)
    requires Inv(s) && Enabled(s, Accept(c))
    ensures Inv(Next(s, Accept(c)))
  {
    hide Serial, ReplyOk, RepliesOk, Shaped, LockHeld, Served, InRange, LineOf, RequestOf, Contents, ReplyAfter;
    AcceptStep(s, c);
    var r := Next(s, Accept(c));
    EffectiveKept(s, c, STARTED);
    RepliesAccept(s.dev, s.clients, s.order, s.threads, c, STARTED);
  }

  lemma EffectiveKept(s: System, c: Client, th: Thread)
    requires Shaped(s) && LockHeld(s)
    ensures |s.threads| == |s.clients| && InRange(s.order, |s.threads|) && InRange(Effective(s), |s.clients|)
    ensures var r := s.(clients := s.clients + [c], threads := s.threads + [th]);
            Effective(r) == Effective(s) && Served(r.clients, Effective(s)) == Served(s.clients, Effective(s))
    ensures s.owner.Some? ==> s.owner.value < |s.threads|
  {
    hide LineOf;
  }

  /** The facts a step of the owner starts from. */
  lemma OwnerFacts(s: System, t: nat)
    requires Inv(s) && t < |s.threads| && InSection(s.threads[t].pc)
    ensures s.owner == Some(t) && s.order != [] && t < |s.clients|
    ensures InRange(s.order, |s.clients|) && InRange(s.order[..|s.order| - 1], |s.clients|)
    ensures var n, th := |s.order| - 1, s.threads[t];
            var earlier := Served(s.clients, s.order[..n]);
            && ReplyOk(s.dev, earlier, s.clients[t], th)
            && s.dev == Serial(if th.pc == Opened then earlier else Served(s.clients, s.order))
            && Serial(Served(s.clients, s.order))
            == Effect(Serial(earlier), RequestOf(s.clients[t]), s.clients[t].after)
  {
    hide ReplyOk, Serial, Effect, RequestOf, LineOf, Served;
    OwnerIs(s, t);
    SerialLast(s);
    DevIs(s);
    ReplyAt(s, |s.order| - 1);
    hide Inv, Tracked, RepliesOk, Shaped, LockHeld, InRange;
  }

  lemma OwnerIs(s: System, t: nat)
    requires Shaped(s) && LockHeld(s) && t < |s.threads| && InSection(s.threads[t].pc)
    ensures s.owner == Some(t) && s.order != [] && s.order[|s.order| - 1] == t < |s.clients|
    ensures InRange(s.order, |s.clients|) && InRange(s.order[..|s.order| - 1], |s.clients|)
    ensures Effective(s) == if s.threads[t].pc == Opened then s.order[..|s.order| - 1] else s.order
  {
  }

  lemma DevIs(s: System)
    requires Inv(s)
    ensures InRange(Effective(s), |s.clients|) && s.dev == Serial(Served(s.clients, Effective(s)))
  {
    hide RepliesOk, Serial;
  }

  lemma ReplyAt(s: System, i: nat)
    requires Inv(s) && i < |s.order|
    ensures InRange(s.order[..i], |s.clients|)
    ensures ReplyOk(s.dev, Served(s.clients, s.order[..i]), s.clients[s.order[i]], s.threads[s.order[i]])
  {
    hide ReplyOk, Serial, LineOf;
  }

  /** After its write or seek a thread is on its way to the reply of the serial run. */
  lemma EffectReply(earlier: seq<Client>, c: Client, th: Thread)
    requires ReplyOk(Serial(earlier), earlier, c, th) && th.pc == Opened
    ensures var d, q := Serial(earlier), RequestOf(c);
            var d2 := Effect(d, q, c.after);
            match q
            case Append(text) =>
              ReplyOk(d2, earlier, c, th.(pc := if d2.locked then Faulting else Rewinding, fPos := |text|))
            case SeekTo(_, _) => ReplyOk(d2, earlier, c, th.(pc := Replying, fPos := StartPos(d.log, q)))
  {
    hide Echo, TailOf, Contents, StartPos, Write, SeekShipped, Parse, LineOf;
    var d, q := Serial(earlier), RequestOf(c);
    var d2 := Effect(d, q, c.after);
    if q.SeekTo? && !d2.locked {
      var echo := Echo(ReadBack(d, q, c.after));
      assert [] + echo == echo;
    }
  }

  lemma RewindReply(d: Dev, earlier: seq<Client>, c: Client, th: Thread)
    requires ReplyOk(d, earlier, c, th) && th.pc == Rewinding
    requires d == Effect(Serial(earlier), RequestOf(c), c.after)
    ensures ReplyOk(d, earlier, c, th.(pc := Replying, fPos := 0)) && !d.locked
  {
    hide Echo, TailOf, Contents;
    var echo := Echo(ReadBack(Serial(earlier), RequestOf(c), c.after));
    assert [] + echo == echo;
  }

  lemma EffectTracked(s: System, t: nat, a: Action)
    requires Inv(s) && Enabled(s, a) && (a == WriteLine(t) || a == SeekCommand(t))
    ensures Inv(Next(s, a))
  {
    hide Inv, ReplyOk, Serial, Served, Effect, StartPos, RequestOf;
    OwnerFacts(s, t);
    var r := Next(s, a);
    EffectReply(Served(s.clients, s.order[..|s.order| - 1]), s.clients[t], s.threads[t]);
    OwnerStep(s, t, r.threads[t], r.dev);
    assert r == Update(s, t, r.threads[t]).(dev := r.dev);
  }

  lemma RewindTracked(s: System, t: nat)
    requires Inv(s) && Enabled(s, Rewind(t))
    ensures Inv(Next(s, Rewind(t)))
  {
    hide Inv, ReplyOk, Serial, Served, Effect, RequestOf;
    OwnerFacts(s, t);
    var r := Next(s, Rewind(t));
    RewindReply(s.dev, Served(s.clients, s.order[..|s.order| - 1]), s.clients[t], s.threads[t]);
    OwnerStep(s, t, r.threads[t], r.dev);
    assert r == Update(s, t, r.threads[t]).(dev := r.dev);
  }

  lemma PieceTracked(s: System, t: nat)
    requires Inv(s) && Enabled(s, ReadPiece(t))
    ensures Inv(Next(s, ReadPiece(t)))
  {
    hide Inv, ReplyOk, Serial, Served, AfterPiece;
    OwnerFacts(s, t);
    var n, th := |s.order| - 1, s.threads[t];
    PieceReply(s.dev, Served(s.clients, s.order[..n]), s.clients[t], th);
    OwnerStep(s, t, AfterPiece(s.dev, th), s.dev);
    assert Next(s, ReadPiece(t)) == Update(s, t, AfterPiece(s.dev, th)).(dev := s.dev);
  }

  /** One more line read and sent moves it from what is still to be read to what has been sent. */
  lemma PieceReply(d: Dev, earlier: seq<Client>, c: Client, th: Thread)
    requires ReplyOk(d, earlier, c, th) && th.pc == Replying && !d.locked
    ensures ReplyOk(d, earlier, c, AfterPiece(d, th))
    ensures AfterPiece(d, th).pc == Replying || AfterPiece(d, th).pc == Closing
    ensures AfterPiece(d, th).complete == th.complete
  {
    hide ReplyOk, Echo, TailOf, CStr, ReplyAfter, TailAfter, Completes, Serial, Contents, Cut;
    var contents := Contents(d.log);
    ReplyingFacts(d, earlier, c, th);
    var rest := contents[th.fPos..];
    EchoSent(th.reply, rest);
    TailStep(rest);
    DropDrop(contents, th.fPos, |Cut(rest, NEWLINE)|);
    ReplyingOk(d, earlier, c, AfterPiece(d, th));
  }

  lemma ReplyingFacts(d: Dev, earlier: seq<Client>, c: Client, th: Thread)
    requires ReplyOk(d, earlier, c, th) && th.pc == Replying && !d.locked
    ensures th.fPos <= |Contents(d.log)| && Completes(earlier, c)
    ensures th.reply + Echo(Contents(d.log)[th.fPos..]) == ReplyAfter(earlier, c)
    ensures TailOf(Contents(d.log)[th.fPos..]) == TailAfter(earlier, c) && !th.success
  {
  }

  lemma ReplyingOk(d: Dev, earlier: seq<Client>, c: Client, th: Thread)
    requires !d.locked && Completes(earlier, c) && (th.pc == Replying || th.pc == Closing)
    requires th.pc == Closing ==> th.reply == ReplyAfter(earlier, c) && (th.success <==> TailAfter(earlier, c) != [])
    requires th.pc == Replying ==> th.fPos <= |Contents(d.log)| && !th.success
    requires th.pc == Replying ==> TailOf(Contents(d.log)[th.fPos..]) == TailAfter(earlier, c)
    requires th.pc == Replying ==> th.reply + Echo(Contents(d.log)[th.fPos..]) == ReplyAfter(earlier, c)
    ensures ReplyOk(d, earlier, c, th)
  {
  }

  lemma DropDrop(s: seq<byte>, i: nat, j: nat)
    requires i + j <= |s|
    ensures s[i..][j..] == s[i + j..]
  {
  }

  lemma EchoSent(sent: seq<byte>, rest: seq<byte>)
    ensures sent + Echo(rest) == if NEWLINE in rest
                                 then (sent + CStr(Cut(rest, NEWLINE))) + Echo(rest[|Cut(rest, NEWLINE)|..])
                                 else sent
  {
    EchoStep(rest);
    hide Echo, CStr, Cut;
    var piece := Cut(rest, NEWLINE);
    Grouped(sent, CStr(piece), Echo(rest[|piece|..]));
    assert sent + [] == sent;
  }

  lemma MainTracked(s: System, r: System)
    requires Inv(s)
    requires r.dev == s.dev && r.clients == s.clients && r.threads == s.threads
    requires r.order == s.order && r.owner == s.owner
    ensures Inv(r)
  {
    hide Serial, RepliesOk, LineOf;
    assert Effective(r) == Effective(s);
  }

  lemma InvPreserved(s: System, a: Action)
    requires Inv(s) && Enabled(s, a)
    ensures Inv(Next(s, a))
  {
    hide Inv, Next, Enabled;
    match a
    case WriteLine(t) => EffectTracked(s, t, a);
    case SeekCommand(t) => EffectTracked(s, t, a);
    case Rewind(t) => RewindTracked(s, t);
    case ReadPiece(t) => PieceTracked(s, t);
    case Lock(t) => LockTracked(s, t);
    case Unlock(t) => UnlockTracked(s, t);
    case Accept(c) => AcceptTracked(s, c);
    case _ => OtherTracked(s, a);
  }

  lemma OtherTracked(s: System, a: Action)
    requires Inv(s) && Enabled(s, a)
    requires a.Receive? || a.MarkSuccess? || a.MarkComplete? || a.Return? || ThreadOf(a) == None
    requires !a.Accept?
    ensures Inv(Next(s, a))
  {
    hide Inv, LineOf;
    var r := Next(s, a);
    if ThreadOf(a).Some? {
      var t := ThreadOf(a).value;
      assert r == Update(s, t, r.threads[t]);
      OtherPlaced(s, a, t);
      OutsideStep(s, t, r.threads[t]);
    } else {
      MainTracked(s, r);
    }
  }

  lemma OtherPlaced(s: System, a: Action, t: nat)
    requires Inv(s) && Enabled(s, a) && ThreadOf(a) == Some(t)
    requires a.Receive? || a.MarkSuccess? || a.MarkComplete? || a.Return?
    ensures t < |s.threads| == |s.clients|
    ensures var th := Next(s, a).threads[t];
            Placed(t in s.order, s.clients[t], th) && (t in s.order ==> Onward(s.threads[t], th))
  {
    hide Tracked, NoLine, LineOf;
    if t in s.order && !a.MarkSuccess? {
      LateSuccess(s, t);
    }
  }

  /** A thread that has had the lock and is past its success flag has it set. */
  lemma LateSuccess(s: System, t: nat)
    requires Inv(s) && t in s.order
    ensures t < |s.threads|
    ensures var pc := s.threads[t].pc; pc == Finishing || pc == Returning || pc == Ended ==> s.threads[t].success
  {
    var i :| 0 <= i < |s.order| && s.order[i] == t;
    ReplyAt(s, i);
    hide Inv, Serial, ReplyAfter, TailAfter, Completes, Contents, Echo, TailOf, RequestOf;
  }

  // ------------------------------------------------- all interleavings

  lemma {:induction false} InvAlways(s: System, actions: seq<Action>, r: System)
    requires Inv(s) && Runs(s, actions, r)
    ensures Inv(r)
    decreases |actions|
  {
    hide Inv, Next, Enabled;
    if actions != [] {
      InvPreserved(s, actions[0]);
      InvAlways(Next(s, actions[0]), actions[1..], r);
    }
  }

  predicate PastSection(pc: Pc) {
    pc == Released || pc == Finishing || pc == Returning || pc == Ended
  }

  lemma StartInv()
    ensures Inv(START)
  {
  }

  /** For any clients and any interleaving, the device is as if the sessions had run one at a time in
      the order in which they took the lock, the last one counting once its write or seek is done;
      and a session past its section has sent exactly what it sends in that serial run. */
  lemma SessionsSerialise(actions: seq<Action>, r: System)
    requires Runs(START, actions, r)
    ensures InRange(r.order, |r.clients|) && |r.clients| == |r.threads|
    ensures forall i, j | 0 <= i < j < |r.order| :: r.order[i] != r.order[j]
    ensures InRange(Effective(r), |r.clients|) && r.dev == Serial(Served(r.clients, Effective(r)))
    ensures r.owner == None ==> Effective(r) == r.order
    ensures forall i | 0 <= i < |r.order| && PastSection(r.threads[r.order[i]].pc) ::
              && InRange(r.order[..i], |r.clients|)
              && Completes(Served(r.clients, r.order[..i]), r.clients[r.order[i]])
              && r.threads[r.order[i]].reply == ReplyAfter(Served(r.clients, r.order[..i]), r.clients[r.order[i]])
  {
    StartInv();
    InvAlways(START, actions, r);
    hide Serial, ReplyAfter, LineOf, RequestOf, Runs;
    forall i | 0 <= i < |r.order| && PastSection(r.threads[r.order[i]].pc)
      ensures && InRange(r.order[..i], |r.clients|)
              && Completes(Served(r.clients, r.order[..i]), r.clients[r.order[i]])
              && r.threads[r.order[i]].reply == ReplyAfter(Served(r.clients, r.order[..i]), r.clients[r.order[i]])
    {
      ReplyAt(r, i);
    }
  }

  /** A thread that has had the lock sets its success flag when its read-back ends inside a line, or else
      after giving back the lock, and keeps it; its completion flag is set last. */
  lemma FlagsExactly(actions: seq<Action>, r: System, i: nat)
    requires Runs(START, actions, r) && i < |r.order|
    ensures r.order[i] < |r.threads| == |r.clients| && InRange(r.order[..i], |r.clients|)
    ensures var th, earlier, c := r.threads[r.order[i]], Served(r.clients, r.order[..i]), r.clients[r.order[i]];
            && !NoLine(c)
            && (th.success <==> match th.pc
                                case Closing => TailAfter(earlier, c) != []
                                case Released => TailAfter(earlier, c) != []
                                case Finishing => true
                                case Returning => true
                                case Ended => true
                                case _ => false)
            && (th.complete <==> th.pc == Returning || th.pc == Ended)
  {
    StartInv();
    InvAlways(START, actions, r);
    ReplyAt(r, i);
    var t := r.order[i];
    assert Placed(t in r.order, r.clients[t], r.threads[t]);
    hide Inv, Runs, Serial, ReplyAfter, TailAfter, Completes, Contents, Echo, TailOf, RequestOf, NoLine;
  }

  /** A thread that has not had the lock has sent nothing and set no success flag; when it is past
      receiving it waits if its client sent something, and is at its end if it did not. */
  lemma UnservedExactly(actions: seq<Action>, r: System, t: nat)
    requires Runs(START, actions, r) && t < |r.threads| && t !in r.order
    ensures t < |r.clients|
    ensures var th := r.threads[t];
            && th.reply == [] && !th.success
            && (th.pc != Receiving ==>
                  if NoLine(r.clients[t]) then th.pc == Finishing || th.pc == Returning || th.pc == Ended
                  else th.pc == Waiting)
            && (th.complete <==> th.pc == Returning || th.pc == Ended)
  {
    StartInv();
    InvAlways(START, actions, r);
    assert Placed(t in r.order, r.clients[t], r.threads[t]);
    hide Runs, Tracked, NoLine;
  }

  /** In every interleaving, what the device has accepted is exactly the lines that the clients sent, in
      the order in which their sessions took effect, seeks apart, when these hold no NUL and no session
      has left the device lock held. */
  lemma AcceptedOverRuns(actions: seq<Action>, r: System)
    requires Runs(START, actions, r) && !r.dev.locked
    requires forall t | 0 <= t < |r.clients| :: NUL !in LineOf(r.clients[t])
    ensures InRange(Effective(r), |r.clients|)
    ensures Accepted(r.dev.log) == Flatten(TextLines(Served(r.clients, Effective(r))))
  {
    hide LineOf, Serial, Accepted, TextLines, Runs, Effective;
    SessionsSerialise(actions, r);
    var served := Served(r.clients, Effective(r));
    assert forall i | 0 <= i < |served| :: served[i] == r.clients[Effective(r)[i]];
    AcceptedIsSent(served);
  }

  lemma SentAt(actions: seq<Action>, r: System, i: nat)
    requires Runs(START, actions, r) && i < |r.order|
    requires r.order[i] < |r.threads| && PastSection(r.threads[r.order[i]].pc)
    ensures InRange(r.order[..i], |r.clients|) && InRange(r.order[..i + 1], |r.clients|) && r.order[i] < |r.clients|
    ensures var earlier, c := Served(r.clients, r.order[..i]), r.clients[r.order[i]];
            && Served(r.clients, r.order[..i + 1]) == earlier + [c]
            && Completes(earlier, c)
            && r.threads[r.order[i]].reply == ReplyAfter(earlier, c)
  {
    hide Serial, ReplyAfter, TailAfter, Completes, Contents, Echo, TailOf, LineOf, NoLine, RequestOf, Runs, RepliesOk,
         Effective;
    StartInv();
    InvAlways(START, actions, r);
    ReplyAt(r, i);
  }

  /** In every interleaving the i-th session to take the lock, once past it, has sent the longest
      newline-terminated prefix of the contents, from its start position on, as they were right after
      its own write or seek. */
  lemma ReplyIsOwnSnapshot(actions: seq<Action>, r: System, i: nat)
    requires Runs(START, actions, r) && i < |r.order|
    requires r.order[i] < |r.threads| && PastSection(r.threads[r.order[i]].pc)
    ensures InRange(r.order[..i], |r.clients|) && InRange(r.order[..i + 1], |r.clients|)
    ensures r.order[i] < |r.clients|
    ensures var l, c := Serial(Served(r.clients, r.order[..i])).log, r.clients[r.order[i]];
            var l2 := Serial(Served(r.clients, r.order[..i + 1])).log;
            && StartPos(l, RequestOf(c)) <= |Contents(l2)|
            && IsLinePrefix(r.threads[r.order[i]].reply, Contents(l2)[StartPos(l, RequestOf(c))..])
  {
    hide Serial, ReplyAfter, RequestOf, Runs, InRange, Served, Contents, StartPos;
    SentAt(actions, r, i);
    var earlier, c := Served(r.clients, r.order[..i]), r.clients[r.order[i]];
    SerialSnoc(earlier, c);
    ReplyIsLinePrefix(earlier, c);
  }
}
