/** Every order of serving is possible: the converse of serialisation. */
module Schedules {
  import opened Bytes
  import opened Lines
  import opened DeviceLog
  import opened Protocol
  import opened Sessions

  lemma {:induction false} RunsJoin(s: System, a: seq<Action>, m: System, b: seq<Action>, r: System)
    requires Runs(s, a, m) && Runs(m, b, r)
    ensures Runs(s, a + b, r)
    decreases |a|
  {
    hide Enabled, Next;
    if a == [] {
      assert a + b == b;
    } else {
      assert (a + b)[1..] == a[1..] + b;
      RunsJoin(Next(s, a[0]), a[1..], m, b, r);
    }
  }

  lemma OneStep(s: System, a: Action)
    requires Enabled(s, a)
    ensures Runs(s, [a], Next(s, a))
  {
    hide Enabled, Next;
    assert [a][1..] == [];
    assert Runs(Next(s, a), [], Next(s, a));
  }

  // ------------------------------------------------- arriving

  /** No thread has done anything yet. */
  ghost predicate Fresh(s: System, cs: seq<Client>) {
    && s.main == Accepting && s.clients == cs && |s.threads| == |cs|
    && (forall t | 0 <= t < |cs| :: s.threads[t] == STARTED)
    && (forall i | 0 <= i < |s.list| :: s.list[i] < |s.threads|)
    && |s.list| == |cs| && s.order == [] && s.owner == None && s.dev == FRESH_DEV
  }

  /** A scan that finds no flag set goes over the whole list. */
  lemma {:induction false} ScanOver(s: System, at: nat) returns (actions: seq<Action>)
    requires s.main == Scanning(at) && at <= |s.list|
    requires forall i | 0 <= i < |s.list| :: s.list[i] < |s.threads| && s.threads[s.list[i]] == STARTED
    ensures Runs(s, actions, s.(main := Accepting))
    decreases |s.list| - at
  {
    OneStep(s, Look);
    var m := Next(s, Look);
    if at == |s.list| {
      return [Look];
    }
    assert m == s.(main := Scanning(at + 1));
    var rest := ScanOver(m, at + 1);
    hide *;
    RunsJoin(s, [Look], m, rest, s.(main := Accepting));
    return [Look] + rest;
  }

  /** Any number of clients can have arrived before any of them is served. */
  lemma {:induction false} AllArrive(cs: seq<Client>) returns (actions: seq<Action>, s: System)
    ensures Runs(START, actions, s) && Fresh(s, cs)
  {
    if cs == [] {
      StartFresh();
      return [], START;
    }
    var n := |cs| - 1;
    var before, m := AllArrive(cs[..n]);
    var a := ArriveNext(m, cs[..n], cs[n]);
    assert cs[..n] + [cs[n]] == cs;
    hide *;
    s := Next(m, Accept(cs[n])).(main := Accepting);
    RunsJoin(START, before, m, a, s);
    actions := before + a;
  }

  lemma StartFresh()
    ensures Runs(START, [], START) && Fresh(START, [])
  {
  }

  lemma ArriveNext(m: System, cs: seq<Client>, c: Client) returns (actions: seq<Action>)
    requires Fresh(m, cs)
    ensures Enabled(m, Accept(c))
    ensures var s := Next(m, Accept(c)).(main := Accepting); Runs(m, actions, s) && Fresh(s, cs + [c])
  {
    OneStep(m, Accept(c));
    var x := Next(m, Accept(c));
    assert forall i | 1 <= i < |x.list| :: x.list[i] == m.list[i - 1];
    var scan := ScanOver(x, 0);
    RunsJoin(m, [Accept(c)], x, scan, x.(main := Accepting));
    actions := [Accept(c)] + scan;
  }

  // ------------------------------------------------- serving

  /** A session that reads back comes to the end of it. */
  lemma {:induction false} ReadAll(s: System, t: nat) returns (actions: seq<Action>, r: System)
    requires At(s, t, Replying) && !s.dev.locked && s.threads[t].fPos <= |Contents(s.dev.log)|
    ensures Runs(s, actions, r) && At(r, t, Closing) && r == Update(s, t, r.threads[t])
    decreases |Contents(s.dev.log)| - s.threads[t].fPos
  {
    var m := Next(s, ReadPiece(t));
    OneStep(s, ReadPiece(t));
    PieceMoves(s.dev, s.threads[t]);
    hide AfterPiece, Contents, Runs;
    assert m == Update(s, t, m.threads[t]);
    if m.threads[t].pc == Closing {
      return [ReadPiece(t)], m;
    }
    actions, r := ReadAll(m, t);
    RunsJoin(s, [ReadPiece(t)], m, actions, r);
    actions := [ReadPiece(t)] + actions;
  }

  lemma PieceMoves(d: Dev, th: Thread)
    requires th.pc == Replying && th.fPos <= |Contents(d.log)|
    ensures var r := AfterPiece(d, th);
            r.pc == Closing || (r.pc == Replying && th.fPos < r.fPos <= |Contents(d.log)|)
  {
  }

  /** A waiting session that does not block can be served from beginning to end. */
  lemma ServeThread(s: System, t: nat) returns (actions: seq<Action>, r: System)
    requires At(s, t, Receiving) && !NoLine(s.clients[t]) && s.owner == None
    requires !Effect(s.dev, RequestOf(s.clients[t]), s.clients[t].after).locked && !s.dev.locked
    ensures Runs(s, actions, r) && At(r, t, Ended)
    ensures var d := Effect(s.dev, RequestOf(s.clients[t]), s.clients[t].after);
            r == Update(s, t, r.threads[t]).(dev := d, order := s.order + [t])
  {
    var begin, m := TakeEffect(s, t);
    var read, e := ReadAll(m, t);
    var end;
    end, r := Leave(e, t);
    hide *;
    RunsJoin(s, begin, m, read, e);
    RunsJoin(s, begin + read, e, end, r);
    actions := begin + read + end;
  }

  lemma TakeEffect(s: System, t: nat) returns (actions: seq<Action>, r: System)
    requires At(s, t, Receiving) && !NoLine(s.clients[t]) && s.owner == None
    requires !Effect(s.dev, RequestOf(s.clients[t]), s.clients[t].after).locked && !s.dev.locked
    ensures Runs(s, actions, r) && At(r, t, Replying) && r.threads[t].fPos <= |Contents(r.dev.log)|
    ensures var d := Effect(s.dev, RequestOf(s.clients[t]), s.clients[t].after);
            r == Update(s, t, r.threads[t]).(dev := d, owner := Some(t), order := s.order + [t])
  {
    hide NoLine, LineOf, Effect, StartPos, Contents, RequestOf, Runs, AfterPiece;
    var q := RequestOf(s.clients[t]);
    var m1 := Next(s, Receive(t));
    var m2 := Next(m1, Lock(t));
    OneStep(s, Receive(t));
    OneStep(m1, Lock(t));
    RunsJoin(s, [Receive(t)], m1, [Lock(t)], m2);
    StartWithin(s.dev, q, s.clients[t].after);
    if q.Append? {
      var m3 := Next(m2, WriteLine(t));
      r := Next(m3, Rewind(t));
      OneStep(m2, WriteLine(t));
      OneStep(m3, Rewind(t));
      RunsJoin(s, [Receive(t)] + [Lock(t)], m2, [WriteLine(t)], m3);
      RunsJoin(s, [Receive(t)] + [Lock(t)] + [WriteLine(t)], m3, [Rewind(t)], r);
      actions := [Receive(t)] + [Lock(t)] + [WriteLine(t)] + [Rewind(t)];
    } else {
      r := Next(m2, SeekCommand(t));
      OneStep(m2, SeekCommand(t));
      RunsJoin(s, [Receive(t)] + [Lock(t)], m2, [SeekCommand(t)], r);
      actions := [Receive(t)] + [Lock(t)] + [SeekCommand(t)];
    }
  }

  lemma StartWithin(d: Dev, q: Request, after: byte)
    requires !d.locked
    ensures StartPos(d.log, q) <= |Contents(Effect(d, q, after).log)|
  {
  }

  lemma Leave(s: System, t: nat) returns (actions: seq<Action>, r: System)
    requires At(s, t, Closing)
    ensures Runs(s, actions, r) && At(r, t, Ended) && r == Update(s, t, r.threads[t]).(owner := None)
  {
    hide NoLine, LineOf, Effect, StartPos, Contents, RequestOf, Runs, AfterPiece;
    var m := Next(Next(s, Unlock(t)), MarkSuccess(t));
    assert m == Update(s, t, s.threads[t].(pc := Finishing, success := true)).(owner := None);
    TwoSteps(s, Unlock(t), MarkSuccess(t));
    r := Finish(m, t);
    RunsJoin(s, [Unlock(t), MarkSuccess(t)], m, [MarkComplete(t), Return(t)], r);
    actions := [Unlock(t), MarkSuccess(t)] + [MarkComplete(t), Return(t)];
  }

  lemma Finish(s: System, t: nat) returns (r: System)
    requires At(s, t, Finishing)
    ensures Runs(s, [MarkComplete(t), Return(t)], r)
    ensures r == Update(s, t, s.threads[t].(pc := Ended, complete := true))
  {
    hide NoLine, LineOf, Effect, StartPos, Contents, RequestOf, Runs, AfterPiece;
    r := Next(Next(s, MarkComplete(t)), Return(t));
    TwoSteps(s, MarkComplete(t), Return(t));
  }

  lemma TwoSteps(s: System, a: Action, b: Action)
    requires Enabled(s, a) && Enabled(Next(s, a), b)
    ensures Runs(s, [a, b], Next(Next(s, a), b))
  {
    hide *;
    OneStep(s, a);
    OneStep(Next(s, a), b);
    RunsJoin(s, [a], Next(s, a), [b], Next(Next(s, a), b));
    assert [a] + [b] == [a, b];
  }

  // ------------------------------------------------- any order

  /** The threads `ids` have been served in that order and the others have not begun. */
  ghost predicate ServedSoFar(s: System, cs: seq<Client>, ids: seq<nat>) {
    && s.clients == cs && |s.threads| == |cs| && s.owner == None && s.order == ids
    && InRange(ids, |cs|) && s.dev == Serial(Served(cs, ids))
    && (forall t | 0 <= t < |cs| :: if t in ids then s.threads[t].pc == Ended else s.threads[t] == STARTED)
  }

  /** For any clients, any of them can be served in any order, as long as each of these sends a line and
      gets through: there is a run in which they take the lock in that order and come to their end. The
      serial runs that interleavings amount to are therefore all of them. */
  lemma {:induction false} EveryOrderRuns(cs: seq<Client>, ids: seq<nat>)
    returns (actions: seq<Action>, r: System)
    requires InRange(ids, |cs|)
    requires forall i, j | 0 <= i < j < |ids| :: ids[i] != ids[j]
    requires forall i | 0 <= i < |ids| :: !NoLine(cs[ids[i]])
    requires !Serial(Served(cs, ids)).locked
    ensures Runs(START, actions, r) && ServedSoFar(r, cs, ids)
  {
    hide NoLine, Serial, Effect, RequestOf, Runs, Served;
    if ids == [] {
      actions, r := AllArrive(cs);
      NobodyServed(cs);
      return;
    }
    var n := |ids| - 1;
    var before, t := ids[..n], ids[n];
    var earlier, c := Served(cs, before), cs[t];
    ServedLast(cs, ids);
    CompletesExactly(earlier, c);
    SerialSnoc(earlier, c);
    var a, m := EveryOrderRuns(cs, before);
    assert t !in before && m.threads[t] == STARTED;
    var b;
    b, r := ServeThread(m, t);
    RunsJoin(START, a, m, b, r);
    assert before + [t] == ids;
    actions := a + b;
  }

  lemma NobodyServed(cs: seq<Client>)
    ensures Served(cs, []) == [] && Serial([]) == FRESH_DEV
  {
  }

  lemma ServedLast(cs: seq<Client>, ids: seq<nat>)
    requires InRange(ids, |cs|) && ids != []
    ensures InRange(ids[..|ids| - 1], |cs|) && ids[|ids| - 1] < |cs|
    ensures Served(cs, ids) == Served(cs, ids[..|ids| - 1]) + [cs[ids[|ids| - 1]]]
  {
  }
}
