/** The byte-by-byte readers of server/include/utils.c and the session loop built on them. */
module StreamReaders {
  import opened Bytes
  import opened Lines
  import opened CircularBuffer
  import opened DeviceLog
  import opened CharDevice
  import opened Protocol

  // ---------------------------------------------------------- descriptors

  /** What successive one-byte reads of a descriptor return. Running out of events is end of file. */
  datatype Event = Data(b: byte) | Interrupt | Failure

  /** The bytes before the first failing read. */
  function Stream(events: seq<Event>): seq<byte> {
    if events == [] then []
    else
      match events[0]
      case Data(b) => [b] + Stream(events[1..])
      case Interrupt => Stream(events[1..])
      case Failure => []
  }

  predicate Broken(events: seq<Event>) {
    Failure in events
  }

  /** The reads of a device file: `signals` says which of the coming calls are interrupted. */
  function DeviceEvents(signals: seq<bool>, bytes: seq<byte>): seq<Event>
    decreases |signals| + |bytes|
  {
    if signals != [] && signals[0] then [Interrupt] + DeviceEvents(signals[1..], bytes)
    else if bytes == [] then []
    else [Data(bytes[0])] + DeviceEvents(if signals == [] then [] else signals[1..], bytes[1..])
  }

  lemma {:induction false} DeviceStream(signals: seq<bool>, bytes: seq<byte>)
    ensures Stream(DeviceEvents(signals, bytes)) == bytes
    ensures !Broken(DeviceEvents(signals, bytes))
    decreases |signals| + |bytes|
  {
    if signals != [] && signals[0] {
      DeviceStream(signals[1..], bytes);
    } else if bytes != [] {
      DeviceStream(if signals == [] then [] else signals[1..], bytes[1..]);
    }
  }

  class Fd {
    /** What is still to come on a socket. */
    var incoming: seq<Event>
    /** The device this descriptor is open on, if any, and its open file. */
    const dev: Device?
    const file: File?
    var signals: seq<bool>
    /** The results of the reads to come. */
    ghost var events: seq<Event>
    ghost const Repr: set<object>

    ghost predicate Valid()
      reads this, Repr
    {
      && this in Repr
      && (dev == null <==> file == null)
      && (dev == null ==> events == incoming)
      && (dev != null ==>
            && dev in Repr && file in Repr && dev.ring in Repr && dev.ring.entry in Repr
            && dev.Valid() && !dev.locked
            && |Contents(dev.log)| < LOFF_MAX && 0 <= file.fPos <= |Contents(dev.log)|
            && events == DeviceEvents(signals, Contents(dev.log)[file.fPos..]))
    }

    constructor Socket(coming: seq<Event>)
      ensures Valid() && events == coming && dev == null && fresh(Repr)
    {
      incoming, signals, events := coming, [], coming;
      dev, file := null, null;
      Repr := {this};
    }

    constructor OnDevice(d: Device, f: File, s: seq<bool>)
      requires d.Valid() && !d.locked && |Contents(d.log)| < LOFF_MAX && 0 <= f.fPos <= |Contents(d.log)|
      ensures Valid() && dev == d && file == f && Repr == {this, d, f, d.ring, d.ring.entry}
      ensures events == DeviceEvents(s, Contents(d.log)[f.fPos..])
    {
      incoming, signals, events := [], s, DeviceEvents(s, Contents(d.log)[f.fPos..]);
      dev, file := d, f;
      Repr := {this, d, f, d.ring, d.ring.entry};
    }

    ghost function Devices(): set<Device> {
      if dev == null then {} else {dev}
    }

    ghost function Files(): set<File> {
      if file == null then {} else {file}
    }

    /** read(fd, &c, 1) and the errno test on its result. */
    method Read() returns (n: int, c: byte, interrupted: bool)
      requires Valid()
      modifies this, Devices()`locked, Files()
      ensures Valid()
      ensures if old(events) == [] then n == 0 && events == []
              else
                && events == old(events)[1..]
                && match old(events)[0]
                   case Data(b) => n == 1 && c == b
                   case Interrupt => n == -1 && interrupted
                   case Failure => n == -1 && !interrupted
    {
      c, interrupted := 0, false;
      if dev == null {
        if incoming == [] {
          n := 0;
        } else {
          match incoming[0] {
            case Data(b) => n, c := 1, b;
            case Interrupt => n, interrupted := -1, true;
            case Failure => n := -1;
          }
          incoming := incoming[1..];
          events := incoming;
        }
      } else {
        n, c, interrupted := ReadDevice();
      }
    }

    method ReadDevice() returns (n: int, c: byte, interrupted: bool)
      requires Valid() && dev != null
      modifies this, dev`locked, file
      ensures Valid()
      ensures if old(events) == [] then n == 0 && events == [] && !interrupted
              else
                && events == old(events)[1..]
                && match old(events)[0]
                   case Data(b) => n == 1 && c == b
                   case Interrupt => n == -1 && interrupted
                   case Failure => false
    {
      hide Owns, Unrolls, Contents, Transfer;
      interrupted := signals != [] && signals[0];
      ghost var rest := Contents(dev.log)[file.fPos..];
      OneByte(dev.log, file.fPos);
      var ret, buf := dev.Read(file, 1, ReadEnv(interrupted, 0));
      if signals != [] && (interrupted || buf != []) {
        signals := signals[1..];
      }
      if interrupted {
        n, c := -1, 0;
      } else {
        n := |buf|;
        c := if buf == [] then 0 else buf[0];
      }
      events := DeviceEvents(signals, Contents(dev.log)[file.fPos..]);
    }
  }

  /** A one-byte read of the device is the next byte of the contents, or nothing at the end. */
  lemma OneByte(l: Log, pos: nat)
    requires pos <= |Contents(l)|
    ensures Transfer(l, pos, 1, 0) == if pos < |Contents(l)| then [Contents(l)[pos]] else []
    ensures pos < |Contents(l)| ==> Contents(l)[pos..][1..] == Contents(l)[pos + 1..]
  {
    SliceIsContents(l, pos, 1);
    LocateFinds(Sizes(Commands(l)), pos);
    FlattenLength(Commands(l));
  }

  // ------------------------------------------------------ read_until_term

  const INITIAL_BUFFER_SIZE: nat := 128

  /** The buffer size after `grows` doublings. */
  function Capacity(grows: nat): (r: nat)
    ensures r >= INITIAL_BUFFER_SIZE
  {
    if grows == 0 then INITIAL_BUFFER_SIZE else 2 * Capacity(grows - 1)
  }

  lemma {:induction false} CapacityGrows(a: nat, b: nat)
    requires a < b
    ensures Capacity(a) < Capacity(b)
  {
    if a < b - 1 {
      CapacityGrows(a, b - 1);
    }
  }

  /** How often a buffer doubles before byte `last` is asked for with room for the NUL behind it. */
  function Doublings(last: nat): (g: nat)
    ensures last < Capacity(g) - 1
    ensures g > 0 ==> last >= Capacity(g - 1) - 1
  {
    if last < INITIAL_BUFFER_SIZE - 1 then 0 else 1 + Doublings((last + 1) / 2 - 1)
  }

  lemma DoublingsUnique(g: nat, last: nat)
    requires last < Capacity(g) - 1
    requires g > 0 ==> last >= Capacity(g - 1) - 1
    ensures g == Doublings(last)
  {
    var d := Doublings(last);
    if g < d - 1 {
      CapacityGrows(g, d - 1);
    } else if d < g - 1 {
      CapacityGrows(d, g - 1);
    }
  }

  lemma CapacityTimes(g: nat)
    ensures Capacity(g + 6) == 64 * Capacity(g)
  {
    assert Capacity(g + 1) == 2 * Capacity(g);
    assert Capacity(g + 2) == 4 * Capacity(g);
    assert Capacity(g + 3) == 8 * Capacity(g);
    assert Capacity(g + 4) == 16 * Capacity(g);
    assert Capacity(g + 5) == 32 * Capacity(g);
  }

  /** The buffer is at most about twice what it has to hold, and its size fits an int exactly as long
      as no byte from index 2^30 - 1 on is asked for. */
  lemma CapacityBound(last: nat)
    ensures Capacity(Doublings(last)) == INITIAL_BUFFER_SIZE || Capacity(Doublings(last)) <= 2 * last + 2
    ensures Capacity(Doublings(last)) < 0x8000_0000 <==> last < 0x3FFF_FFFF
  {
    var d := Doublings(last);
    assert Capacity(24) == 0x8000_0000 && Capacity(23) == 0x4000_0000 by {
      CapacityTimes(0);
      CapacityTimes(6);
      CapacityTimes(12);
      CapacityTimes(18);
      assert Capacity(24) == 2 * Capacity(23);
    }
    if d < 24 {
      if d < 23 {
        CapacityGrows(d, 23);
      }
    } else if d > 24 {
      CapacityGrows(24, d);
      CapacityGrows(23, d - 1);
    }
  }

  /** The heap buffer of a line being read: room is kept for a final NUL, and it doubles when full. */
  class LineBuffer {
    var buf: array<byte>
    var offset: nat
    var grows: nat
    /** Bytes moved by reallocation so far. */
    ghost var copied: nat

    ghost predicate Valid()
      reads this, buf
    {
      && buf.Length == Capacity(grows)
      && offset < buf.Length
      && (grows > 0 ==> offset >= Capacity(grows - 1) - 1)
      && copied + INITIAL_BUFFER_SIZE == buf.Length
    }

    ghost function Bytes(): seq<byte>
      requires Valid()
      reads this, buf
    {
      buf[..offset]
    }

    constructor ()
      ensures Valid() && offset == grows == 0 && fresh(buf)
    {
      buf := new byte[INITIAL_BUFFER_SIZE](_ => 0);
      offset, grows, copied := 0, 0, 0;
    }

    /** Doubles a full buffer, which fails once realloc has granted `limit` doublings. */
    method Reserve(limit: nat) returns (ok: bool)
      requires Valid() && grows <= limit
      modifies this
      ensures Valid() && Bytes() == old(Bytes()) && offset == old(offset) && grows <= limit
      ensures buf == old(buf) || fresh(buf)
      ensures ok <==> offset < Capacity(limit) - 1
      ensures ok ==> offset < buf.Length - 1
      ensures if ok then grows == Doublings(offset) else grows == limit && offset == Capacity(limit) - 1
    {
      if grows < limit {
        CapacityGrows(grows, limit);
      }
      ok := true;
      if offset == buf.Length - 1 {
        if grows == limit {
          return false;
        }
        var newBuf := new byte[2 * buf.Length](_ => 0);
        forall i | 0 <= i < offset {
          newBuf[i] := buf[i];
        }
        assert newBuf[..offset] == buf[..offset];
        copied := copied + buf.Length;
        buf := newBuf;
        grows := grows + 1;
      }
      DoublingsUnique(grows, offset);
    }

    method Push(c: byte)
      requires Valid() && offset < buf.Length - 1
      modifies this`offset, buf
      ensures Valid() && Bytes() == old(Bytes()) + [c] && offset == old(offset) + 1
    {
      buf[offset] := c;
      offset := offset + 1;
      assert buf[..offset] == old(buf[..offset]) + [c];
    }

    /** Shrinks to fit when realloc agrees, and terminates the string. */
    method Finish(shrinkOk: bool) returns (line: array<byte>)
      requires Valid()
      modifies buf
      ensures line == buf || fresh(line)
      ensures offset < line.Length && line[..offset] == old(Bytes()) && line[offset] == NUL
    {
      line := buf;
      if offset < buf.Length - 1 && shrinkOk {
        line := new byte[offset + 1](_ => 0);
        forall i | 0 <= i < offset {
          line[i] := buf[i];
        }
      }
      line[offset] := NUL;
    }
  }

  /** What the allocator and the memory around the buffer decide: whether malloc succeeds, how many
      doublings realloc grants, whether it shrinks, and the byte in front of the buffer. */
  datatype MemoryEnv = MemoryEnv(mallocOk: bool, grows: nat, shrinkOk: bool, before: byte)

  /** The loop test after an interrupted first read looks at the byte in front of the buffer; when
      that byte is the terminator the loop ends there. */
  predicate Misfires(events: seq<Event>, term: byte, before: byte) {
    events != [] && events[0] == Interrupt && before == term
  }

  /** The last buffer index for which the loop asks for a byte. */
  function LastIndex(s: seq<byte>, term: byte): nat {
    if term in s then |Cut(s, term)| - 1 else |s|
  }

  lemma StreamStep(events: seq<Event>)
    requires events != []
    ensures match events[0]
            case Data(b) => Stream(events) == [b] + Stream(events[1..]) && Broken(events) == Broken(events[1..])
            case Interrupt => Stream(events) == Stream(events[1..]) && Broken(events) == Broken(events[1..])
            case Failure => Stream(events) == [] && Broken(events)
  {
  }

  lemma CutAt(s: seq<byte>, n: nat, term: byte)
    requires n < |s| && s[n] == term && term !in s[..n]
    ensures Cut(s, term) == s[..n + 1] && term in s
  {
    NotInTake(s, n, term);
    var c := Cut(s, term);
    NotInTake(s, |c| - 1, term);
  }

  lemma NotInTake(s: seq<byte>, n: nat, term: byte)
    requires n <= |s|
    ensures term !in s[..n] <==> forall i | 0 <= i < n :: s[i] != term
  {
    assert forall i | 0 <= i < n :: s[..n][i] == s[i];
  }

  /** While the loop has found no terminator it has not passed the last index it can ask for. */
  lemma {:induction false} StillReading(s: seq<byte>, n: nat, term: byte)
    requires n <= |s| && term !in s[..n]
    ensures n <= LastIndex(s, term)
    ensures n < |s| ==> s[..n + 1] == s[..n] + [s[n]]
    ensures n < |s| && s[n] == term ==> term in s && s[..n + 1] == Cut(s, term)
  {
    NotInTake(s, n, term);
    if n < |s| && s[n] == term {
      CutAt(s, n, term);
    }
    if term in s {
      NotInTake(s, |Cut(s, term)| - 1, term);
    }
    hide Cut;
  }

  /** How a call ends: `line` is the buffer handed back, if any, out of the coming reads `before`,
      and `after` are the reads still to come. */
  ghost predicate ReadOutcome(before: seq<Event>, after: seq<Event>, term: byte, env: MemoryEnv,
                              flagIn: int, flag: int, line: Option<seq<byte>>)
  {
    var s := Stream(before);
    if !env.mallocOk then line == None && flag == 1 && after == before
    else if Misfires(before, term, env.before) then line == Some([]) && flag == flagIn && after == before[1..]
    else if LastIndex(s, term) >= Capacity(env.grows) - 1 then line == None && flag == 2
    else if term in s then
      && line == Some(Cut(s, term)) && flag == 0
      && Stream(after) == s[|Cut(s, term)|..] && Broken(after) == Broken(before) && |after| < |before|
    else if Broken(before) then line == None && flag == 3
    else after == [] && if s == [] then line == None && flag == 4 else line == Some(s) && flag == 5
  }

  /** The largest buffer a call asks for: what its last byte needs, or the first size refused. */
  function Peak(before: seq<Event>, term: byte, env: MemoryEnv): nat {
    if !env.mallocOk || Misfires(before, term, env.before) then INITIAL_BUFFER_SIZE
    else Capacity(Min(Doublings(LastIndex(Stream(before), term)), env.grows + 1))
  }

  /** Whatever happens, the buffer stays within twice the bytes asked for, and the int that holds its
      size does not overflow for lines below 2^30 bytes; with memory to spare it does for all others. */
  lemma {:induction false} PeakBound(before: seq<Event>, term: byte, env: MemoryEnv)
    ensures var last, peak := LastIndex(Stream(before), term), Peak(before, term, env);
            && (peak == INITIAL_BUFFER_SIZE || peak <= 2 * last + 2)
            && (last < 0x3FFF_FFFF ==> peak < 0x8000_0000)
    ensures env.mallocOk && !Misfires(before, term, env.before) ==>
              var last := LastIndex(Stream(before), term);
              last < Capacity(env.grows) - 1 ==> (Peak(before, term, env) < 0x8000_0000 <==> last < 0x3FFF_FFFF)
  {
    var last := LastIndex(Stream(before), term);
    var d := Doublings(last);
    CapacityBound(last);
    if env.grows + 1 < d {
      CapacityGrows(env.grows + 1, d);
    }
    if d > 0 && env.grows < d - 1 {
      CapacityGrows(env.grows, d - 1);
    }
  }

  /** Between two rounds of the loop: `got` is in the buffer and holds no terminator. */
  ghost predicate Filling(before: seq<Event>, now: seq<Event>, got: seq<byte>, term: byte, front: byte) {
    var s := Stream(before);
    && |got| <= |s| && got == s[..|got|] && term !in got
    && Stream(now) == s[|got|..] && Broken(now) == Broken(before)
    && |now| <= |before|
    && (got != [] ==> |now| < |before| && !Misfires(before, term, front))
    && (got == [] && front == term ==> now == before)
  }

  /** The loop test has found the terminator. */
  ghost predicate Stopped(before: seq<Event>, now: seq<Event>, got: seq<byte>, term: byte, front: byte) {
    var s := Stream(before);
    if got == [] then Misfires(before, term, front) && now == before[1..]
    else
      && !Misfires(before, term, front) && term in s && got == Cut(s, term)
      && Stream(now) == s[|got|..] && Broken(now) == Broken(before) && |now| < |before|
  }

  lemma FillByte(before: seq<Event>, now: seq<Event>, got: seq<byte>, term: byte, front: byte)
    requires Filling(before, now, got, term, front) && now != [] && now[0].Data?
    ensures var more := got + [now[0].b];
            if now[0].b == term
            then Stopped(before, now[1..], more, term, front) && LastIndex(Stream(before), term) == |got|
            else Filling(before, now[1..], more, term, front)
  {
    StreamStep(now);
    var s := Stream(before);
    assert s == got + s[|got|..];
    assert s[|got|] == now[0].b;
    StillReading(s, |got|, term);
  }

  lemma NoTerminatorYet(before: seq<Event>, now: seq<Event>, got: seq<byte>, term: byte,
                        front: byte)
    requires Filling(before, now, got, term, front)
    ensures term !in got
  {
  }

  lemma FillInterrupt(before: seq<Event>, now: seq<Event>, got: seq<byte>, term: byte, front: byte)
    requires Filling(before, now, got, term, front) && now != [] && now[0].Interrupt?
    ensures if (if got == [] then front else got[|got| - 1]) == term
            then got == [] && Stopped(before, now[1..], got, term, front)
            else Filling(before, now[1..], got, term, front)
  {
    StreamStep(now);
  }

  /** At end of file or on a failing read all of the stream has been taken. */
  lemma FillAll(before: seq<Event>, now: seq<Event>, got: seq<byte>, term: byte, front: byte)
    requires Filling(before, now, got, term, front) && (now == [] || now[0].Failure?)
    ensures got == Stream(before) && term !in Stream(before) && (Broken(before) <==> now != [])
  {
    var s := Stream(before);
    assert s[..|s|] == s;
    if now != [] {
      StreamStep(now);
    }
  }

  /** The buffer has the size that the last byte asked for needs. */
  lemma {:induction false} FillPeak(before: seq<Event>, got: seq<byte>, term: byte, env: MemoryEnv)
    requires env.mallocOk && |got| < Capacity(env.grows) - 1
    requires if Misfires(before, term, env.before) then got == [] else LastIndex(Stream(before), term) == |got|
    ensures Capacity(Doublings(|got|)) == Peak(before, term, env)
  {
    var d := Doublings(|got|);
    if d > env.grows + 1 {
      CapacityGrows(env.grows, d - 1);
    }
  }

  lemma {:induction false} FillEnd(before: seq<Event>, now: seq<Event>, got: seq<byte>, term: byte, env: MemoryEnv,
                                   flagIn: int)
    requires Filling(before, now, got, term, env.before)
    requires env.mallocOk && |got| < Capacity(env.grows) - 1
    ensures now == [] ==>
              ReadOutcome(before, [], term, env, flagIn,
                          if got == [] then 4 else 5, if got == [] then None else Some(got))
    ensures now != [] && now[0].Failure? ==> ReadOutcome(before, now[1..], term, env, flagIn, 3, None)
    ensures now == [] || now[0].Failure? ==> Capacity(Doublings(|got|)) == Peak(before, term, env)
  {
    hide Peak;
    if now == [] || now[0].Failure? {
      FillAll(before, now, got, term, env.before);
      FillPeak(before, got, term, env);
    }
  }

  lemma FillMisfire(before: seq<Event>, now: seq<Event>, got: seq<byte>, term: byte, env: MemoryEnv)
    requires env.mallocOk && |got| < Capacity(env.grows) - 1
    ensures got == [] && Stopped(before, now, got, term, env.before) ==>
              Capacity(Doublings(|got|)) == Peak(before, term, env)
  {
    if got == [] && Stopped(before, now, got, term, env.before) {
      FillPeak(before, got, term, env);
    }
  }

  lemma FillLast(before: seq<Event>, now: seq<Event>, got: seq<byte>, c: byte, term: byte,
                 env: MemoryEnv)
    requires env.mallocOk && |got| < Capacity(env.grows) - 1
    requires c == term ==> Stopped(before, now, got + [c], term, env.before) && LastIndex(Stream(before), term) == |got|
    ensures c == term ==> Capacity(Doublings(|got|)) == Peak(before, term, env)
  {
    if c == term {
      FillPeak(before, got, term, env);
    }
  }

  lemma FillFull(before: seq<Event>, now: seq<Event>, got: seq<byte>, term: byte,
                 env: MemoryEnv, flagIn: int)
    requires Filling(before, now, got, term, env.before)
    requires env.mallocOk && |got| >= Capacity(env.grows) - 1
    ensures ReadOutcome(before, now, term, env, flagIn, 2, None)
    ensures |got| == Capacity(env.grows) - 1 ==> 2 * Capacity(env.grows) == Peak(before, term, env)
  {
    StillReading(Stream(before), |got|, term);
    var last := LastIndex(Stream(before), term);
    if |got| == Capacity(env.grows) - 1 {
      var d := Doublings(last);
      if d < env.grows {
        CapacityGrows(d, env.grows);
      }
    }
  }

  lemma NoPeak(before: seq<Event>, term: byte, env: MemoryEnv)
    requires !env.mallocOk
    ensures Peak(before, term, env) == INITIAL_BUFFER_SIZE
  {
  }

  lemma FillStopped(before: seq<Event>, now: seq<Event>, got: seq<byte>, term: byte,
                    env: MemoryEnv, flagIn: int)
    requires Stopped(before, now, got, term, env.before)
    requires env.mallocOk && (got != [] ==> LastIndex(Stream(before), term) < Capacity(env.grows) - 1)
    ensures ReadOutcome(before, now, term, env, flagIn, if got == [] then flagIn else 0, Some(got))
  {
  }

  lemma FillStart(before: seq<Event>, term: byte, front: byte)
    ensures Filling(before, before, [], term, front)
  {
  }

  /** How one round of the loop ends: the loop test fails to find the terminator, finds it, the
      stream ends with bytes in the buffer, or the call returns NULL. */
  datatype Round = Again | Found | AtEof | GaveUp

  method FillOnce(fd: Fd, line: LineBuffer, term: byte, env: MemoryEnv, flagNow: int,
                  ghost before: seq<Event>, ghost flagIn: int)
    returns (flag: int, round: Round)
    requires fd.Valid() && line.Valid() && line !in fd.Repr && line.buf !in fd.Repr
    requires env.mallocOk && flagNow == if line.offset > 0 then 0 else flagIn
    requires line.offset < Capacity(env.grows) - 1 && line.offset < line.buf.Length - 1
    requires line.grows == Doublings(line.offset)
    requires Filling(before, fd.events, line.Bytes(), term, env.before)
    modifies line`offset, line.buf, fd, fd.Devices()`locked, fd.Files()
    ensures fd.Valid() && line.Valid()
    ensures |fd.events| <= |old(fd.events)|
    ensures round.Again? || round.Found? ==> flag == if line.offset > 0 then 0 else flagIn
    ensures round.Again? ==>
              Filling(before, fd.events, line.Bytes(), term, env.before) && |fd.events| < |old(fd.events)|
    ensures round.Found? ==>
              && Stopped(before, fd.events, line.Bytes(), term, env.before)
              && (line.offset > 0 ==> LastIndex(Stream(before), term) < Capacity(env.grows) - 1)
    ensures round.AtEof? ==>
              line.offset > 0 && ReadOutcome(before, fd.events, term, env, flagIn, flag, Some(line.Bytes()))
    ensures round.GaveUp? ==> ReadOutcome(before, fd.events, term, env, flagIn, flag, None)
    ensures !round.Again? ==> line.buf.Length == Peak(before, term, env)
  {
    hide Fd.Valid, Filling, Stopped, LastIndex, Stream, Capacity, Doublings, ReadOutcome, Peak;
    flag := flagNow;
    ghost var now, got := fd.events, line.Bytes();
    FillEnd(before, now, got, term, env, flagIn);
    var numRead, c, interrupted := fd.Read();
    if numRead == -1 {
      if !interrupted {
        return 3, GaveUp;
      }
      FillInterrupt(before, now, got, term, env.before);
      FillMisfire(before, fd.events, got, term, env);
    } else if numRead == 0 {
      if line.offset == 0 {
        return 4, GaveUp;
      }
      return 5, AtEof;
    } else {
      FillByte(before, now, got, term, env.before);
      FillLast(before, fd.events, got, c, term, env);
      line.Push(c);
      flag := 0;
    }
    var last := if line.offset == 0 then env.before else line.buf[line.offset - 1];
    round := if last == term then Found else Again;
  }

  method ReadUntilTerm(fd: Fd, term: byte, flagIn: int, countIn: nat, env: MemoryEnv)
    returns (buf: array?<byte>, flag: int, bytesRead: nat, ghost peak: nat, ghost copied: nat)
    requires fd.Valid()
    modifies fd, fd.Devices()`locked, fd.Files()
    ensures fd.Valid()
    // the buffer handed back is a fresh C string
    ensures buf != null ==> fresh(buf) && bytesRead < buf.Length && buf[bytesRead] == NUL
    ensures buf == null ==> bytesRead == countIn
    ensures ReadOutcome(old(fd.events), fd.events, term, env, flagIn, flag,
                        if buf == null then None else Some(buf[..bytesRead]))
    // the index stays below the capacity, and growth copies no more than it adds
    ensures peak == Peak(old(fd.events), term, env) && copied + INITIAL_BUFFER_SIZE <= peak
    ensures buf != null ==> bytesRead < peak
  {
    hide Fd.Valid, Filling, Stopped, LastIndex, Stream, Capacity, Peak, Doublings;
    flag, bytesRead, peak, copied := flagIn, countIn, INITIAL_BUFFER_SIZE, 0;
    buf := null;
    if !env.mallocOk {
      NoPeak(fd.events, term, env);
      flag := 1;
      return;
    }
    hide ReadOutcome;
    ghost var before := fd.events;
    var line := new LineBuffer();
    var round := Again;
    FillStart(before, term, env.before);
    while round.Again?
      invariant fd.Valid() && line.Valid() && fresh(line.buf) && line.grows <= env.grows
      invariant round.Again? || round.Found? ==> flag == if line.offset > 0 then 0 else flagIn
      invariant round.Again? ==> Filling(before, fd.events, line.Bytes(), term, env.before)
      invariant round.Found? ==>
                  && Stopped(before, fd.events, line.Bytes(), term, env.before)
                  && (line.offset > 0 ==> LastIndex(Stream(before), term) < Capacity(env.grows) - 1)
      invariant round.AtEof? ==> ReadOutcome(before, fd.events, term, env, flagIn, flag, Some(line.Bytes()))
      invariant round.GaveUp? ==> ReadOutcome(before, fd.events, term, env, flagIn, flag, None)
      invariant !round.Again? ==> line.buf.Length == Peak(before, term, env)
      decreases |fd.events|, round.Again?
    {
      var ok := line.Reserve(env.grows);
      if !ok {
        FillFull(before, fd.events, line.Bytes(), term, env, flagIn);
        return null, 2, countIn, 2 * line.buf.Length, line.copied;
      }
      flag, round := FillOnce(fd, line, term, env, flag, before, flagIn);
    }
    peak, copied := line.buf.Length, line.copied;
    if round.GaveUp? {
      return;
    }
    if round.Found? {
      FillStopped(before, fd.events, line.Bytes(), term, env, flagIn);
    }
    bytesRead := line.offset;
    buf := line.Finish(env.shrinkOk);
  }

  /** What the header of the function promises: the stream up to and including the terminator, or up
      to end of file, which is also where it is to stop for the terminator NUL. */
  function Promised(events: seq<Event>, term: byte): Option<seq<byte>> {
    var s := Stream(events);
    if term != NUL && term in s then Some(Cut(s, term))
    else if Broken(events) || s == [] then None
    else Some(s)
  }

  /** The first NUL is the last byte. */
  predicate EndsAtNul(s: seq<byte>) {
    s != [] && s[|s| - 1] == NUL && NUL !in s[..|s| - 1]
  }

  /** With memory to spare the promise is kept exactly when the first read is not interrupted in
      front of a byte equal to the terminator and, for the terminator NUL, the first NUL of the stream
      is its end. */
  lemma PromiseExactly(before: seq<Event>, after: seq<Event>, term: byte, env: MemoryEnv,
                       flagIn: int, flag: int, line: Option<seq<byte>>)
    requires ReadOutcome(before, after, term, env, flagIn, flag, line)
    requires env.mallocOk && LastIndex(Stream(before), term) < Capacity(env.grows) - 1
    ensures line == Promised(before, term)
       <==> && !Misfires(before, term, env.before)
            && (term == NUL && NUL in Stream(before) ==> !Broken(before) && EndsAtNul(Stream(before)))
  {
    var s := Stream(before);
    hide Stream, Broken, Capacity, LastIndex;
    if NUL in s {
      if EndsAtNul(s) {
        CutAt(s, |s| - 1, NUL);
        assert s[..|s|] == s;
      } else {
        assert Cut(s, NUL) != s;
      }
    }
  }

  /** The return flags as they are documented, for a call that does not misfire: each one tells which of
      the six ends it came to. */
  lemma FlagsAsDocumented(before: seq<Event>, after: seq<Event>, term: byte, env: MemoryEnv,
                          flagIn: int, flag: int, line: Option<seq<byte>>)
    requires ReadOutcome(before, after, term, env, flagIn, flag, line)
    requires !(env.mallocOk && Misfires(before, term, env.before))
    ensures 0 <= flag <= 5 && (line.Some? <==> flag == 0 || flag == 5)
    ensures flag == 0 <==> line.Some? && term in line.value
    ensures flag == 1 <==> !env.mallocOk
    ensures flag == 2 <==> env.mallocOk && LastIndex(Stream(before), term) >= Capacity(env.grows) - 1
    ensures flag == 3 ==> Broken(before) && term !in Stream(before)
    ensures flag == 4 ==> !Broken(before) && Stream(before) == [] && after == []
    ensures flag == 5 ==> !Broken(before) && after == [] && line == Some(Stream(before)) && term !in Stream(before)
  {
  }

  /** The reader stops at a NUL although its header has it read on. */
  lemma NulExample(env: MemoryEnv)
    requires env.mallocOk
    ensures var before := [Data(NUL), Data(1)];
            && ReadOutcome(before, [Data(1)], NUL, env, -1, 0, Some([NUL]))
            && Promised(before, NUL) == Some([NUL, 1])
  {
    var before := [Data(NUL), Data(1)];
    assert before[1..] == [Data(1)] && before[1..][1..] == [];
    assert Stream(before[1..]) == [1];
    assert Stream(before) == [NUL, 1];
  }

  // --------------------------------------------------------- repeated calls

  datatype Call = Call(env: MemoryEnv, flagIn: int, flag: int, line: Option<seq<byte>>)

  /** Calls made one after another: `ahead[i]` are the reads to come before the i-th of them. */
  ghost predicate Linked(ahead: seq<seq<Event>>, calls: seq<Call>, term: byte) {
    && |ahead| == |calls| + 1
    && forall i | 0 <= i < |calls| ::
         ReadOutcome(ahead[i], ahead[i + 1], term, calls[i].env, calls[i].flagIn, calls[i].flag, calls[i].line)
  }

  /** The buffers handed back, in order. */
  function Returned(calls: seq<Call>): seq<seq<byte>> {
    if calls == [] then []
    else (match calls[0].line case None => [] case Some(line) => [line]) + Returned(calls[1..])
  }

  lemma LinkedRest(ahead: seq<seq<Event>>, calls: seq<Call>, term: byte)
    requires Linked(ahead, calls, term) && calls != []
    ensures Linked(ahead[1..], calls[1..], term)
    ensures ReadOutcome(ahead[0], ahead[1], term, calls[0].env, calls[0].flagIn, calls[0].flag, calls[0].line)
  {
    hide ReadOutcome;
    forall i | 0 <= i < |calls| - 1
      ensures ReadOutcome(ahead[1..][i], ahead[1..][i + 1], term, calls[1..][i].env, calls[1..][i].flagIn,
                          calls[1..][i].flag, calls[1..][i].line)
    {
      assert ahead[1..][i] == ahead[i + 1] && ahead[1..][i + 1] == ahead[i + 2] && calls[1..][i] == calls[i + 1];
    }
  }

  lemma PieceTaken(before: seq<Event>, after: seq<Event>, term: byte, env: MemoryEnv,
                   flagIn: int, flag: int, line: seq<byte>)
    requires ReadOutcome(before, after, term, env, flagIn, flag, Some(line))
    ensures line + Stream(after) == Stream(before)
  {
    if Misfires(before, term, env.before) {
      StreamStep(before);
    }
  }

  /** Whatever the interruptions and flags, as long as every call hands back a buffer the buffers and
      what is still unread concatenate to the stream. */
  lemma {:induction false} PiecesConcatenate(ahead: seq<seq<Event>>, calls: seq<Call>, term: byte)
    requires Linked(ahead, calls, term)
    requires forall i | 0 <= i < |calls| :: calls[i].line.Some?
    ensures Flatten(Returned(calls)) + Stream(ahead[|calls|]) == Stream(ahead[0])
  {
    if calls != [] {
      hide ReadOutcome, Linked, Stream;
      LinkedRest(ahead, calls, term);
      var line := calls[0].line.value;
      PieceTaken(ahead[0], ahead[1], term, calls[0].env, calls[0].flagIn, calls[0].flag, line);
      PiecesConcatenate(ahead[1..], calls[1..], term);
      LinkedLength(ahead, calls, term);
      var rest := Returned(calls[1..]);
      assert Flatten(Returned(calls)) == line + Flatten(rest) by {
        assert Returned(calls) == [line] + rest;
        FlattenAppend([line], rest);
        FlattenSingle(line);
      }
      hide *;
      Grouped(line, Flatten(rest), Stream(ahead[|calls|]));
    }
  }

  lemma LinkedLength(ahead: seq<seq<Event>>, calls: seq<Call>, term: byte)
    requires Linked(ahead, calls, term)
    ensures |ahead| == |calls| + 1
  {
  }

  /** The calls go on until one of them finds no newline ahead, and none is short of memory. */
  ghost predicate ToTheEnd(ahead: seq<seq<Event>>, calls: seq<Call>)
    requires |ahead| == |calls| + 1
  {
    && calls != []
    && (forall i | 0 <= i < |calls| ::
         (NEWLINE in Stream(ahead[i]) <==> i < |calls| - 1) && Roomy(Stream(ahead[i]), calls[i].env))
  }

  /** The memory granted is enough for the next line. */
  predicate Roomy(s: seq<byte>, env: MemoryEnv) {
    env.mallocOk && LastIndex(s, NEWLINE) < Capacity(env.grows) - 1
  }

  /** The lines of a byte string and then its tail, if it has one. */
  function Pieces(s: seq<byte>): seq<seq<byte>> {
    LinesOf(s) + if TailOf(s) == [] then [] else [TailOf(s)]
  }

  /** Read to the end of an unbroken stream, line by line, the buffers handed back are exactly its
      lines and then its unterminated tail, if and only if no call misfires. */
  lemma CallsYieldLines(ahead: seq<seq<Event>>, calls: seq<Call>)
    requires Linked(ahead, calls, NEWLINE) && ToTheEnd(ahead, calls) && !Broken(ahead[0])
    ensures Returned(calls) == Pieces(Stream(ahead[0]))
       <==> forall i | 0 <= i < |calls| :: !Misfires(ahead[i], NEWLINE, calls[i].env.before)
  {
    if forall i | 0 <= i < |calls| :: !Misfires(ahead[i], NEWLINE, calls[i].env.before) {
      CleanCalls(ahead, calls);
    } else {
      var i :| 0 <= i < |calls| && Misfires(ahead[i], NEWLINE, calls[i].env.before);
      var c := calls[i];
      assert ReadOutcome(ahead[i], ahead[i + 1], NEWLINE, c.env, c.flagIn, c.flag, c.line);
      assert Roomy(Stream(ahead[i]), c.env) && c.line == Some([]);
      ReturnedHas(calls, i);
      NoEmptyPiece(Stream(ahead[0]));
    }
  }

  lemma {:induction false} CleanCalls(ahead: seq<seq<Event>>, calls: seq<Call>)
    requires Linked(ahead, calls, NEWLINE) && ToTheEnd(ahead, calls) && !Broken(ahead[0])
    requires forall i | 0 <= i < |calls| :: !Misfires(ahead[i], NEWLINE, calls[i].env.before)
    ensures Returned(calls) == Pieces(Stream(ahead[0]))
  {
    LinkedRest(ahead, calls, NEWLINE);
    var s, s2 := Stream(ahead[0]), Stream(ahead[1]);
    if |calls| > 1 {
      assert NEWLINE in s;
      assert calls[0].line == Some(Cut(s, NEWLINE)) && s2 == s[|Cut(s, NEWLINE)|..] && !Broken(ahead[1]);
      hide ReadOutcome, Stream, Misfires, LastIndex, Capacity;
      CleanCalls(ahead[1..], calls[1..]);
      assert LinesOf(s) == [Cut(s, NEWLINE)] + LinesOf(s2) && TailOf(s) == TailOf(s2);
    } else {
      assert NEWLINE !in s && Returned(calls[1..]) == [];
    }
  }

  lemma {:induction false} ReturnedHas(calls: seq<Call>, i: nat)
    requires i < |calls| && calls[i].line.Some?
    ensures calls[i].line.value in Returned(calls)
  {
    if i > 0 {
      ReturnedHas(calls[1..], i - 1);
    }
  }

  lemma NoEmptyPiece(s: seq<byte>)
    ensures [] !in Pieces(s)
  {
    LinesAreLines(s);
  }

  // ------------------------------------------------------------- readLine

  /** How a bounded read ends: `stored` are the bytes left in the caller's buffer. */
  ghost predicate LineOutcome(before: seq<Event>, after: seq<Event>, n: nat, ret: int, stored: seq<byte>)
    requires n > 0
  {
    var s := Stream(before);
    if NEWLINE in s then
      && Stream(after) == s[|Cut(s, NEWLINE)|..] && Broken(after) == Broken(before)
      && stored == Cut(s, NEWLINE)[..Min(n - 1, |Cut(s, NEWLINE)|)] && ret == |stored|
    else if Broken(before) then ret == -1
    else after == [] && stored == s[..Min(n - 1, |s|)] && ret == |stored|
  }

  /** The truncating reader keeps the first n - 1 bytes of what the growing reader returns, and both
      leave the descriptor at the same place in the stream. */
  lemma ReadersAgree(before: seq<Event>, after: seq<Event>, after2: seq<Event>, env: MemoryEnv,
                     flagIn: int, flag: int, line: seq<byte>, n: nat, ret: int, stored: seq<byte>)
    requires ReadOutcome(before, after, NEWLINE, env, flagIn, flag, Some(line))
    requires !Misfires(before, NEWLINE, env.before) && n > 0
    requires LineOutcome(before, after2, n, ret, stored)
    ensures stored == line[..Min(n - 1, |line|)] && ret == |stored|
    ensures Stream(after) == Stream(after2)
  {
  }

  /** Where the growing reader hands back no line, memory apart, the truncating one fails or stores nothing. */
  lemma ReadersFail(before: seq<Event>, after: seq<Event>, after2: seq<Event>, env: MemoryEnv,
                    flagIn: int, flag: int, n: nat, ret: int, stored: seq<byte>)
    requires ReadOutcome(before, after, NEWLINE, env, flagIn, flag, None) && Roomy(Stream(before), env)
    requires n > 0 && LineOutcome(before, after2, n, ret, stored)
    ensures (flag == 3 && ret == -1) || (flag == 4 && ret == 0 && stored == [])
  {
  }

  lemma LineEnd(before: seq<Event>, now: seq<Event>, got: seq<byte>, n: nat)
    requires n > 0 && Filling(before, now, got, NEWLINE, NUL)
    ensures var kept := Min(n - 1, |got|);
            now == [] ==> LineOutcome(before, [], n, kept, got[..kept]) && NEWLINE !in Stream(before)
    ensures now != [] && now[0].Failure? ==> LineOutcome(before, now[1..], n, -1, [])
  {
    if now == [] || now[0].Failure? {
      FillAll(before, now, got, NEWLINE, NUL);
    }
  }

  lemma LineStopped(before: seq<Event>, now: seq<Event>, got: seq<byte>, n: nat)
    requires n > 0 && got != [] && Stopped(before, now, got, NEWLINE, NUL)
    ensures var kept := Min(n - 1, |got|);
            LineOutcome(before, now, n, kept, got[..kept]) && NEWLINE in Stream(before)
  {
  }

  /** Stores one more byte when there is room for it. */
  method Keep(buffer: array<byte>, n: nat, ch: byte, totRead: nat, ghost got: seq<byte>) returns (kept: nat)
    requires 0 < n <= buffer.Length && totRead == Min(n - 1, |got|) && buffer[..totRead] == got[..totRead]
    modifies buffer
    ensures kept == Min(n - 1, |got| + 1) && buffer[..kept] == (got + [ch])[..kept]
    ensures kept == 0 ==> buffer[..] == old(buffer[..])
  {
    kept := totRead;
    if totRead < n - 1 {
      kept := totRead + 1;
      buffer[totRead] := ch;
      assert buffer[..kept] == old(buffer[..totRead]) + [ch];
    } else {
      assert (got + [ch])[..kept] == got[..kept];
    }
  }

  method ReadLine(fd: Fd, buffer: array?<byte>, n: nat) returns (ret: int)
    requires fd.Valid()
    requires buffer != null ==> n <= buffer.Length && buffer !in fd.Repr
    modifies fd, fd.Devices()`locked, fd.Files(), (if buffer == null then {} else {buffer})
    ensures fd.Valid()
    ensures n == 0 || buffer == null ==>
              ret == -1 && fd.events == old(fd.events) && (buffer != null ==> buffer[..] == old(buffer[..]))
    ensures n > 0 && buffer != null ==>
              && ret < n
              && LineOutcome(old(fd.events), fd.events, n, ret, if ret < 0 then [] else buffer[..ret])
              // terminated, unless end of file came with nothing stored
              && (ret > 0 || (ret == 0 && NEWLINE in Stream(old(fd.events))) ==> buffer[ret] == NUL)
              && (ret == 0 && NEWLINE !in Stream(old(fd.events)) ==> buffer[..] == old(buffer[..]))
  {
    hide Fd.Valid, Filling, Stopped, Stream, LineOutcome, LastIndex, Cut;
    if n == 0 || buffer == null {
      return -1;
    }
    ghost var before, got := fd.events, [];
    FillStart(before, NEWLINE, NUL);
    var totRead := 0;
    while true
      invariant fd.Valid() && Filling(before, fd.events, got, NEWLINE, NUL)
      invariant totRead == Min(n - 1, |got|) && buffer[..totRead] == got[..totRead]
      invariant totRead == 0 ==> buffer[..] == old(buffer[..])
      decreases |fd.events|
    {
      ghost var now := fd.events;
      LineEnd(before, now, got, n);
      var numRead, ch, interrupted := fd.Read();
      if numRead == -1 {
        if !interrupted {
          return -1;
        }
        NoTerminatorYet(before, now, got, NEWLINE, NUL);
        FillInterrupt(before, now, got, NEWLINE, NUL);
      } else if numRead == 0 {
        if totRead == 0 {
          return 0;
        }
        break;
      } else {
        FillByte(before, now, got, NEWLINE, NUL);
        totRead := Keep(buffer, n, ch, totRead, got);
        got := got + [ch];
        if ch == NEWLINE {
          LineStopped(before, fd.events, got, n);
          break;
        }
      }
    }
    buffer[totRead] := NUL;
    assert buffer[..totRead] == got[..totRead];
    ret := totRead;
  }

  // ------------------------------------------------------- the read-back loop

  lemma {:induction false} CStrStops(s: seq<byte>, n: nat)
    requires n < |s| && s[n] == NUL
    ensures CStr(s) == CStr(s[..n])
  {
    if n > 0 && s[0] != NUL {
      CStrStops(s[1..], n - 1);
      assert s[..n][1..] == s[1..][..n - 1];
    }
  }

  /** What the loop sends when the allocator grants what `env` says: the lines up to the first one that
      does not fit. */
  function EchoWithin(s: seq<byte>, env: MemoryEnv): seq<byte>
    decreases |s|
  {
    if NEWLINE in s && Roomy(s, env) then CStr(Cut(s, NEWLINE)) + EchoWithin(s[|Cut(s, NEWLINE)|..], env) else []
  }

  /** What is still to be read when the loop makes its last call. */
  function LastPiece(s: seq<byte>, env: MemoryEnv): seq<byte>
    decreases |s|
  {
    if NEWLINE in s && Roomy(s, env) then LastPiece(s[|Cut(s, NEWLINE)|..], env) else s
  }

  lemma EchoWithinStep(s: seq<byte>, env: MemoryEnv)
    ensures if NEWLINE in s && Roomy(s, env)
            then var rest := s[|Cut(s, NEWLINE)|..];
                 && EchoWithin(s, env) == CStr(Cut(s, NEWLINE)) + EchoWithin(rest, env)
                 && LastPiece(s, env) == LastPiece(rest, env)
            else EchoWithin(s, env) == [] && LastPiece(s, env) == s
  {
  }

  /** With memory for all of it the loop sends every line and ends at the tail. */
  lemma {:induction false} AmpleEcho(s: seq<byte>, env: MemoryEnv)
    requires env.mallocOk && |s| < Capacity(env.grows) - 1
    ensures EchoWithin(s, env) == Echo(s) && LastPiece(s, env) == TailOf(s) && Roomy(TailOf(s), env)
    decreases |s|
  {
    if NEWLINE in s {
      AmpleEcho(s[|Cut(s, NEWLINE)|..], env);
    }
  }

  /** What the loop sends and whether it sets the success flag: it does when it ends inside a line. */
  ghost predicate LoopOutcome(before: seq<Event>, env: MemoryEnv, sent: seq<byte>, success: bool) {
    var last := LastPiece(Stream(before), env);
    if env.mallocOk && Misfires(before, NEWLINE, env.before) then sent == [] && !success
    else
      && sent == EchoWithin(Stream(before), env)
      && (success <==> Roomy(last, env) && last != [] && !Broken(before))
  }

  /** What one call of the loop tells about the outcome: with flag 0 one line less is to be sent, with
      any other flag nothing more is, and the last flag says how the loop ends. */
  lemma RoundOutcome(now: seq<Event>, after: seq<Event>, env: MemoryEnv, flagIn: int, flag: int,
                     line: Option<seq<byte>>)
    requires ReadOutcome(now, after, NEWLINE, env, flagIn, flag, line) && (flagIn == -1 || flagIn == 0)
    ensures flag == 0 ==>
              && line.Some? && Broken(after) == Broken(now) && |after| < |now|
              && EchoWithin(Stream(now), env) == CStr(line.value) + EchoWithin(Stream(after), env)
              && LastPiece(Stream(now), env) == LastPiece(Stream(after), env)
              && (flagIn == -1 ==> !Misfires(now, NEWLINE, env.before))
    ensures flag != 0 && flag != flagIn ==>
              && EchoWithin(Stream(now), env) == [] && LastPiece(Stream(now), env) == Stream(now)
              && (flag == 5 <==> Roomy(Stream(now), env) && Stream(now) != [] && !Broken(now))
              && (flag == 4 || flag == 5 ==> (line.Some? <==> flag == 5))
              && (flagIn == -1 ==> !(env.mallocOk && Misfires(now, NEWLINE, env.before)))
    ensures flag == flagIn == -1 ==> env.mallocOk && Misfires(now, NEWLINE, env.before)
    ensures flag != flagIn ==> 0 <= flag <= 5
  {
    hide Stream, Capacity, EchoWithin, LastPiece;
    EchoWithinStep(Stream(now), env);
    if now != [] {
      StreamStep(now);
    }
    assert CStr([]) + EchoWithin(Stream(now), env) == EchoWithin(Stream(now), env);
  }

  /** Line after line is read and sent until the stream ends, a read fails or memory runs out. An
      interrupted first read that stops at the byte in front of the buffer ends the loop at once. */
  method SendBack(fd: Fd, env: MemoryEnv) returns (sent: seq<byte>, success: bool)
    requires fd.Valid()
    modifies fd, fd.Devices()`locked, fd.Files()
    ensures fd.Valid()
    ensures LoopOutcome(old(fd.events), env, sent, success)
  {
    hide Fd.Valid, Stream, Broken, ReadOutcome, Misfires, Roomy, Peak, EchoWithin, LastPiece, CStr;
    sent, success := [], false;
    var flag, bytesRead := -1, 0;
    ghost var s := Stream(fd.events);
    while true
      invariant fd.Valid() && Broken(fd.events) == Broken(old(fd.events))
      invariant flag == -1 || flag == 0
      invariant flag == -1 ==> fd.events == old(fd.events)
      invariant flag == 0 ==> !Misfires(old(fd.events), NEWLINE, env.before)
      invariant sent + EchoWithin(Stream(fd.events), env) == EchoWithin(s, env)
      invariant LastPiece(Stream(fd.events), env) == LastPiece(s, env)
      invariant !success
      decreases |fd.events|
    {
      ghost var now, flagIn := fd.events, flag;
      var buf;
      ghost var peak, copied;
      buf, flag, bytesRead, peak, copied := ReadUntilTerm(fd, NEWLINE, flag, bytesRead, env);
      RoundOutcome(now, fd.events, env, flagIn, flag, if buf == null then None else Some(buf[..bytesRead]));
      if flag == 5 || flag == 4 {
        if buf != null {
          success := true;
        }
        break;
      } else if flag == 1 || flag == 2 || flag == 3 {
        break;
      } else if flag == 0 {
        CStrStops(buf[..], bytesRead);
        assert buf[..][..bytesRead] == buf[..bytesRead];
        sent := sent + CStr(buf[..]);
      } else {
        break;
      }
    }
  }

  /** The line a session works on is what the reader hands back for the client's socket, and there is no
      session under the lock exactly when it hands back none. */
  lemma ReceivedLine(before: seq<Event>, after: seq<Event>, env: MemoryEnv, flagIn: int, flag: int,
                     line: Option<seq<byte>>, c: Client)
    requires ReadOutcome(before, after, NEWLINE, env, flagIn, flag, line)
    requires Roomy(Stream(before), env) && !Broken(before)
    requires c.input == Stream(before) && c.misfires == Misfires(before, NEWLINE, env.before)
    ensures line == if NoLine(c) then None else Some(LineOf(c))
  {
  }

  // -------------------------------------------- a session's critical section

  lemma ContentsAfter(l: Log, text: seq<byte>, after: byte)
    ensures |Contents(Write(l, text, after))| <= |Contents(l)| + |l.pending| + |text|
  {
    StreamParts(l);
    StreamParts(Write(l, text, after));
    WriteAccepts(l, text, after);
    EvictedGrows(l, [WriteOp(text, after)]);
    assert Run(l, [WriteOp(text, after)]) == Run(Write(l, text, after), []) == Write(l, text, after);
  }

  /** What a section does to the device: an interrupted or failed call does nothing, and a write may be
      cut short. */
  function AfterSection(l: Log, r: Request, env: WriteEnv): Dev
    requires r.Append? ==> env.copied <= |r.text|
  {
    match r
    case Append(text) =>
      if env.interrupted || !env.entryOk || env.where == NULL then Dev(l, false)
      else if text == [] && l.pending == [] then Dev(l, true)
      else Dev(Write(l, text[..env.copied], env.after), false)
    case SeekTo(cmd, off) => Dev(l, !env.interrupted && KeepsLock(l, cmd, off))
  }

  /** Where it starts to read back: an interrupted seek leaves the position at 0. */
  function SectionStart(l: Log, r: Request, env: WriteEnv): nat {
    if env.interrupted then 0 else StartPos(l, r)
  }

  /** No call of the section is interrupted, fails or is cut short. */
  predicate Smooth(r: Request, env: WriteEnv) {
    !env.interrupted && (r.Append? ==> env.entryOk && env.where != NULL && env.copied == |r.text|)
  }

  lemma SmoothSection(l: Log, r: Request, env: WriteEnv)
    requires Smooth(r, env)
    ensures AfterSection(l, r, env) == Effect(Dev(l, false), r, env.after)
    ensures SectionStart(l, r, env) == StartPos(l, r)
  {
    EffectBlocks(Dev(l, false), r, env.after);
    if r.Append? {
      assert r.text[..|r.text|] == r.text;
    }
  }

  /** The reads of the device that a section makes when it reads back. */
  function SectionReads(l: Log, r: Request, env: WriteEnv, signals: seq<bool>): seq<Event>
    requires r.Append? ==> env.copied <= |r.text|
    requires SectionStart(l, r, env) <= |Contents(AfterSection(l, r, env).log)|
  {
    DeviceEvents(signals, Contents(AfterSection(l, r, env).log)[SectionStart(l, r, env)..])
  }

  lemma SectionStarts(l: Log, r: Request, env: WriteEnv)
    requires r.Append? ==> env.copied <= |r.text|
    ensures SectionStart(l, r, env) <= |Contents(AfterSection(l, r, env).log)|
  {
  }

  /** What a thread does under the server lock with the line it has read: open the device, write the
      line or seek, read back to the end, close. When the device lock is left held, by a refused seek
      or a write that faults, the section does not come to its end: it is `stuck`. */
  method ServeLine(dev: Device, line: seq<byte>, wenv: WriteEnv, menv: MemoryEnv, signals: seq<bool>)
    returns (reply: seq<byte>, success: bool, stuck: bool)
    requires dev.Valid() && !dev.locked && wenv.where !in dev.heap
    requires Parse(line).Append? ==> wenv.copied <= |Parse(line).text|
    requires |Contents(dev.log)| + |dev.log.pending| + |line| < LOFF_MAX
    modifies dev, dev.ring, dev.ring.entry
    ensures dev.Valid()
    ensures Dev(dev.log, dev.locked) == AfterSection(old(dev.log), Parse(line), wenv) && stuck == dev.locked
    ensures SectionStart(old(dev.log), Parse(line), wenv) <= |Contents(dev.log)|
    ensures if stuck then reply == [] && !success
            else LoopOutcome(SectionReads(old(dev.log), Parse(line), wenv, signals), menv, reply, success)
  {
    hide Owns, Unrolls, Contents, Commands, Write, Parse, CStr, Capacity, LoopOutcome, KeepsLock;
    ghost var before := dev.log;
    reply, success, stuck := [], false, false;
    SectionStarts(before, Parse(line), wenv);
    var file := new File();
    match Parse(line) {
      case Append(text) =>
        TextInLine(line);
        ContentsAfter(dev.log, text[..wenv.copied], wenv.after);
        var r := dev.Llseek(file, 0, SEEK_SET);
        r, stuck := dev.Write(file, text, wenv);
        if stuck {
          return;
        }
        r := dev.Llseek(file, 0, SEEK_SET);
      case SeekTo(cmd, off) =>
        SeekInContents(dev.log, cmd, off);
        LockLeakExactly(dev.log, cmd, off);
        var r := dev.AdjustFileOffset(file, cmd, off, wenv.interrupted);
        if dev.locked {
          stuck := true;
          return;
        }
    }
    assert file.fPos == SectionStart(before, Parse(line), wenv);
    var fd := new Fd.OnDevice(dev, file, signals);
    reply, success := SendBack(fd, menv);
  }

  /** When its calls go smoothly and memory suffices, a section has the effect and the reply of the
      single step of the protocol, unless its first read misfires, and then it sends nothing. */
  lemma SectionIsProtocol(l: Log, r: Request, wenv: WriteEnv, menv: MemoryEnv, signals: seq<bool>,
                          reply: seq<byte>, success: bool)
    requires Smooth(r, wenv)
    requires var d := Effect(Dev(l, false), r, wenv.after);
             menv.mallocOk && |Contents(d.log)| < Capacity(menv.grows) - 1 && !d.locked
    requires SectionStart(l, r, wenv) <= |Contents(AfterSection(l, r, wenv).log)|
    requires LoopOutcome(SectionReads(l, r, wenv, signals), menv, reply, success)
    ensures var rest := ReadBack(Dev(l, false), r, wenv.after);
            if Misfires(DeviceEvents(signals, rest), NEWLINE, menv.before) then reply == [] && !success
            else reply == Reply(Dev(l, false), r, wenv.after) && (success <==> TailOf(rest) != [])
  {
    SmoothSection(l, r, wenv);
    var rest := ReadBack(Dev(l, false), r, wenv.after);
    DeviceStream(signals, rest);
    AmpleEcho(rest, menv);
  }

  lemma TextInLine(line: seq<byte>)
    ensures Parse(line).Append? ==> |Parse(line).text| <= |line|
  {
  }
}
