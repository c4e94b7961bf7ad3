/** What one client session does to the device and what it sends back, as a single step. */
module Protocol {
  import opened Bytes
  import opened Lines
  import opened CircularBuffer
  import opened DeviceLog

  /** The bytes of "AESDCHAR_IOCSEEKTO". */
  const SEEK_TAG: seq<byte> := [65, 69, 83, 68, 67, 72, 65, 82, 95, 73, 79, 67, 83, 69, 69, 75, 84, 79]

  datatype Request = Append(text: seq<byte>) | SeekTo(cmd: nat, off: nat)

  /** A (signed) char minus '0', stored into an unsigned 32-bit field. */
  function Digit(c: byte): nat {
    ((if c < 128 then c as int else c as int - 256) - 48) % 0x1_0000_0000
  }

  /** A line of exactly 23 bytes with the tag is a seek; any other line is written as a C string. */
  function Parse(line: seq<byte>): Request {
    if |line| == 23 && line[..|SEEK_TAG|] == SEEK_TAG
    then SeekTo(Digit(line[19]), Digit(line[21]))
    else Append(CStr(line))
  }

  /** "AESDCHAR_IOCSEEKTO:x,y" and a newline, for two digits x and y. */
  function SeekLine(x: nat, y: nat): seq<byte>
    requires x < 10 && y < 10
  {
    SEEK_TAG + [58, 48 + x as byte, 44, 48 + y as byte, NEWLINE]
  }

  lemma TagSpelled()
    ensures var name := "AESDCHAR_IOCSEEKTO";
            |SEEK_TAG| == |name| && forall i | 0 <= i < |name| :: SEEK_TAG[i] as char == name[i]
  {
  }

  /** A digit is the number it shows. A byte below '0' or above 127 is negative and wraps to a number
      beyond every command and all but the largest sizes. */
  lemma DigitExactly(c: byte, n: nat)
    requires n < 10
    ensures Digit(c) == n <==> c as int == 48 + n
    ensures if 48 <= c < 128 then Digit(c) < 80 else Digit(c) >= 0x1_0000_0000 - 176
  {
  }

  /** A line is a seek exactly when it has 23 bytes and begins with the tag. A number below 10 in the
      request is the digit in its place, the first of the two being the command. Any other line is
      written up to its first NUL. */
  lemma ParseExactly(line: seq<byte>)
    ensures Parse(line).SeekTo? <==> |line| == 23 && SEEK_TAG <= line
    ensures match Parse(line)
            case SeekTo(cmd, off) =>
              && (cmd < 10 <==> 48 <= line[19] <= 57) && (cmd < 10 ==> cmd == line[19] as int - 48)
              && (off < 10 <==> 48 <= line[21] <= 57) && (off < 10 ==> off == line[21] as int - 48)
            case Append(text) => text <= line && NUL !in text && (text == line || line[|text|] == NUL)
  {
  }

  lemma ParseSeekLine(x: nat, y: nat)
    requires x < 10 && y < 10
    ensures Parse(SeekLine(x, y)) == SeekTo(x, y)
  {
    var line := SeekLine(x, y);
    assert line[..|SEEK_TAG|] == SEEK_TAG;
    assert line[19] == 48 + x as byte && line[21] == 48 + y as byte;
  }

  datatype Dev = Dev(log: Log, locked: bool)

  const FRESH_DEV: Dev := Dev(EMPTY_LOG, false)

  /** A session that meets a held device lock blocks. A seek can leave the lock held, and a write of
      nothing onto nothing pending faults with it held; nobody gives it back. */
  function Effect(d: Dev, r: Request, after: byte): Dev {
    if d.locked then d
    else
      match r
      case Append(text) =>
        if text == [] && d.log.pending == [] then d.(locked := true) else d.(log := Write(d.log, text, after))
      case SeekTo(cmd, off) => d.(locked := SeekShipped(d.log, cmd, off).InvalidLockHeld?)
  }

  /** A request that leaves the device lock held for ever, told from the commands and pending bytes. */
  predicate Blocks(l: Log, r: Request) {
    match r
    case Append(text) => text == [] && l.pending == []
    case SeekTo(cmd, off) => KeepsLock(l, cmd, off)
  }

  lemma EffectBlocks(d: Dev, r: Request, after: byte)
    ensures Effect(d, r, after).locked <==> d.locked || Blocks(d.log, r)
    ensures Effect(d, r, after).locked ==> Effect(d, r, after).log == d.log
  {
    if r.SeekTo? {
      LockLeakExactly(d.log, r.cmd, r.off);
    }
  }

  lemma SeekInContents(l: Log, cmd: nat, off: nat)
    ensures match SeekShipped(l, cmd, off) case Moved(pos) => pos <= |Contents(l)| case _ => true
  {
    var p := Sizes(Slots(l));
    SlotSumIsLength(l);
    if cmd < |p| {
      SumTake(p, cmd);
      SumSplit(p, cmd + 1);
    }
  }

  /** Where the session starts to read back; a refused seek leaves the position at 0. */
  function StartPos(l: Log, r: Request): (pos: nat)
    ensures r.SeekTo? ==> pos <= |Contents(l)|
  {
    match r
    case Append(_) => 0
    case SeekTo(cmd, off) =>
      SeekInContents(l, cmd, off);
      match SeekShipped(l, cmd, off)
      case Moved(pos) => pos
      case _ => 0
  }

  /** The bytes of the device after the session's effect, from its start position on. */
  function ReadBack(d: Dev, r: Request, after: byte): seq<byte> {
    Contents(Effect(d, r, after).log)[StartPos(d.log, r)..]
  }

  /** A session that leaves the device lock held blocks in its first read and sends nothing. */
  function Reply(d: Dev, r: Request, after: byte): seq<byte> {
    if Effect(d, r, after).locked then [] else Echo(ReadBack(d, r, after))
  }

  // ------------------------------------------------- sessions one at a time

  /** What a client sends, the byte past its line in the kernel buffer, and whether the first read of
      its socket is interrupted while the byte in front of the line buffer is a newline. */
  datatype Client = Client(input: seq<byte>, after: byte, misfires: bool)

  function LineOf(c: Client): seq<byte> {
    if c.misfires then [] else Cut(c.input, NEWLINE)
  }

  /** The reader hands back no line, and the session ends without taking the lock. */
  predicate NoLine(c: Client) {
    !c.misfires && c.input == []
  }

  function RequestOf(c: Client): Request {
    Parse(LineOf(c))
  }

  /** What a client asks for, told from the bytes it sends. Without a misfire its line is its input up to
      and including the first newline, or all of it; it is not served exactly when that is nothing. */
  lemma RequestFromInput(c: Client)
    requires !c.misfires
    ensures NoLine(c) <==> c.input == []
    ensures LineOf(c) <= c.input
    ensures if NEWLINE in c.input then IsLine(LineOf(c)) else LineOf(c) == c.input
    ensures match RequestOf(c)
            case SeekTo(_, _) => SEEK_TAG <= c.input && |LineOf(c)| == 23
            case Append(text) =>
              && text <= LineOf(c) && (NUL !in c.input ==> text == LineOf(c))
              && (|text| < |LineOf(c)| ==> c.input[|text|] == NUL)
  {
    ParseExactly(LineOf(c));
    hide Parse;
    assert NUL !in c.input ==> NUL !in LineOf(c);
  }

  /** A client that sends a seek line asks for the command and byte of its two digits, whatever follows. */
  lemma SeekFromInput(c: Client, x: nat, y: nat)
    requires !c.misfires && x < 10 && y < 10 && SeekLine(x, y) <= c.input
    ensures LineOf(c) == SeekLine(x, y) && RequestOf(c) == SeekTo(x, y)
  {
    var rest := c.input[23..];
    assert c.input == SeekLine(x, y) + rest;
    assert IsLine(SeekLine(x, y));
    CutLine(SeekLine(x, y), rest);
    ParseSeekLine(x, y);
  }

  /** The device after the given sessions have run one after the other. */
  function Serial(cs: seq<Client>): Dev {
    if cs == [] then FRESH_DEV
    else Effect(Serial(cs[..|cs| - 1]), RequestOf(cs[|cs| - 1]), cs[|cs| - 1].after)
  }

  /** The session `c` gets through its read-back when it runs after the sessions `cs`. */
  predicate Completes(cs: seq<Client>, c: Client) {
    !Effect(Serial(cs), RequestOf(c), c.after).locked
  }

  function ReplyAfter(cs: seq<Client>, c: Client): seq<byte> {
    Reply(Serial(cs), RequestOf(c), c.after)
  }

  /** What is left of the stream after its last complete line, when the session `c` has read it back. */
  function TailAfter(cs: seq<Client>, c: Client): seq<byte> {
    TailOf(ReadBack(Serial(cs), RequestOf(c), c.after))
  }

  /** A session gets through exactly after sessions that did, and with a request that does not block. */
  lemma CompletesExactly(cs: seq<Client>, c: Client)
    ensures Completes(cs, c) <==> !Serial(cs).locked && !Blocks(Serial(cs).log, RequestOf(c))
    ensures Completes(cs, c) <==> !Serial(cs + [c]).locked
  {
    EffectBlocks(Serial(cs), RequestOf(c), c.after);
    SerialSnoc(cs, c);
  }

  /** The last session makes its write. */
  predicate LastWrites(cs: seq<Client>)
    requires cs != []
  {
    RequestOf(cs[|cs| - 1]).Append? && !Serial(cs).locked
  }

  /** The writes the sessions make, in order. */
  function WritesOf(cs: seq<Client>): seq<WriteOp> {
    if cs == [] then []
    else
      var c := cs[|cs| - 1];
      WritesOf(cs[..|cs| - 1]) + if LastWrites(cs) then [WriteOp(RequestOf(c).text, c.after)] else []
  }

  lemma {:induction false} RunAppend(l: Log, a: seq<WriteOp>, b: seq<WriteOp>)
    ensures Run(l, a + b) == Run(Run(l, a), b)
    decreases |a|
  {
    if a == [] {
      assert a + b == b;
    } else {
      assert (a + b)[1..] == a[1..] + b;
      RunAppend(Write(l, a[0].data, a[0].after), a[1..], b);
    }
  }

  /** A seek session, even a refused one, changes neither the commands nor the pending bytes; nor does
      a session that blocks or faults. */
  lemma {:induction false} SerialIsRun(cs: seq<Client>)
    ensures Serial(cs).log == Run(EMPTY_LOG, WritesOf(cs))
  {
    if cs != [] {
      var before, c := cs[..|cs| - 1], cs[|cs| - 1];
      SerialIsRun(before);
      EffectBlocks(Serial(before), RequestOf(c), c.after);
      if LastWrites(cs) {
        var op := WriteOp(RequestOf(c).text, c.after);
        RunAppend(EMPTY_LOG, WritesOf(before), [op]);
        assert Run(Serial(before).log, [op]) == Write(Serial(before).log, op.data, op.after);
      } else {
        assert WritesOf(cs) == WritesOf(before);
      }
    }
  }

  /** No stray newline follows an unterminated write of any session. */
  ghost predicate AllHarmless(cs: seq<Client>) {
    forall n | 0 < n <= |cs| :: LastHarmless(cs[..n])
  }

  predicate LastHarmless(cs: seq<Client>)
    requires cs != []
  {
    LastWrites(cs) ==> Harmless(RequestOf(cs[|cs| - 1]).text, cs[|cs| - 1].after)
  }

  lemma AllHarmlessSnoc(cs: seq<Client>)
    requires cs != []
    ensures AllHarmless(cs)
       <==> AllHarmless(cs[..|cs| - 1]) && LastHarmless(cs)
  {
    hide LastHarmless;
    var before := cs[..|cs| - 1];
    assert forall n | 0 < n < |cs| :: before[..n] == cs[..n];
    assert cs[..|cs|] == cs;
    if AllHarmless(cs) {
      assert forall n | 0 < n <= |before| :: LastHarmless(before[..n]) by {
        assert forall n | 0 < n < |cs| :: LastHarmless(cs[..n]);
      }
    }
    if AllHarmless(before) && LastHarmless(cs) {
      assert forall n | 0 < n < |cs| :: LastHarmless(before[..n]) && before[..n] == cs[..n];
    }
  }

  /** The server cuts its input at a newline, so its writes are all framed exactly when no stray
      newline follows an unterminated one. */
  lemma {:induction false} WritesFramed(cs: seq<Client>)
    ensures AllFramed(WritesOf(cs)) <==> AllHarmless(cs)
  {
    if cs != [] {
      var before, c := cs[..|cs| - 1], cs[|cs| - 1];
      WritesFramed(before);
      AllHarmlessSnoc(cs);
      if LastWrites(cs) {
        var op := WriteOp(RequestOf(c).text, c.after);
        TextCut(c);
        AllFramedSnoc(WritesOf(before), op);
      } else {
        assert WritesOf(cs) == WritesOf(before);
      }
    }
  }

  lemma AllFramedSnoc(ops: seq<WriteOp>, op: WriteOp)
    ensures AllFramed(ops + [op]) <==> AllFramed(ops) && Framed(op)
  {
    assert forall i | 0 <= i < |ops| :: (ops + [op])[i] == ops[i];
    assert (ops + [op])[|ops|] == op;
  }

  /** A text to write has no newline before its last byte. */
  lemma TextCut(c: Client)
    ensures RequestOf(c).Append? ==>
              var text := RequestOf(c).text; forall i | 0 <= i < |text| - 1 :: text[i] != NEWLINE
  {
    var line := LineOf(c);
    var text := CStr(line);
    assert forall i | 0 <= i < |line| - 1 :: line[i] == line[..|line| - 1][i];
    assert forall i | 0 <= i < |text| - 1 :: text[i] == line[i];
  }

  ghost predicate NulFree(l: Log) {
    (forall k | 0 <= k < |l.committed| :: NUL !in l.committed[k]) && NUL !in l.pending
  }

  /** No NUL ever reaches the device: the server writes C strings. */
  lemma {:induction false} SerialNulFree(cs: seq<Client>)
    ensures NulFree(Serial(cs).log)
  {
    if cs != [] {
      SerialNulFree(cs[..|cs| - 1]);
    }
  }

  lemma {:induction false} FlattenNulFree(ss: seq<seq<byte>>)
    requires forall k | 0 <= k < |ss| :: NUL !in ss[k]
    ensures NUL !in Flatten(ss)
  {
    if ss != [] {
      FlattenNulFree(ss[1..]);
    }
  }

  lemma SerialSnoc(cs: seq<Client>, c: Client)
    ensures Serial(cs + [c]) == Effect(Serial(cs), RequestOf(c), c.after)
  {
    assert (cs + [c])[..|cs|] == cs;
  }

  /** After any sessions, a session's reply is the longest newline-terminated prefix of the contents
      from its start position, taken right after its own write or seek. */
  lemma ReplyIsLinePrefix(cs: seq<Client>, c: Client)
    requires !Serial(cs + [c]).locked
    ensures StartPos(Serial(cs).log, RequestOf(c)) <= |Contents(Serial(cs + [c]).log)|
    ensures IsLinePrefix(ReplyAfter(cs, c), Contents(Serial(cs + [c]).log)[StartPos(Serial(cs).log, RequestOf(c))..])
  {
    assert (cs + [c])[..|cs|] == cs;
    SerialNulFree(cs + [c]);
    var l := Serial(cs + [c]).log;
    FlattenNulFree(Commands(l));
    EchoIsLinePrefix(Contents(l)[StartPos(Serial(cs).log, RequestOf(c))..]);
  }

  /** The commands are the lines of what the clients had written exactly when no stray newline follows
      an unterminated write, and then a writing client is sent all of the contents; a writing client
      is in any case exactly when the contents are empty or end in a newline. */
  lemma WriterGetsContents(cs: seq<Client>, c: Client)
    requires RequestOf(c).Append? && Completes(cs, c)
    ensures var l, s := Serial(cs + [c]).log, Written(WritesOf(cs + [c]));
            && (l == Log(LinesOf(s), TailOf(s)) <==> AllHarmless(cs + [c]))
            && (ReplyAfter(cs, c) == Contents(l) <==> Terminated(Contents(l)))
            && (AllHarmless(cs + [c]) ==> ReplyAfter(cs, c) == Contents(l))
  {
    var all := cs + [c];
    CompletesExactly(cs, c);
    hide Serial, RequestOf, ReplyAfter, Effect, LinesOf, TailOf, WritesOf, Written, Run, Completes, Blocks, AllHarmless;
    SerialIsRun(all);
    WritesFramed(all);
    ChunkingExact(WritesOf(all));
    LinesAreLines(Written(WritesOf(all)));
    ReplyIsLinePrefix(cs, c);
    var l := Serial(all).log;
    WholeContents(l, ReplyAfter(cs, c));
    if AllLines(l.committed) {
      FlatLinesEnd(Commands(l));
    }
  }

  predicate IsSeekLine(line: seq<byte>) {
    |line| == 23 && SEEK_TAG <= line
  }

  /** The lines of the clients, those that are seeks apart. */
  function TextLines(cs: seq<Client>): seq<seq<byte>> {
    if cs == [] then []
    else
      var line := LineOf(cs[|cs| - 1]);
      TextLines(cs[..|cs| - 1]) + if IsSeekLine(line) then [] else [line]
  }

  /** As long as all sessions get through, what the device has accepted is exactly the lines of the
      clients in the order in which they were served, seeks apart, when these hold no NUL. */
  lemma {:induction false} AcceptedIsSent(cs: seq<Client>)
    requires !Serial(cs).locked
    requires forall i | 0 <= i < |cs| :: NUL !in LineOf(cs[i])
    ensures Accepted(Serial(cs).log) == Flatten(TextLines(cs))
  {
    if cs != [] {
      var before, c := cs[..|cs| - 1], cs[|cs| - 1];
      SessionAccepts(Serial(before), c);
      AcceptedIsSent(before);
      hide Accepted, Effect, RequestOf, LineOf, IsSeekLine;
      if IsSeekLine(LineOf(c)) {
        assert TextLines(cs) == TextLines(before);
      } else {
        FlattenAppend(TextLines(before), [LineOf(c)]);
        FlattenSingle(LineOf(c));
      }
    }
  }

  lemma SessionAccepts(d: Dev, c: Client)
    requires NUL !in LineOf(c)
    ensures var d2 := Effect(d, RequestOf(c), c.after);
            !d2.locked ==>
              !d.locked && Accepted(d2.log) == Accepted(d.log) + if IsSeekLine(LineOf(c)) then [] else LineOf(c)
  {
    ParseExactly(LineOf(c));
    var q := RequestOf(c);
    if q.Append? {
      WriteAccepts(d.log, q.text, c.after);
    }
    assert Accepted(d.log) + [] == Accepted(d.log);
    hide Accepted, Parse, LineOf, SeekShipped, Write;
  }

  ghost predicate Terminated(s: seq<byte>) {
    s == [] || s[|s| - 1] == NEWLINE
  }

  /** The longest newline-terminated prefix is everything exactly when there is nothing after it. */
  lemma WholeContents(l: Log, reply: seq<byte>)
    requires IsLinePrefix(reply, Contents(l)[0..])
    ensures reply == Contents(l) <==> Terminated(Contents(l))
  {
    var content := Contents(l);
    assert content[0..] == content && content[|content|..] == [];
    if Terminated(content) {
      LinePrefixUnique(reply, content, content);
    }
  }

  /** A seek that the header would accept, and that is shipped to the same place, is answered from the
      named byte of the named command and leaves the device as it was. */
  lemma SeekGetsRest(cs: seq<Client>, c: Client, cmd: nat, off: nat)
    requires !Serial(cs).locked && RequestOf(c) == SeekTo(cmd, off)
    requires var l := Serial(cs).log;
             cmd < |Commands(l)| && off < |Commands(l)[cmd]| && SameTarget(l, cmd, off)
    ensures Serial(cs + [c]) == Serial(cs)
    ensures var l := Serial(cs).log;
            var pos := Sum(Sizes(Commands(l))[..cmd]) + off;
            && pos < |Contents(l)| && Contents(l)[pos] == Commands(l)[cmd][off]
            && IsLinePrefix(ReplyAfter(cs, c), Contents(l)[pos..])
  {
    var l := Serial(cs).log;
    assert (cs + [c])[..|cs|] == cs;
    SeekLookupInverse(l, cmd, off, Sum(Sizes(Commands(l))[..cmd]) + off);
    CommandByte(l, cmd, off);
    ReplyIsLinePrefix(cs, c);
  }

  /** So a client that sends the digits of a command and a byte in it is answered from that byte on. */
  lemma SeekLineGetsRest(cs: seq<Client>, c: Client, cmd: nat, off: nat)
    requires !Serial(cs).locked && !c.misfires && cmd < 10 && off < 10 && SeekLine(cmd, off) <= c.input
    requires var l := Serial(cs).log;
             cmd < |Commands(l)| && off < |Commands(l)[cmd]| && SameTarget(l, cmd, off)
    ensures Serial(cs + [c]) == Serial(cs)
    ensures var l := Serial(cs).log;
            var pos := Sum(Sizes(Commands(l))[..cmd]) + off;
            && pos < |Contents(l)| && Contents(l)[pos] == Commands(l)[cmd][off]
            && IsLinePrefix(ReplyAfter(cs, c), Contents(l)[pos..])
  {
    SeekFromInput(c, cmd, off);
    SeekGetsRest(cs, c, cmd, off);
  }

  /** A seek session leaves the device as it was and, by the number of its command, is sent: from its byte
      on, counted by slot; nothing, when no slot holds the command; all from the beginning, when the
      number is above the capacity. */
  lemma SeekReply(cs: seq<Client>, c: Client, cmd: nat, off: nat)
    requires RequestOf(c) == SeekTo(cmd, off) && Completes(cs, c)
    ensures var l := Serial(cs).log;
            && Serial(cs + [c]) == Serial(cs)
            && if cmd > CAPACITY then IsLinePrefix(ReplyAfter(cs, c), Contents(l))
               else if cmd >= |Commands(l)| then ReplyAfter(cs, c) == []
               else
                 var pos := Sum(Sizes(Slots(l))[..cmd]) + off;
                 pos < |Contents(l)| && IsLinePrefix(ReplyAfter(cs, c), Contents(l)[pos..])
  {
    var l := Serial(cs).log;
    CompletesExactly(cs, c);
    SerialSnoc(cs, c);
    EffectBlocks(Serial(cs), RequestOf(c), c.after);
    LockLeakExactly(l, cmd, off);
    ReplyIsLinePrefix(cs, c);
    assert Contents(l)[0..] == Contents(l);
    match SeekShipped(l, cmd, off)
    case Moved(pos) => SeekLands(l, cmd, off, pos);
    case _ =>
  }
}
