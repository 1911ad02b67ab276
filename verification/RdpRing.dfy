/**
 * RDP_ProcessRDPList of GLideN64/src/RDP.cpp: an incremental command parser over a ring with a spill area behind it.
 */
module RdpRing {
  import opened Arith
  import opened Machine

  const MAXCMD: nat := 0x10_0000
  const SPILL: nat := 32

  /** The CmdLength table, in bytes. */
  function CmdLength(cmd: nat): nat {
    if cmd == 0x08 then 32
    else if cmd == 0x09 then 48
    else if cmd == 0x0a || cmd == 0x0c then 96
    else if cmd == 0x0b || cmd == 0x0d then 112
    else if cmd == 0x0e then 160
    else if cmd == 0x0f then 176
    else if cmd == 0x24 || cmd == 0x25 then 16
    else 8
  }

  /** Words of the command that starts with word `w`. */
  function Words(w: u32): (n: nat)
    ensures 2 <= n <= 44
  {
    CmdLength(w as int / 0x100_0000 % 64) / 4
  }

  /**
   * The words of a command by its parts: a triangle has edge coefficients, and as its opcode's three low bits tell,
   * shade, texture and depth coefficients; a texture rectangle has coordinates; any other command is two words.
   */
  function CommandWords(opcode: nat): nat {
    if 8 <= opcode < 16 then
      8 + (if opcode / 4 % 2 == 1 then 16 else 0) + (if opcode / 2 % 2 == 1 then 16 else 0)
        + (if opcode % 2 == 1 then 4 else 0)
    else if opcode in {0x24, 0x25} then 4 else 2
  }

  /** The table gives every command its parts; only bits 24 to 29 of its first word count. */
  lemma TableExactly(high: nat, opcode: nat, low: nat)
    requires high < 4 && opcode < 64 && low < 0x100_0000
    ensures Words(0x4000_0000 * high + 0x100_0000 * opcode + low) == CommandWords(opcode)
    ensures CmdLength(opcode) == 4 * CommandWords(opcode)
  {
    hide CmdLength, CommandWords;
    LengthOfParts(opcode);
    var w := 0x4000_0000 * high + 0x100_0000 * opcode + low;
    DivisionIs(w, 0x100_0000, 64 * high + opcode, low);
    DivisionIs(w / 0x100_0000, 64, high, opcode);
  }

  lemma LengthOfParts(opcode: nat)
    requires opcode < 64
    ensures CmdLength(opcode) == 4 * CommandWords(opcode)
  {
    if 8 <= opcode < 16 {
      assert opcode in {8, 9, 10, 11, 12, 13, 14, 15};
    }
  }

  // -------------------------------------------------------------------------
  // The command stream

  datatype Parsed = Parsed(cmds: seq<seq<u32>>, rest: seq<u32>)

  predicate Complete(stream: seq<u32>) {
    stream != [] && Words(stream[0]) <= |stream|
  }

  /** A word stream cut into its complete commands and what is left over. */
  function Parse(stream: seq<u32>): Parsed {
    if !Complete(stream) then Parsed([], stream)
    else
      var n := Words(stream[0]);
      var p := Parse(stream[n..]);
      Parsed([stream[..n]] + p.cmds, p.rest)
  }

  /** One command, no more and no less. */
  predicate IsCommand(c: seq<u32>) {
    c != [] && |c| == CommandWords(Opcode(c[0]))
  }

  /** Bits 24 to 29 of a command's first word. */
  function Opcode(w: u32): nat {
    w as int % 0x4000_0000 / 0x100_0000
  }

  lemma CommandIs(c: seq<u32>)
    ensures IsCommand(c) <==> c != [] && |c| == Words(c[0])
  {
    if c != [] {
      TableExactly(c[0] as int / 0x4000_0000, Opcode(c[0]), c[0] as int % 0x100_0000);
    }
  }

  function Joined(cmds: seq<seq<u32>>): seq<u32> {
    if cmds == [] then [] else cmds[0] + Joined(cmds[1..])
  }

  /** `p` is a cut of `stream` into commands, with an incomplete rest. */
  ghost predicate IsCut(p: Parsed, stream: seq<u32>) {
    && (forall c <- p.cmds :: IsCommand(c))
    && !Complete(p.rest)
    && Joined(p.cmds) + p.rest == stream
  }

  /** Parse cuts the stream without losing, adding or reordering a word, and no other cut exists. */
  lemma {:induction false} ParseExact(stream: seq<u32>, p: Parsed)
    ensures IsCut(p, stream) <==> p == Parse(stream)
  {
    ParseCuts(stream);
    if IsCut(p, stream) {
      CutUnique(stream, p);
    }
  }

  lemma {:induction false} ParseCuts(stream: seq<u32>)
    ensures IsCut(Parse(stream), stream)
  {
    hide IsCommand, Words;
    if Complete(stream) {
      var n := Words(stream[0]);
      var p := Parse(stream[n..]);
      ParseCuts(stream[n..]);
      CommandIs(stream[..n]);
      assert ([stream[..n]] + p.cmds)[1..] == p.cmds;
      assert stream == stream[..n] + (Joined(p.cmds) + p.rest);
    }
  }

  lemma {:induction false} CutUnique(stream: seq<u32>, p: Parsed)
    requires IsCut(p, stream)
    ensures p == Parse(stream)
    decreases |p.cmds|
  {
    hide IsCommand, Words;
    if p.cmds == [] {
      assert p.rest == stream;
    } else {
      var c, tail := p.cmds[0], Parsed(p.cmds[1..], p.rest);
      CutTail(stream, p, c, tail);
      CutUnique(stream[|c|..], tail);
    }
  }

  lemma CutTail(stream: seq<u32>, p: Parsed, c: seq<u32>, tail: Parsed)
    requires IsCut(p, stream) && p.cmds != [] && c == p.cmds[0] && tail == Parsed(p.cmds[1..], p.rest)
    ensures c != [] && |c| <= |stream| && stream[..|c|] == c && IsCut(tail, stream[|c|..])
    ensures Complete(stream) && Words(stream[0]) == |c| && p.cmds == [c] + tail.cmds
  {
    hide IsCommand, Words, Parse;
    CommandIs(c);
    assert stream == c + (Joined(tail.cmds) + tail.rest);
    assert stream[..|c|] == c && stream[|c|..] == Joined(tail.cmds) + tail.rest;
  }

  lemma CutAppend(a: seq<u32>, b: seq<u32>, p: Parsed, q: Parsed)
    requires IsCut(p, a) && IsCut(q, p.rest + b)
    ensures IsCut(Parsed(p.cmds + q.cmds, q.rest), a + b)
  {
    JoinedAppend(p.cmds, q.cmds);
    Regroup(Joined(p.cmds), p.rest, b, Joined(q.cmds), q.rest);
  }

  lemma Regroup(x: seq<u32>, y: seq<u32>, b: seq<u32>, u: seq<u32>, v: seq<u32>)
    requires u + v == y + b
    ensures (x + u) + v == (x + y) + b
  {
    assert (x + u) + v == x + (u + v);
    assert (x + y) + b == x + (y + b);
  }

  /** Parsing can stop anywhere and go on with the leftover words. */
  lemma ParseResumes(a: seq<u32>, b: seq<u32>)
    ensures var p, q := Parse(a), Parse(Parse(a).rest + b); Parse(a + b) == Parsed(p.cmds + q.cmds, q.rest)
  {
    var p := Parse(a);
    var q := Parse(p.rest + b);
    ParseCuts(a);
    ParseCuts(p.rest + b);
    CutAppend(a, b, p, q);
    CutUnique(a + b, Parsed(p.cmds + q.cmds, q.rest));
  }

  lemma {:induction false} JoinedAppend(a: seq<seq<u32>>, b: seq<seq<u32>>)
    ensures Joined(a + b) == Joined(a) + Joined(b)
  {
    if a == [] {
      assert a + b == b;
    } else {
      assert (a + b)[1..] == a[1..] + b;
      JoinedAppend(a[1..], b);
    }
  }

  /** What a series of calls executes and leaves, each call parsing what is pending and its own words. */
  function Calls(pending: seq<u32>, chunks: seq<seq<u32>>): Parsed
    decreases chunks
  {
    if chunks == [] then Parsed([], pending)
    else
      var p := Parse(pending + chunks[0]);
      var q := Calls(p.rest, chunks[1..]);
      Parsed(p.cmds + q.cmds, q.rest)
  }

  /**
   * Chunk invariance: however a stream is split over calls, the same commands run in the same order and the same words
   * stay.
   */
  lemma {:induction false} SplitDoesNotMatter(pending: seq<u32>, chunks: seq<seq<u32>>)
    requires !Complete(pending)
    ensures Calls(pending, chunks) == Parse(pending + Joined(chunks))
    decreases chunks
  {
    if chunks == [] {
      assert pending + Joined(chunks) == pending;
    } else {
      ParseCuts(pending + chunks[0]);
      SplitDoesNotMatter(Parse(pending + chunks[0]).rest, chunks[1..]);
      ParseResumes(pending + chunks[0], Joined(chunks[1..]));
      Associative(pending, chunks[0], Joined(chunks[1..]));
    }
  }

  lemma Associative(x: seq<u32>, y: seq<u32>, z: seq<u32>)
    ensures x + (y + z) == (x + y) + z
  {
  }

  // -------------------------------------------------------------------------
  // The ring

  /** An index of the ring, one lap at most. */
  function Wrap(i: nat): nat {
    if i < MAXCMD then i else i - MAXCMD
  }

  /** `i & maxCMDMask` */
  lemma MaskIsWrap(i: nat)
    requires i < 2 * MAXCMD
    ensures i % MAXCMD == Wrap(i)
  {
  }

  /** `(cmd_ptr - cmd_cur) & maxCMDMask` counts the pending words. */
  lemma DistanceIs(cur: nat, n: nat)
    requires cur < MAXCMD && n < MAXCMD
    ensures (Wrap(cur + n) - cur) % MAXCMD == n
  {
  }

  /** The words of a stream sit in the ring from `cur` on. */
  ghost predicate InRing(data: seq<u32>, cur: nat, stream: seq<u32>) {
    && |data| == MAXCMD + SPILL && cur < MAXCMD && |stream| < MAXCMD
    && forall k :: 0 <= k < |stream| ==> data[Wrap(cur + k)] == stream[k]
  }

  /** No command of the stream, laid out in the ring from `cur` on, spills further than the area behind the ring. */
  ghost predicate SpillFits(cur: nat, stream: seq<u32>)
    decreases |stream|
  {
    Complete(stream) ==>
      var n := Words(stream[0]);
      cur + n <= MAXCMD + SPILL && SpillFits(Wrap(cur + n), stream[n..])
  }

  /** It is enough that the stream ends before the end of the spill area. */
  lemma {:induction false} EndsInSpillArea(cur: nat, stream: seq<u32>)
    requires cur < MAXCMD && cur + |stream| <= MAXCMD + SPILL
    ensures SpillFits(cur, stream)
    decreases |stream|
  {
    if Complete(stream) {
      var n := Words(stream[0]);
      EndsInSpillArea(Wrap(cur + n), stream[n..]);
    }
  }

  // The area behind the ring is shorter than the longest commands.

  /** A command of `n` words that starts at `start` ends behind the spill area. */
  predicate SpillsTooFar(start: nat, n: nat) {
    start + n > MAXCMD + SPILL
  }

  /** Where command `k` of a stream starts in the ring, if the stream starts at `cur`. */
  function StartOf(cur: nat, cmds: seq<seq<u32>>, k: nat): nat
    requires k <= |cmds|
  {
    Wrap(cur + |Joined(cmds[..k])|)
  }

  lemma StartOfNext(cur: nat, cmds: seq<seq<u32>>, k: nat)
    requires 0 < k <= |cmds| && cur < MAXCMD && |Joined(cmds)| < MAXCMD
    ensures StartOf(cur, cmds, k) == StartOf(Wrap(cur + |cmds[0]|), cmds[1..], k - 1)
  {
    assert cmds[..k][1..] == cmds[1..][..k - 1];
    JoinedAppend(cmds[..k], cmds[k..]);
    assert cmds[..k] + cmds[k..] == cmds;
  }

  lemma ParseParts(stream: seq<u32>)
    requires Complete(stream)
    ensures var n, cmds := Words(stream[0]), Parse(stream).cmds;
      && cmds != [] && cmds[0] == stream[..n] && cmds[1..] == Parse(stream[n..]).cmds
      && |Joined(cmds)| <= |stream|
  {
    ParseCuts(stream);
  }

  /** No command of the stream spills too far. */
  ghost predicate AllFit(cur: nat, cmds: seq<seq<u32>>) {
    forall k :: 0 <= k < |cmds| ==> !SpillsTooFar(StartOf(cur, cmds, k), |cmds[k]|)
  }

  lemma SpillFitsNext(cur: nat, stream: seq<u32>)
    requires Complete(stream)
    ensures var n := Words(stream[0]);
      SpillFits(cur, stream) <==> !SpillsTooFar(cur, n) && SpillFits(Wrap(cur + n), stream[n..])
  {
  }

  lemma AllFitStream(cur: nat, stream: seq<u32>)
    requires Complete(stream) && cur < MAXCMD && |stream| < MAXCMD
    ensures var n := Words(stream[0]);
      AllFit(cur, Parse(stream).cmds) <==> !SpillsTooFar(cur, n) && AllFit(Wrap(cur + n), Parse(stream[n..]).cmds)
  {
    ParseParts(stream);
    AllFitNext(cur, Parse(stream).cmds);
  }

  lemma {:induction false} SpillFitsIsAllFit(cur: nat, stream: seq<u32>, fits: bool)
    requires cur < MAXCMD && |stream| < MAXCMD && fits == AllFit(cur, Parse(stream).cmds)
    ensures SpillFits(cur, stream) == fits
    decreases |stream|
  {
    if Complete(stream) {
      var n := Words(stream[0]);
      SpillFitsNext(cur, stream);
      AllFitStream(cur, stream);
      SpillFitsIsAllFit(Wrap(cur + n), stream[n..], AllFit(Wrap(cur + n), Parse(stream[n..]).cmds));
    }
  }

  lemma AllFitNext(cur: nat, cmds: seq<seq<u32>>)
    requires cmds != [] && cur < MAXCMD && |Joined(cmds)| < MAXCMD
    ensures AllFit(cur, cmds) <==> !SpillsTooFar(cur, |cmds[0]|) && AllFit(Wrap(cur + |cmds[0]|), cmds[1..])
  {
    var next := Wrap(cur + |cmds[0]|);
    assert StartOf(cur, cmds, 0) == cur by { assert Joined(cmds[..0]) == []; }
    forall k | 0 < k < |cmds|
      ensures StartOf(cur, cmds, k) == StartOf(next, cmds[1..], k - 1) && cmds[k] == cmds[1..][k - 1]
    {
      StartOfNext(cur, cmds, k);
    }
    if AllFit(cur, cmds) {
      forall k | 0 <= k < |cmds[1..]|
        ensures !SpillsTooFar(StartOf(next, cmds[1..], k), |cmds[1..][k]|)
      {
        assert !SpillsTooFar(StartOf(cur, cmds, k + 1), |cmds[k + 1]|);
      }
    }
  }

  /** The commands longer than the spill area, and where in the ring they do not fit. */
  predicate LongAndLate(start: nat, n: nat) {
    (n == 40 && start + 7 >= MAXCMD) || (n == 44 && start + 11 >= MAXCMD)
  }

  lemma CommandSizes(c: seq<u32>)
    requires IsCommand(c)
    ensures |c| in {2, 4, 8, 12, 24, 28, 40, 44}
  {
  }

  /**
   * For every stream that fits the ring: a command spills past the area behind it exactly if some command of 40 words
   * starts in the last 7 words of the ring, or one of 44 words in the last 11.
   */
  lemma SpillFitsExactly(cur: nat, stream: seq<u32>)
    requires cur < MAXCMD && |stream| < MAXCMD
    ensures var cmds := Parse(stream).cmds;
      SpillFits(cur, stream) <==> forall k :: 0 <= k < |cmds| ==> !LongAndLate(StartOf(cur, cmds, k), |cmds[k]|)
  {
    var cmds := Parse(stream).cmds;
    SpillFitsIsAllFit(cur, stream, AllFit(cur, cmds));
    ParseCuts(stream);
    JoinedBound(stream);
    forall k | 0 <= k < |cmds|
      ensures SpillsTooFar(StartOf(cur, cmds, k), |cmds[k]|) <==> LongAndLate(StartOf(cur, cmds, k), |cmds[k]|)
    {
      assert IsCommand(cmds[k]);
      CommandSizes(cmds[k]);
      StartInRing(cur, cmds, k);
    }
  }

  lemma JoinedBound(stream: seq<u32>)
    ensures |Joined(Parse(stream).cmds)| <= |stream|
  {
    ParseCuts(stream);
  }

  lemma StartInRing(cur: nat, cmds: seq<seq<u32>>, k: nat)
    requires k <= |cmds| && cur < MAXCMD && |Joined(cmds)| < MAXCMD
    ensures StartOf(cur, cmds, k) < MAXCMD
  {
    JoinedAppend(cmds[..k], cmds[k..]);
    assert cmds[..k] + cmds[k..] == cmds;
  }

  lemma InRingTail(data: seq<u32>, cur: nat, stream: seq<u32>, n: nat)
    requires InRing(data, cur, stream) && n <= |stream|
    ensures InRing(data, Wrap(cur + n), stream[n..])
  {
    forall k | 0 <= k < |stream| - n
      ensures data[Wrap(Wrap(cur + n) + k)] == stream[n..][k]
    {
      assert Wrap(Wrap(cur + n) + k) == Wrap(cur + (n + k));
      assert stream[n..][k] == stream[n + k];
    }
  }

  class RdpInfo {
    const cmdData: array<u32>
    var cmdPtr: nat
    var cmdCur: nat
    var w0: u32
    var w1: u32
    var w2: u32
    var w3: u32
    var dpStart: nat
    var dpCurrent: nat
    var dpEnd: nat
    var xbus: bool
    ghost var pending: seq<u32>
    ghost var executed: seq<seq<u32>>

    ghost predicate Valid()
      reads this, cmdData
    {
      InRing(cmdData[..], cmdCur, pending) && cmdPtr == Wrap(cmdCur + |pending|) && cmdPtr < MAXCMD &&
      !Complete(pending)
    }

    constructor ()
      ensures Valid() && fresh(cmdData) && pending == [] && executed == []
      ensures cmdCur == 0 && dpCurrent == dpEnd == 0 && !xbus
    {
      cmdData := new u32[MAXCMD + SPILL];
      cmdPtr, cmdCur, w0, w1, w2, w3 := 0, 0, 0, 0, 0, 0;
      dpStart, dpCurrent, dpEnd, xbus := 0, 0, 0, false;
      pending, executed := [], [];
    }

    /** The words between DPC_CURRENT and DPC_END, from DMEM if the XBUS bit of DPC_STATUS is set, else from RDRAM. */
    ghost function Incoming(rdram: seq<u32>, dmem: seq<u32>): seq<u32>
      reads this
      requires Fetchable(rdram, dmem)
    {
      Fetched(xbus, rdram, dmem, dpCurrent, dpEnd)
    }

    predicate Fetchable(rdram: seq<u32>, dmem: seq<u32>)
      reads this
    {
      |dmem| == 1024 && dpEnd <= 4 * |rdram|
    }

    /** Appends a word at cmd_ptr. */
    method Push(w: u32)
      requires InRing(cmdData[..], cmdCur, pending) && cmdPtr == Wrap(cmdCur + |pending|) < MAXCMD
               && |pending| + 1 < MAXCMD
      modifies cmdData, this`cmdPtr, this`pending
      ensures InRing(cmdData[..], cmdCur, pending) && cmdPtr == Wrap(cmdCur + |pending|) < MAXCMD
      ensures pending == old(pending) + [w]
    {
      cmdData[cmdPtr] := w;
      MaskIsWrap(cmdPtr + 1);
      cmdPtr := (cmdPtr + 1) % MAXCMD;
      pending := pending + [w];
    }

    /** The load loop. */
    method Load(rdram: seq<u32>, dmem: seq<u32>)
      requires Valid() && Fetchable(rdram, dmem) && |pending| + |Incoming(rdram, dmem)| < MAXCMD
      modifies cmdData, this`cmdPtr, this`pending
      ensures InRing(cmdData[..], cmdCur, pending) && cmdPtr == Wrap(cmdCur + |pending|) < MAXCMD
      ensures pending == old(pending) + Incoming(rdram, dmem)
    {
      var address := dpCurrent;
      while address < dpEnd
        invariant InRing(cmdData[..], cmdCur, pending) && cmdPtr == Wrap(cmdCur + |pending|) < MAXCMD
        invariant pending + Fetched(xbus, rdram, dmem, address, dpEnd) == old(pending) + Incoming(rdram, dmem)
      {
        Push(ReadRdpData(xbus, rdram, dmem, address));
        address := address + 4;
      }
    }

    /** Makes the words of the next command contiguous at cmd_cur, copying what wrapped around into the spill area. */
    method Spill(n: nat)
      requires InRing(cmdData[..], cmdCur, pending) && 0 < n <= |pending| && cmdCur + n <= MAXCMD + SPILL
      modifies cmdData
      ensures InRing(cmdData[..], cmdCur, pending)
      ensures forall k :: 0 <= k < n ==> cmdData[cmdCur + k] == pending[k]
    {
      if cmdCur + n > MAXCMD {
        forall k | 0 <= k < n - (MAXCMD - cmdCur) {
          cmdData[MAXCMD + k] := cmdData[k];
        }
      }
    }

    /** Executes the next command: its handler gets the words from cmd_cur on, which `executed` records. */
    method ExecuteNext(n: nat)
      requires InRing(cmdData[..], cmdCur, pending) && cmdPtr == Wrap(cmdCur + |pending|) < MAXCMD
      requires 2 <= n <= |pending| && cmdCur + n <= MAXCMD + SPILL
      requires SpillFits(Wrap(cmdCur + n), pending[n..])
      modifies cmdData, this`cmdCur, this`w0, this`w1, this`w2, this`w3, this`pending, this`executed
      ensures InRing(cmdData[..], cmdCur, pending) && cmdPtr == Wrap(cmdCur + |pending|)
      ensures cmdCur == Wrap(old(cmdCur) + n) && pending == old(pending)[n..]
      ensures SpillFits(cmdCur, pending)
      ensures executed == old(executed) + [old(pending)[..n]]
      ensures w0 == old(pending)[0] && w1 == old(pending)[1]
      ensures n >= 4 ==> w2 == old(pending)[2] && w3 == old(pending)[3]
    {
      Spill(n);
      w0, w1, w2, w3 := cmdData[cmdCur], cmdData[cmdCur + 1], cmdData[cmdCur + 2], cmdData[cmdCur + 3];
      assert w0 == cmdData[cmdCur + 0];
      assert cmdData[cmdCur..cmdCur + n] == pending[..n];
      executed := executed + [cmdData[cmdCur..cmdCur + n]];
      Advance(n);
    }

    method Advance(n: nat)
      requires InRing(cmdData[..], cmdCur, pending) && cmdPtr == Wrap(cmdCur + |pending|) < MAXCMD && n <= |pending|
      modifies this`cmdCur, this`pending
      ensures InRing(cmdData[..], cmdCur, pending) && cmdPtr == Wrap(cmdCur + |pending|)
      ensures cmdCur == Wrap(old(cmdCur) + n) && pending == old(pending)[n..]
    {
      InRingTail(cmdData[..], cmdCur, pending, n);
      MaskIsWrap(cmdCur + n);
      cmdCur := (cmdCur + n) % MAXCMD;
      pending := pending[n..];
    }

    /** The length in words of the next command if all of it is there, else 0. */
    method NextLength() returns (n: nat)
      requires InRing(cmdData[..], cmdCur, pending) && cmdPtr == Wrap(cmdCur + |pending|) < MAXCMD && cmdCur != cmdPtr
      ensures n == if Complete(pending) then Words(pending[0]) else 0
    {
      assert cmdData[..][Wrap(cmdCur + 0)] == pending[0];
      var cmd := cmdData[cmdCur] as int / 0x100_0000 % 64;
      DistanceIs(cmdCur, |pending|);
      LengthInWords(pending[0], CmdLength(cmd));
      n := if (cmdPtr - cmdCur) % MAXCMD * 4 < CmdLength(cmd) then 0 else CmdLength(cmd) / 4;
    }

    /** One round of the execution loop; answers whether a complete command was there and was run. */
    method ExecuteFirst() returns (ran: bool)
      requires InRing(cmdData[..], cmdCur, pending) && cmdPtr == Wrap(cmdCur + |pending|) < MAXCMD
      requires cmdCur != cmdPtr && SpillFits(cmdCur, pending)
      modifies cmdData, this`cmdCur, this`w0, this`w1, this`w2, this`w3, this`pending, this`executed
      ensures InRing(cmdData[..], cmdCur, pending) && cmdPtr == Wrap(cmdCur + |pending|)
      ensures SpillFits(cmdCur, pending)
      ensures ran == Complete(old(pending))
      ensures |pending| <= |old(pending)| && cmdCur == Wrap(old(cmdCur) + (|old(pending)| - |pending|))
      ensures if ran then |pending| < |old(pending)| else pending == old(pending) && executed == old(executed)
      ensures executed + Parse(pending).cmds == old(executed) + Parse(old(pending)).cmds
      ensures Parse(pending).rest == Parse(old(pending)).rest
    {
      var n := NextLength();
      ran := n > 0;
      if ran {
        ParseFirst(pending, executed);
        SpillFitsNext(cmdCur, pending);
        ExecuteNext(n);
      }
    }

    /** The execution loop: every complete command runs, an incomplete one stays. */
    method ExecuteAll()
      requires InRing(cmdData[..], cmdCur, pending) && cmdPtr == Wrap(cmdCur + |pending|) < MAXCMD
      requires SpillFits(cmdCur, pending)
      modifies cmdData, this`cmdPtr, this`cmdCur, this`w0, this`w1, this`w2, this`w3, this`pending, this`executed
      ensures Valid()
      ensures executed == old(executed) + Parse(old(pending)).cmds && pending == Parse(old(pending)).rest
      ensures |pending| <= |old(pending)|
      ensures cmdCur == if pending == [] then 0 else Wrap(old(cmdCur) + (|old(pending)| - |pending|))
    {
      var setZero := true;
      while cmdCur != cmdPtr && setZero
        invariant InRing(cmdData[..], cmdCur, pending) && cmdPtr == Wrap(cmdCur + |pending|) < MAXCMD
        invariant |pending| <= |old(pending)| && cmdCur == Wrap(old(cmdCur) + (|old(pending)| - |pending|))
        invariant SpillFits(cmdCur, pending) && (!setZero ==> pending != [] && !Complete(pending))
        invariant executed + Parse(pending).cmds == old(executed) + Parse(old(pending)).cmds
        invariant Parse(pending).rest == Parse(old(pending)).rest
        decreases |pending|, setZero
      {
        setZero := ExecuteFirst();
      }
      if setZero {
        cmdPtr, cmdCur, pending := 0, 0, [];
      }
    }

    /**
     * RDP_ProcessRDPList; `paused` while the configuration dialog is open or the window is being resized, when the list
     * is dropped. The pending and the new words must fit the ring, and no command may spill past the area behind it.
     */
    method ProcessRDPList(paused: bool, rdram: seq<u32>, dmem: seq<u32>)
      requires Valid() && Fetchable(rdram, dmem)
      requires |pending| + |Incoming(rdram, dmem)| < MAXCMD && SpillFits(cmdCur, pending + Incoming(rdram, dmem))
      modifies this, cmdData
      ensures Valid()
      ensures paused || dpEnd <= old(dpCurrent) ==>
        executed == old(executed) && pending == old(pending) && cmdCur == old(cmdCur)
      ensures !paused && dpEnd > old(dpCurrent) ==>
        var p := Parse(old(pending) + old(Incoming(rdram, dmem)));
        && executed == old(executed) + p.cmds
        && pending == p.rest
        && |pending| <= |old(pending)| + |old(Incoming(rdram, dmem))|
        && cmdCur == if pending == [] then 0
                     else Wrap(old(cmdCur) + (|old(pending)| + |old(Incoming(rdram, dmem))| - |pending|))
      ensures dpEnd == old(dpEnd) && xbus == old(xbus)
      ensures if !paused && dpEnd <= old(dpCurrent) then dpStart == old(dpStart) && dpCurrent == old(dpCurrent)
              else dpStart == dpCurrent == dpEnd
    {
      if paused {
        dpStart := dpEnd;
        dpCurrent := dpEnd;
        return;
      }
      if dpEnd <= dpCurrent {
        return;
      }
      Load(rdram, dmem);
      ExecuteAll();
      dpStart := dpEnd;
      dpCurrent := dpEnd;
    }

    /** One list: the registers are set and the list is processed. */
    method ProcessList(l: List)
      requires Valid() && l.Fetchable() && StepFits(cmdCur, pending, l.Words())
      modifies this, cmdData
      ensures Valid() && executed == old(executed) + Parse(old(pending) + l.Words()).cmds
      ensures pending == Parse(old(pending) + l.Words()).rest
      ensures cmdCur == CurAfter(old(cmdCur), old(pending), l.Words())
    {
      hide Parse, SpillFits;
      dpStart, dpCurrent, dpEnd, xbus := l.start, l.start, l.end, l.xbus;
      NothingNew(pending, l.Words());
      WordsOrNone(l);
      ProcessRDPList(false, l.rdram, l.dmem);
    }

    /**
     * Any number of lists: what was executed are the commands of all their words together, however the words are split
     * over the lists, and the rest is pending.
     */
    method ProcessLists(lists: seq<List>)
      requires Valid() && (forall l :: l in lists ==> l.Fetchable()) && RunFits(cmdCur, pending, Chunks(lists))
      modifies this, cmdData
      ensures Valid() && executed == old(executed) + Parse(old(pending) + Joined(Chunks(lists))).cmds
      ensures pending == Parse(old(pending) + Joined(Chunks(lists))).rest
    {
      hide Parse, StepFits, CurAfter, Joined;
      ghost var chunks := Chunks(lists);
      for i := 0 to |lists|
        invariant Valid() && RunFits(cmdCur, pending, chunks[i..])
        invariant executed + Calls(pending, chunks[i..]).cmds == old(executed) + Calls(old(pending), chunks).cmds
        invariant Calls(pending, chunks[i..]).rest == Calls(old(pending), chunks).rest
      {
        CallsStep(executed, pending, chunks, i);
        ProcessList(lists[i]);
      }
      SplitDoesNotMatter(old(pending), chunks);
    }
  }

  /** A list for one call: the registers that tell where its words are, and the memories that hold them. */
  datatype List = List(start: nat, end: nat, xbus: bool, rdram: seq<u32>, dmem: seq<u32>)
  {
    predicate Fetchable() {
      |dmem| == 1024 && end <= 4 * |rdram|
    }

    function Words(): seq<u32>
      requires Fetchable()
    {
      Fetched(xbus, rdram, dmem, start, end)
    }
  }

  function Chunks(lists: seq<List>): (chunks: seq<seq<u32>>)
    requires forall l :: l in lists ==> l.Fetchable()
    ensures |chunks| == |lists|
    ensures forall i :: 0 <= i < |lists| ==> chunks[i] == lists[i].Words()
  {
    seq(|lists|, (i: nat) requires i < |lists| => lists[i].Words())
  }

  /** The ring has room for a call's words, and no command spills past the area behind it. */
  ghost predicate StepFits(cur: nat, pending: seq<u32>, words: seq<u32>) {
    cur < MAXCMD && |pending| + |words| < MAXCMD && SpillFits(cur, pending + words)
  }

  lemma {:induction false} RestLength(stream: seq<u32>)
    ensures |Parse(stream).rest| <= |stream|
    decreases |stream|
  {
    if Complete(stream) {
      RestLength(stream[Words(stream[0])..]);
    }
  }

  /** Where the next command starts after a call. */
  function CurAfter(cur: nat, pending: seq<u32>, words: seq<u32>): nat {
    RestLength(pending + words);
    var rest := Parse(pending + words).rest;
    if words == [] then cur else if rest == [] then 0 else Wrap(cur + (|pending| + |words| - |rest|))
  }

  /** Each call of a run fits. */
  ghost predicate RunFits(cur: nat, pending: seq<u32>, chunks: seq<seq<u32>>)
    decreases |chunks|
  {
    chunks == [] ||
    (StepFits(cur, pending, chunks[0]) &&
     RunFits(CurAfter(cur, pending, chunks[0]), Parse(pending + chunks[0]).rest, chunks[1..]))
  }

  lemma NothingNew(pending: seq<u32>, words: seq<u32>)
    requires !Complete(pending)
    ensures words == [] ==> Parse(pending + words) == Parsed([], pending)
  {
    if words == [] {
      assert pending + words == pending;
    }
  }

  lemma WordsOrNone(l: List)
    requires l.Fetchable()
    ensures l.Words() == [] <==> l.start >= l.end
  {
  }

  lemma CallsStep(executed: seq<seq<u32>>, pending: seq<u32>, chunks: seq<seq<u32>>, i: nat)
    requires i < |chunks|
    ensures var p := Parse(pending + chunks[i]);
      && executed + Calls(pending, chunks[i..]).cmds == (executed + p.cmds) + Calls(p.rest, chunks[i + 1..]).cmds
      && Calls(pending, chunks[i..]).rest == Calls(p.rest, chunks[i + 1..]).rest
  {
    assert chunks[i..][1..] == chunks[i + 1..];
  }

  /** READ_RDP_DATA */
  function ReadRdpData(xbus: bool, rdram: seq<u32>, dmem: seq<u32>, address: nat): u32
    requires |dmem| == 1024 && address < 4 * |rdram|
  {
    if xbus then dmem[address % 0x1000 / 4] else rdram[address / 4]
  }

  function Fetched(xbus: bool, rdram: seq<u32>, dmem: seq<u32>, from: nat, end: nat): seq<u32>
    requires |dmem| == 1024 && end <= 4 * |rdram|
    decreases end - from
  {
    if from >= end then [] else [ReadRdpData(xbus, rdram, dmem, from)] + Fetched(xbus, rdram, dmem, from + 4, end)
  }

  /** Word `i` of a list, from the place in RDRAM, or in the 1024 words of DMEM, where it lies. */
  lemma {:induction false} FetchedAt(xbus: bool, rdram: seq<u32>, dmem: seq<u32>, from: nat, end: nat, i: nat)
    requires |dmem| == 1024 && end <= 4 * |rdram| && from + 4 * i < end
    ensures var words := Fetched(xbus, rdram, dmem, from, end);
      && 4 * (|words| - 1) < end - from <= 4 * |words|
      && words[i] == if xbus then dmem[(from / 4 + i) % 1024] else rdram[from / 4 + i]
    decreases end - from
  {
    hide ReadRdpData;
    WordAt(xbus, rdram, dmem, from);
    if from + 4 < end {
      FetchedAt(xbus, rdram, dmem, from + 4, end, if i > 0 then i - 1 else 0);
      assert (from + 4) / 4 == from / 4 + 1;
    }
  }

  lemma WordAt(xbus: bool, rdram: seq<u32>, dmem: seq<u32>, address: nat)
    requires |dmem| == 1024 && address < 4 * |rdram|
    ensures ReadRdpData(xbus, rdram, dmem, address) == if xbus then dmem[address / 4 % 1024] else rdram[address / 4]
  {
    assert address % 0x1000 == 4 * (address / 4 % 1024) + address % 4;
  }

  lemma LengthInWords(w: u32, length: nat)
    requires length == CmdLength(w as int / 0x100_0000 % 64)
    ensures length == 4 * Words(w)
  {
  }

  lemma ParseFirst(stream: seq<u32>, before: seq<seq<u32>>)
    requires Complete(stream)
    ensures var n := Words(stream[0]);
      Parse(stream[n..]).rest == Parse(stream).rest &&
      (before + [stream[..n]]) + Parse(stream[n..]).cmds == before + Parse(stream).cmds
  {
  }

  // -------------------------------------------------------------------------
  // A run after which a command spills too far

  function NoOps(n: nat): (words: seq<u32>)
    ensures |words| == 2 * n
  {
    if n == 0 then [] else [0, 0] + NoOps(n - 1)
  }

  lemma ParseNoOp(rest: seq<u32>)
    ensures Parse([0, 0] + rest).rest == Parse(rest).rest
  {
    assert Words(0) == 2;
    assert ([0, 0] + rest)[2..] == rest;
  }

  lemma ParseIncomplete(stream: seq<u32>)
    requires !Complete(stream)
    ensures Parse(stream) == Parsed([], stream)
  {
  }

  lemma NoOpsCons(n: nat, tail: seq<u32>)
    requires n > 0
    ensures NoOps(n) + tail == [0, 0] + (NoOps(n - 1) + tail)
  {
  }

  lemma {:induction false} ParseNoOps(n: nat, tail: seq<u32>)
    requires !Complete(tail)
    ensures Parse(NoOps(n) + tail).rest == tail
  {
    hide Parse, NoOps, Complete;
    if n == 0 {
      assert NoOps(0) + tail == tail;
      ParseIncomplete(tail);
    } else {
      NoOpsCons(n, tail);
      ParseNoOp(NoOps(n - 1) + tail);
      ParseNoOps(n - 1, tail);
    }
  }

  lemma {:induction false} FetchedAll(rdram: seq<u32>, dmem: seq<u32>, k: nat)
    requires |dmem| == 1024 && k <= |rdram|
    ensures Fetched(false, rdram, dmem, 4 * k, 4 * |rdram|) == rdram[k..]
    decreases |rdram| - k
  {
    if k < |rdram| {
      FetchedAll(rdram, dmem, k + 1);
      assert 4 * k + 4 == 4 * (k + 1);
    }
  }

  const TAIL: seq<u32> := [0x0F00_0000, 0]

  lemma TailIsPending(n: nat)
    requires 2 * n + 2 < MAXCMD
    ensures Parse(NoOps(n) + TAIL).rest == TAIL && SpillFits(0, NoOps(n) + TAIL)
  {
    assert Words(TAIL[0]) == 44;
    ParseNoOps(n, TAIL);
    EndsInSpillArea(0, NoOps(n) + TAIL);
  }

  lemma TailSpills(cur: nat, more: seq<u32>)
    requires cur + 12 > MAXCMD && |more| == 42
    ensures !SpillFits(cur, TAIL + more)
  {
    assert Words((TAIL + more)[0]) == 44;
  }

  /**
   * One call on no-ops up to ten words before the end of the ring and the first two words of a command of 44 leaves a
   * state in which the other 42 words spill 34.
   */
  method FillRing(dmem: seq<u32>) returns (r: RdpInfo)
    requires |dmem| == 1024
    ensures r.Valid() && r.cmdCur == MAXCMD - 10 && r.pending == TAIL
    ensures forall more: seq<u32> :: |more| == 42 ==> !SpillFits(r.cmdCur, r.pending + more)
  {
    hide NoOps, Parse, Fetched, SpillFits;
    var noOps := MAXCMD / 2 - 5;
    var rdram := NoOps(noOps) + TAIL;
    TailIsPending(noOps);
    r := new RdpInfo();
    r.dpEnd := 4 * |rdram|;
    FetchedAll(rdram, dmem, 0);
    assert r.pending + r.Incoming(rdram, dmem) == rdram;
    r.ProcessRDPList(false, rdram, dmem);
    forall more: seq<u32> | |more| == 42
      ensures !SpillFits(r.cmdCur, r.pending + more)
    {
      TailSpills(r.cmdCur, more);
    }
  }
}
