/** The mesh side: dispatching received messages to the manager, remembering where they came from, and
    sending commands back there. One handler call executes one message and tries to store one row. */
module Bridge {
  import opened Types
  import opened Seqs
  import opened Sql
  import opened Retention
  import opened Gathering
  import opened Manager
  import Epochs

  const PRX_BLE_MESH_COPY := 1
  const GROUP_WATERPUMP := 0xC00C
  const OP_SET_PARAM := 0xC0_02E5
  const OP_GET_PARAM := 0xC1_02E5
  const OP_STATUS_COUNTER := 0xC8_02E5
  const OP_STATUS_CAPACITY := 0xC9_02E5
  const OP_STATUS_TK_VOL := 0xCA_02E5
  const OP_STATUS_ALARM := 0xCB_02E5
  const OP_STATUS_PP_TIMEOUTS := 0xCC_02E5
  const OP_STATUS_CAP_AVG := 0xCD_02E5
  const PC2BLE_MAX_LENGTH := 8
  const HEADER_LENGTH := 11

  /** A received buffer: header fields, and the payload bytes as each kind of message reads them. */
  datatype Packet = Packet(
    ptype: int, src: uint16, dst: uint16, opcode: int, length: int,
    word: uint32, bits: bv32, level: Float, quad: Quad)
  {
    /** A copy of a message sent to the water-pump group. */
    predicate ForWaterPump() {
      ptype == PRX_BLE_MESH_COPY && dst == GROUP_WATERPUMP
    }

    /** The message, when group, opcode and length agree; now is the clock an alarm's handling reads. */
    function Decode(now: int): Message {
      if !ForWaterPump() then Ignored
      else if opcode == OP_STATUS_COUNTER && length == 4 then CounterMsg(word)
      else if opcode == OP_STATUS_CAPACITY && length == 4 then CapacityMsg(level)
      else if opcode == OP_STATUS_CAP_AVG && length == 4 then CapacityAvgMsg(level)
      else if opcode == OP_STATUS_TK_VOL && length == 4 then VolumeMsg(level)
      else if opcode == OP_STATUS_PP_TIMEOUTS && length == 8 then TimeoutsMsg(quad)
      else if opcode == OP_STATUS_ALARM && length == 4 then AlarmMsg(bits, now)
      else Ignored
    }
  }

  /** The buffer before anything was received: all zero. */
  const NO_PACKET := Packet(0, 0, 0, 0, 0, 0, 0, Zero, [0, 0, 0, 0])

  /** Where the last water-pump message executed came from; 0 if there was none. */
  function LastSource(executed: seq<Packet>): uint16 {
    if executed == [] then 0
    else if executed[|executed| - 1].ForWaterPump() then executed[|executed| - 1].src
    else LastSource(executed[..|executed| - 1])
  }

  /** It is the source of the last packet of type 1 sent to group 0xC00C, and 0 if there was none. */
  lemma {:induction false} LastSourceIs(executed: seq<Packet>, i: nat)
    requires i <= |executed|
    requires forall j :: i <= j < |executed| ==> !(executed[j].ptype == 1 && executed[j].dst == 0xC00C)
    ensures i == 0 ==> LastSource(executed) == 0
    ensures i > 0 && executed[i - 1].ptype == 1 && executed[i - 1].dst == 0xC00C ==>
              LastSource(executed) == executed[i - 1].src
    decreases |executed|
  {
    if i < |executed| { LastSourceIs(executed[..|executed| - 1], i); }
  }

  /** An outgoing frame, filled in place. */
  class Frame {
    var ptype: int
    var src: uint16
    var dst: uint16
    var opcode: int
    var length: int
    var total: int
    const msg: array<bv8>

    constructor ()
      ensures fresh(msg) && msg.Length == 245
    {
      ptype, src, dst, opcode, length, total := 0, 0, 0, 0, 0, 0;
      msg := new bv8[245](i => 0);
    }
  }

  const START := Gather(INITIAL_MEM, {})

  /** What executing a packet does to memory, field by field, and when it leaves memory and flags alone. */
  ghost predicate Executed(p: Packet, now: int, was: Mem, mem: Mem, flags: bv8, flags': bv8) {
    var pump := p.ptype == 1 && p.dst == 0xC00C;
    if pump && p.opcode == 0xC8_02E5 && p.length == 4 then
      mem == was.(counter := if p.word < 0x8000_0000 then p.word else p.word - 0x1_0000_0000)
    else if pump && p.opcode == 0xC9_02E5 && p.length == 4 then
      mem == was.(capacity := if p.level.Normal? then p.level else Zero)
    else if pump && p.opcode == 0xCA_02E5 && p.length == 4 then
      mem == was.(volume := if p.level.Normal? then p.level else Zero)
    else if pump && p.opcode == 0xCB_02E5 && p.length == 4 then
      mem == was.(alarms := p.bits, lastTime := now)
    else if pump && p.opcode == 0xCC_02E5 && p.length == 8 then
      mem == was.(timeouts := p.quad)
    else if pump && p.opcode == 0xCD_02E5 && p.length == 4 then
      mem == was.(capacityAvg := if p.level.Normal? then p.level else Zero)
    else
      mem == was && flags' == flags
  }

  class BleBridge {
    const up2web: Up2Web
    const outgoing: Frame
    var incoming: Packet
    var dstAddrPrev: uint16      // the private copy that spares repeated writes
    var dstAddr: uint16          // the shared destination address
    ghost const stored: seq<Row>       // the table at start
    ghost var executed: seq<Packet>    // every message executed
    ghost var ticks: seq<Tick>         // every handler call made
    ghost var lastNow: int

    ghost predicate Valid()
      reads this, up2web
    {
      && up2web.Valid() && outgoing.msg.Length == 245
      && dstAddr == dstAddrPrev == LastSource(executed)
    }

    /** Between handler calls, manager and table are where a run of the gathering machine leads. */
    ghost predicate Follows()
      reads this, up2web, up2web.smem, up2web.smem.timeouts
      requires Valid()
    {
      && up2web.State() == Run(START, ticks)
      && up2web.log == LogAfter(up2web.limits, stored, Calls(START, ticks))
      && (ticks == [] ==> incoming == NO_PACKET)
      && (ticks != [] ==> ticks[|ticks| - 1].msg == incoming.Decode(lastNow))
    }

    constructor (up2web: Up2Web)
      requires up2web.Valid() && up2web.State() == START
      ensures Valid() && Follows() && this.up2web == up2web && executed == [] && ticks == []
      ensures dstAddr == 0 && incoming.ptype == 0 && stored == up2web.log
      ensures fresh(outgoing) && fresh(outgoing.msg)
    {
      this.up2web := up2web;
      outgoing := new Frame();
      incoming, dstAddrPrev, dstAddr, lastNow := NO_PACKET, 0, 0, 0;
      stored, executed, ticks := up2web.log, [], [];
    }

    method UpdatePPmeshAddr(addr: uint16)
      modifies `dstAddr
      ensures dstAddr == addr
    {
      dstAddr := addr;
    }

    /** Copies the four timeouts out of the message, as many as the destination holds. */
    method ReceiveTimeouts(quad: Quad)
      requires up2web.Valid()
      modifies up2web`flags, up2web.smem.timeouts
      ensures up2web.Valid() && up2web.State() == Receive(old(up2web.State()), TimeoutsMsg(quad))
    {
      var dat := new int16[4];
      for i := 0 to 4
        modifies dat
        invariant dat[..i] == quad[..i]
      {
        dat[i] := quad[i];
      }
      assert dat[..] == quad;
      up2web.UpdatePPtimeouts(dat);
    }

    /** Remembers where a water-pump message came from, writing the shared address only when it changed. */
    method RememberSource(src: uint16)
      modifies `dstAddrPrev, `dstAddr
      ensures dstAddrPrev == src
      ensures dstAddr == if old(dstAddrPrev) == src then old(dstAddr) else src
      ensures old(dstAddr == dstAddrPrev) ==> dstAddr == src
    {
      if dstAddrPrev != src {
        dstAddrPrev := src;
        UpdatePPmeshAddr(dstAddrPrev);
      }
    }

    /** The switch on the opcode of a water-pump message. */
    method Dispatch(m: Packet, now: int)
      requires up2web.Valid() && m.ForWaterPump()
      modifies up2web`flags, up2web.smem, up2web.smem.timeouts
      ensures up2web.Valid() && up2web.State() == Receive(old(up2web.State()), m.Decode(now))
      ensures m.Decode(now).Ignored? ==> up2web.flags == old(up2web.flags)
    {
      if m.opcode == OP_STATUS_COUNTER {
        if m.length == 4 { up2web.UpdateAccumulator(m.word); }
      } else if m.opcode == OP_STATUS_CAPACITY {
        if m.length == 4 { up2web.UpdatePumpCapacity(m.level); }
      } else if m.opcode == OP_STATUS_CAP_AVG {
        if m.length == 4 { up2web.UpdatePumpCapacityAvg(m.level); }
      } else if m.opcode == OP_STATUS_TK_VOL {
        if m.length == 4 { up2web.UpdateTankVolume(m.level); }
      } else if m.opcode == OP_STATUS_PP_TIMEOUTS {
        if m.length == 8 { ReceiveTimeouts(m.quad); }
      } else if m.opcode == OP_STATUS_ALARM {
        if m.length == 4 { up2web.UpdateAlarms(m.bits, now); }
      }
    }

    /** Executes the message in the buffer. Whatever was skipped, the shared address is the source of the
        last water-pump message executed. */
    method MessageExec(now: int)
      requires Valid()
      modifies `dstAddrPrev, `dstAddr, `executed, up2web`flags, up2web.smem, up2web.smem.timeouts
      ensures Valid() && executed == old(executed) + [incoming]
      ensures up2web.State() == Receive(old(up2web.State()), incoming.Decode(now))
      ensures dstAddr == if incoming.ptype == 1 && incoming.dst == 0xC00C then incoming.src else old(dstAddr)
      ensures Executed(incoming, now, old(up2web.Memory()), up2web.Memory(), old(up2web.flags), up2web.flags)
    {
      hide Receive, FlagSet, Store, Executed;
      ghost var g, flags := up2web.State(), up2web.flags;
      ReceiveIgnored(g);
      ReceiveStores(g, incoming.Decode(now));
      InitOfConcat(executed, [incoming]);
      executed := executed + [incoming];
      if incoming.ptype == PRX_BLE_MESH_COPY && incoming.dst == GROUP_WATERPUMP {
        RememberSource(incoming.src);
        Dispatch(incoming, now);
      }
      PacketStores(incoming, g.mem, now, flags, up2web.flags);
    }

    /** One handler call: a successful read replaces the buffer, and whatever is in the buffer is executed;
        then DB_AddRow is tried. The state goes on being one that a run leads to. A call whose read brings
        nothing stores no row and changes nothing in memory but the time of an alarm message. */
    method Handle(read: Option<Packet>, now: int, date: int, out: Outcome)
      requires Valid() && Follows()
      modifies this, up2web, up2web.smem, up2web.smem.timeouts
      ensures Valid() && Follows()
      ensures incoming == (if read.Some? then read.value else old(incoming)) && executed == old(executed) + [incoming]
      ensures ticks == old(ticks) + [Tick(incoming.Decode(now), date, out)]
      ensures read.None? ==>
                && up2web.log == old(up2web.log)
                && up2web.State() == old(up2web.State()).(mem := old(up2web.State()).mem.(lastTime := up2web.smem.lastTime))
    {
      hide Receive, Append, RowOf, Run, Calls, LastSource, FlagSet, Store, Opens, Executed, Contiguous, SignExtend;
      ghost var t := Tick(read.GetOr(incoming).Decode(now), date, out);
      ghost var before := up2web.State();
      ghost var log := up2web.log;
      Epochs.StepAfterRun(up2web.limits, stored, START, ticks, t);
      if read.None? { RepeatIsHarmless(ticks, incoming, lastNow, now); }
      if read.Some? { incoming := read.value; }
      MessageExec(now);
      ghost var g := up2web.State();
      var code := up2web.DB_AddRow(date, out);
      if g.flags == ALL_KINDS { OneCall(up2web.limits, log, Call(g.mem, date, out)); }
      assert Emitted(before, t) == if g.flags == ALL_KINDS then [Call(g.mem, date, out)] else [];
      ticks := ticks + [t];
      lastNow := now;
    }

    /** Sends a command to the last known source. It succeeds exactly when one is known, the opcode is one of
        the two allowed and the payload fits; then the frame goes to that source with that payload. */
    method Send(opcode: int, length: nat, msg: array<bv8>) returns (code: int)
      requires Valid() && length <= msg.Length && msg != outgoing.msg
      modifies outgoing, outgoing.msg
      ensures Valid()
      ensures code == 0 <==> dstAddr != 0 && (opcode == 0xC0_02E5 || opcode == 0xC1_02E5) && length <= 8
      ensures code == 0 ==>
                && outgoing.dst == dstAddr == LastSource(executed)
                && outgoing.opcode == opcode && outgoing.ptype == 1 && outgoing.src == 0
                && outgoing.length == length && outgoing.total == length + 11
                && outgoing.msg[..length] == msg[..length]
      ensures code == -1 <==> dstAddr == 0
      ensures code == -1 ==> unchanged(outgoing)
      ensures code == -2 <==> dstAddr != 0 && opcode != 0xC0_02E5 && opcode != 0xC1_02E5
      ensures code == 0 || code == -1 || code == -2 || code == -3
      ensures code != 0 ==> unchanged(outgoing.msg) && outgoing.total == old(outgoing.total)
    {
      var dst := dstAddr;
      if dst == 0 { return -1; }
      outgoing.dst := dst;
      if opcode != OP_SET_PARAM && opcode != OP_GET_PARAM { return -2; }
      if length > PC2BLE_MAX_LENGTH { return -3; }
      outgoing.ptype := PRX_BLE_MESH_COPY;
      outgoing.length := length;
      outgoing.opcode := opcode;
      outgoing.src := 0;
      for i := 0 to length
        modifies outgoing.msg
        invariant outgoing.msg[..i] == msg[..i]
        invariant msg[..] == old(msg[..])
      {
        outgoing.msg[i] := msg[i];
      }
      outgoing.total := length + HEADER_LENGTH;
      code := 0;
    }
  }

  lemma PacketStores(p: Packet, was: Mem, now: int, flags: bv8, flags': bv8)
    requires p.Decode(now).Ignored? ==> flags' == flags
    ensures Executed(p, now, was, Store(was, p.Decode(now)), flags, flags')
  {
    CounterWordIs(p.word);
  }

  lemma ReceiveStores(g: Gather, m: Message)
    ensures Receive(g, m).mem == Store(g.mem, m)
  {
  }

  lemma ReceiveIgnored(g: Gather)
    ensures Receive(g, Ignored) == g
  {
  }

  /** Executing the buffer again after a run that ended with it. */
  lemma RepeatIsHarmless(ticks: seq<Tick>, p: Packet, lastNow: int, now: int)
    requires ticks == [] ==> p == NO_PACKET
    requires ticks != [] ==> ticks[|ticks| - 1].msg == p.Decode(lastNow)
    ensures var g := Run(START, ticks);
            && Receive(g, p.Decode(now)).flags == g.flags != ALL_KINDS
            && After(g, p.Decode(now)) == g.(mem := g.mem.(lastTime := After(g, p.Decode(now)).mem.lastTime))
  {
    FlagsStayOk(START, ticks);
    if ticks != [] {
      var init := ticks[..|ticks| - 1];
      FlagsStayOk(START, init);
      RetryIsHarmless(Run(START, init), p.Decode(lastNow), p.Decode(now));
    }
  }
}
