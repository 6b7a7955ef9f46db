/** The manager class: its six-bit flag set, shared memory and log, changed in place, against the
    specification functions of the other modules. */
module Manager {
  import opened Types
  import opened Seqs
  import opened Sql
  import opened Retention
  import opened Gathering
  import opened Columns
  import opened Requests
  import Hash
  import Serving
  import Table
  import Alarms

  // ---------- the flag bits ----------

  const NEW_EMPTY: bv8 := 0
  const NEW_FULL_ROW_MSK: bv8 := 0x3f

  function Bit(k: Kind): bv8 {
    match k
    case Counter => 0x01
    case Capacity => 0x02
    case Volume => 0x04
    case Alarm => 0x08
    case CapacityAvg => 0x10
    case Timeouts => 0x20
  }

  /** The kinds whose bits are set. */
  function FlagSet(flags: bv8): set<Kind> {
    set k | k in ALL_KINDS && flags & Bit(k) != 0
  }

  lemma FlagSetOr(flags: bv8, k: Kind)
    ensures FlagSet(flags | Bit(k)) == FlagSet(flags) + {k}
    ensures flags & 0xC0 == 0 ==> (flags | Bit(k)) & 0xC0 == 0
  {
    SixKinds(k);
    forall j: Kind ensures (flags | Bit(k)) & Bit(j) != 0 <==> flags & Bit(j) != 0 || j == k {
      OneBit(flags, j, k);
    }
  }

  lemma OneBit(flags: bv8, j: Kind, k: Kind)
    ensures (flags | Bit(k)) & Bit(j) != 0 <==> flags & Bit(j) != 0 || j == k
  {
  }

  /** Testing the word for empty and full is testing the set. */
  lemma FlagSetBounds(flags: bv8)
    requires flags & 0xC0 == 0
    ensures flags == NEW_EMPTY <==> FlagSet(flags) == {}
    ensures flags == NEW_FULL_ROW_MSK <==> FlagSet(flags) == ALL_KINDS
  {
    if FlagSet(flags) == {} {
      assert forall k :: k in ALL_KINDS ==> k !in FlagSet(flags);
      assert Counter in ALL_KINDS && Capacity in ALL_KINDS && Volume in ALL_KINDS;
      assert Alarm in ALL_KINDS && CapacityAvg in ALL_KINDS && Timeouts in ALL_KINDS;
    }
    if FlagSet(flags) == ALL_KINDS {
      assert forall k :: k in ALL_KINDS ==> k in FlagSet(flags);
      assert Counter in ALL_KINDS && Capacity in ALL_KINDS && Volume in ALL_KINDS;
      assert Alarm in ALL_KINDS && CapacityAvg in ALL_KINDS && Timeouts in ALL_KINDS;
    }
  }

  // ---------- the class ----------

  /** The block mapped into both processes; the mutex is not modelled here. */
  class SharedMem {
    var counter: int32
    var capacity: Float
    var capacityAvg: Float
    var volume: Float
    var alarms: bv32
    const timeouts: array<int16>
    var lastTime: int

    constructor ()
      ensures fresh(timeouts) && timeouts.Length == 4
      ensures Mem(counter, capacity, capacityAvg, volume, alarms, timeouts[..], lastTime) == INITIAL_MEM
      ensures counter == -1 && capacity == Normal(-1.0) && volume == Normal(-1.0)
      ensures alarms == 0 && capacityAvg == Zero && timeouts[..] == [0, 0, 0, 0]
    {
      counter, capacity, capacityAvg, volume := -1, Normal(-1.0), Zero, Normal(-1.0);
      alarms, lastTime := 0, 0;
      timeouts := new int16[4](i => 0);
    }
  }

  class Up2Web {
    const smem: SharedMem
    const limits: Limits
    const charKind: Hash.CharKind
    var flags: bv8
    var log: seq<Row>

    ghost predicate Valid()
      reads this
    {
      limits.Valid() && smem.timeouts.Length == 4 && flags & 0xC0 == 0
    }

    ghost function Memory(): Mem
      reads this, smem, smem.timeouts
      requires Valid()
    {
      Mem(smem.counter, smem.capacity, smem.capacityAvg, smem.volume, smem.alarms, smem.timeouts[..], smem.lastTime)
    }

    /** The abstract state of the gathering machine. */
    ghost function State(): Gather
      reads this, smem, smem.timeouts
      requires Valid()
    {
      Gather(Memory(), FlagSet(flags))
    }

    constructor (limits: Limits, charKind: Hash.CharKind, stored: seq<Row>)
      requires limits.Valid()
      ensures Valid() && fresh(smem) && fresh(smem.timeouts)
      ensures State() == Gather(INITIAL_MEM, {}) && log == stored
      ensures smem.counter == -1 && smem.capacity == Normal(-1.0) && smem.volume == Normal(-1.0)
      ensures smem.alarms == 0 && smem.capacityAvg == Zero && smem.timeouts[..] == [0, 0, 0, 0] && flags == 0
      ensures this.limits == limits && this.charKind == charKind
    {
      smem := new SharedMem();
      this.limits, this.charKind := limits, charKind;
      flags, log := NEW_EMPTY, stored;
      new;
      FlagSetBounds(NEW_EMPTY);
    }

    method UpdateAccumulator(val: uint32)
      requires Valid()
      modifies `flags, smem
      ensures Valid() && State() == Receive(old(State()), CounterMsg(val))
      ensures smem.counter == if val < 0x8000_0000 then val else val - 0x1_0000_0000
      ensures Memory() == old(Memory()).(counter := smem.counter)
      ensures flags == if old(flags) != 0 then old(flags) | 0x01
                       else if old(smem.counter) != smem.counter then 0x01 else 0
    {
      CounterWordIs(val);
      FlagSetBounds(flags);
      FlagSetOr(flags, Counter);
      FlagSetOr(NEW_EMPTY, Counter);
      FlagSetBounds(NEW_EMPTY);
      if flags != NEW_EMPTY {
        flags := flags | Bit(Counter);
      } else if smem.counter != ToInt32(val) {
        flags := Bit(Counter);
      }
      smem.counter := ToInt32(val);
    }

    method UpdatePumpCapacity(level: Float)
      requires Valid()
      modifies `flags, smem
      ensures Valid() && State() == Receive(old(State()), CapacityMsg(level))
      ensures smem.capacity == if level.Normal? then level else Zero
      ensures Memory() == old(Memory()).(capacity := smem.capacity)
      ensures flags == if old(flags) != 0 then old(flags) | 0x02 else 0
    {
      var val := level;
      if !val.Normal? { val := Zero; }
      FlagSetBounds(flags);
      FlagSetOr(flags, Capacity);
      if flags != NEW_EMPTY {
        flags := flags | Bit(Capacity);
      }
      smem.capacity := val;
    }

    method UpdatePumpCapacityAvg(level: Float)
      requires Valid()
      modifies `flags, smem
      ensures Valid() && State() == Receive(old(State()), CapacityAvgMsg(level))
      ensures smem.capacityAvg == if level.Normal? then level else Zero
      ensures Memory() == old(Memory()).(capacityAvg := smem.capacityAvg)
      ensures flags == if old(flags) != 0 then old(flags) | 0x10 else 0
    {
      var val := level;
      if !val.Normal? { val := Zero; }
      FlagSetBounds(flags);
      FlagSetOr(flags, CapacityAvg);
      if flags != NEW_EMPTY {
        flags := flags | Bit(CapacityAvg);
      }
      smem.capacityAvg := val;
    }

    method UpdateTankVolume(level: Float)
      requires Valid()
      modifies `flags, smem
      ensures Valid() && State() == Receive(old(State()), VolumeMsg(level))
      ensures smem.volume == if level.Normal? then level else Zero
      ensures Memory() == old(Memory()).(volume := smem.volume)
      ensures flags == if old(flags) != 0 then old(flags) | 0x04 else 0
    {
      var val := level;
      if !val.Normal? { val := Zero; }
      FlagSetBounds(flags);
      FlagSetOr(flags, Volume);
      if flags != NEW_EMPTY {
        flags := flags | Bit(Volume);
      }
      smem.volume := val;
    }

    method UpdateAlarms(val: bv32, now: int)
      requires Valid()
      modifies `flags, smem
      ensures Valid() && State() == Receive(old(State()), AlarmMsg(val, now))
      ensures smem.alarms == val && smem.lastTime == now
      ensures Memory() == old(Memory()).(alarms := smem.alarms, lastTime := now)
      ensures flags == if old(flags) != 0 then old(flags) | 0x08
                       else if old(smem.alarms) != smem.alarms then 0x08 else 0
    {
      FlagSetBounds(flags);
      FlagSetOr(flags, Alarm);
      FlagSetOr(NEW_EMPTY, Alarm);
      FlagSetBounds(NEW_EMPTY);
      if flags != NEW_EMPTY {
        flags := flags | Bit(Alarm);
      } else if smem.alarms != val {
        flags := Bit(Alarm);
      }
      smem.alarms := val;
      smem.lastTime := now;
    }

    method UpdatePPtimeouts(val: array<int16>)
      requires Valid() && val.Length == 4 && val != smem.timeouts
      modifies `flags, smem.timeouts
      ensures Valid() && State() == Receive(old(State()), TimeoutsMsg(val[..]))
      ensures smem.timeouts[..] == val[..]
      ensures Memory() == old(Memory()).(timeouts := smem.timeouts[..])
      ensures flags == if old(flags) != 0 then old(flags) | 0x20 else 0
    {
      FlagSetBounds(flags);
      FlagSetOr(flags, Timeouts);
      if flags != NEW_EMPTY {
        flags := flags | Bit(Timeouts);
      }
      for i := 0 to 4
        modifies smem.timeouts
        invariant smem.timeouts[..i] == val[..i]
        invariant val[..] == old(val[..])
      {
        smem.timeouts[i] := val[i];
      }
      assert smem.timeouts[..] == val[..];
    }

    /** Tries to store the gathered row: resets a full flag set first, then inserts, counts, and deletes the
        oldest band when the table is over its bound. out says which statements succeed. */
    method DB_AddRow(date: int, out: Outcome) returns (code: int)
      requires Valid()
      modifies `flags, `log
      ensures Valid()
      ensures var g := old(State());
              if g.flags != ALL_KINDS then State() == g && log == old(log) && code == 0
              else State() == g.(flags := {}) && (log, code) == Append(limits, old(log), Call(g.mem, date, out))
      ensures Memory() == old(Memory()) && (old(flags) == 0x3f <==> flags != old(flags))
      ensures code == if old(flags) != 0x3f then 0
                      else if !out.insertOk then 1
                      else if !out.countOk then 2
                      else if |old(log)| + 1 < limits.maxRows + limits.threshold then 0
                      else if !out.minOk then 3
                      else if !out.deleteOk then 4
                      else 0
      ensures old(flags) == 0x3f && Contiguous(old(log)) ==>
                var id := if old(log) == [] then 1 else old(log)[|old(log)| - 1].id + 1;
                var grown := old(log) + [Row(id, date, smem.counter, smem.capacity, smem.capacityAvg, smem.volume,
                                             smem.timeouts[..], SignExtend(smem.alarms))];
                log == if !out.insertOk then old(log)
                       else if out == ALL_OK && |grown| >= limits.maxRows + limits.threshold then grown[limits.threshold..]
                       else grown
    {
      hide NextId, MinId, Filter, SignExtend, FlagSet, Contiguous;
      FlagSetBounds(flags);
      FlagSetBounds(NEW_EMPTY);
      if flags != NEW_FULL_ROW_MSK { return 0; }
      flags := NEW_EMPTY;
      var mem := Mem(smem.counter, smem.capacity, smem.capacityAvg, smem.volume, smem.alarms, smem.timeouts[..],
                     smem.lastTime);
      AppendMeans(limits, log, Call(mem, date, out));
      if !out.insertOk { return 1; }
      log := log + [RowOf(mem, NextId(log), date)];
      if !out.countOk { return 2; }
      var rowCount := |log|;
      if rowCount < limits.maxRows + limits.threshold { return 0; }
      var minId := MinId(log, Always);
      if !out.minOk || minId.None? { return 3; }
      if !out.deleteOk { return 4; }
      log := DeleteBelow(log, minId.value + limits.threshold);
      return 0;
    }

    // ---------- requests ----------

    /** The base lookup; direction and amount are changed as the reference parameters are. */
    method DBreqGetBaseID(req: Request, direction: bool, amount: int, sqlOk: bool)
      returns (res: int, direction': bool, amount': int)
      requires direction == GoesUp(req) && amount == GetAmount(req)
      ensures Base(res, direction', amount') == Resolve(log, req, charKind, sqlOk)
    {
      res, direction', amount' := -1, direction, amount;
      if req.base.None? || !req.base.value.JText? { return; }
      var str := req.base.value.bytes + [0];
      assert str[|str| - 1] == 0;
      var h := Hash.StrHashVol(str, 256, charKind);
      hide Hash.HashOf, Hash.StrHash, Hash.Text;
      var taken := Hash.CaseOf(h, charKind);
      assert taken == Hash.CaseTaken(req.base.value.bytes, charKind);
      match taken {
        case None =>
        case Some(Last) =>
          var m := MaxId(log, Always);
          if !sqlOk || m.None? { return -2, direction, amount; }
          res, direction' := m.value, false;
        case Some(First) =>
          var m := MinId(log, Always);
          if !sqlOk || m.None? { return -2, direction, amount; }
          res, direction' := m.value, true;
        case Some(Id) =>
          if req.id.None? { return; }
          var id := IntValue(req.id);
          if !sqlOk { return -2, direction, amount; }
          if IdStored(log, id) { res := id; }
          if res != id { amount' := 0; }
        case Some(Date) =>
          if req.date.None? { return; }
          var date := IntValue(req.date);
          var m := if direction then MinId(log, DateAtLeast(date)) else MaxId(log, DateAtMost(date));
          if !sqlOk || m.None? { return -2, direction, amount; }
          res := m.value;
        case Some(Counter) =>
          if req.counter.None? { return; }
          var counter := IntValue(req.counter);
          var m := if direction then MinId(log, CounterAtLeast(counter)) else MaxId(log, CounterAtMost(counter));
          if !sqlOk || m.None? { return -2, direction, amount; }
          res := m.value;
      }
    }

    /** A table request. The base lookup reads this log; the data query reads the table as it is by then.
        The column array is left with the known names only. */
    method DB_ServeTableRequest(req: Request, columns: JsonArray?, later: seq<Row>, baseOk: bool, dataOk: bool)
      returns (code: int, data: Data, amount: int)
      modifies columns
      ensures columns != null ==> columns.elems == Known(old(columns.elems))
      ensures if columns == null || columns.elems == [] then code == -2
              else match Serving.ServeTable(log, later, req, charKind, baseOk, dataOk)
                case Error(c) => code == c
                case Rows(rows) =>
                  && code == 0 && data == Pivot(rows, columns.elems)
                  && amount == |rows| * Times(columns.elems, columns.elems[|columns.elems| - 1])
    {
      data, amount := map[], 0;
      var direction, rowAmount := GoesUp(req), GetAmount(req);
      if columns == null { return -2, data, 0; }
      var sql, counterListed := FilterColumns(columns);
      if sql == "" { return -2, data, 0; }
      KnownAreKnown(old(columns.elems));
      ListGivesNamesBack(columns.elems);
      hide FieldNames, Resolve, Table.Answer, Pivot, Times, IsInColumns, Known, ListOf;
      var base;
      base, direction, rowAmount := DBreqGetBaseID(req, direction, rowAmount, baseOk);
      if base < 0 { return base, data, 0; }
      code, data, amount := RetrieveData(sql, Table.Answer(later, direction, base, rowAmount), dataOk);
    }

    /** An alarm request; the columns are fixed. */
    method DB_ServeAlarmsRequest(req: Request, later: seq<Row>, baseOk: bool, dataOk: bool)
      returns (code: int, data: Data, amount: int)
      ensures match Serving.ServeAlarms(log, later, req, charKind, baseOk, dataOk)
                case Error(c) => code == c
                case Rows(rows) =>
                  code == 0 && data == Pivot(rows, ["date", "WF_counter", "alarms"]) && amount == |rows|
    {
      hide FieldNames, Resolve, Alarms.AlarmAnswer, Pivot, Times, GetFilter, GoesUp, GetAmount;
      data, amount := map[], 0;
      var direction, rowAmount := GoesUp(req), GetAmount(req);
      var base;
      base, direction, rowAmount := DBreqGetBaseID(req, direction, rowAmount, baseOk);
      if base < 0 { return base, data, 0; }
      var fields := "date, WF_counter, alarms";
      AlarmFields();
      code, data, amount :=
        RetrieveData(fields, Alarms.AlarmAnswer(later, direction, base, GetFilter(req), rowAmount), dataOk);
    }
  }

  lemma AlarmFields()
    ensures var names := FieldNames("date, WF_counter, alarms");
            names == ["date", "WF_counter", "alarms"] && Times(names, names[|names| - 1]) == 1
  {
    AlarmPieces();
    AlarmNames();
    hide FieldNames, Join, Proper, Times, Pivot;
    assert ["date", "WF_counter", "alarms"][2] == "alarms";
    PivotIsTranspose([], ["date", "WF_counter", "alarms"], "alarms");
    SplitGivesNamesBack(["date", " WF_counter", " alarms"], ["date", "WF_counter", "alarms"]);
  }

  lemma AlarmNames()
    ensures Proper("date") && Proper("WF_counter") && Proper("alarms")
    ensures DistinctNames(["date", "WF_counter", "alarms"])
    ensures " " + "WF_counter" == " WF_counter" && " " + "alarms" == " alarms"
  {
    assert "date"[0] == 'd' && "WF_counter"[0] == 'W' && "alarms"[0] == 'a';
  }

  lemma AlarmPieces()
    ensures Join(["date", " WF_counter", " alarms"]) == "date, WF_counter, alarms"
  {
    TailOfConcat(["date"], [" WF_counter", " alarms"]);
    TailOfConcat([" WF_counter"], [" alarms"]);
    assert ["date", " WF_counter", " alarms"][1..] == [" WF_counter", " alarms"];
    assert [" WF_counter", " alarms"][1..] == [" alarms"];
    assert " WF_counter" + "," + " alarms" == " WF_counter, alarms";
    assert "date" + "," + " WF_counter, alarms" == "date, WF_counter, alarms";
  }
}
