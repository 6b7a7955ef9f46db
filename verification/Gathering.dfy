/** The row-gathering machine: the Update functions and the flag half of DB_AddRow, one message and one
    DB_AddRow attempt a step. */
module Gathering {
  import opened Types
  import opened Seqs
  import opened Retention

  datatype Kind = Counter | Capacity | Volume | Alarm | CapacityAvg | Timeouts

  const ALL_KINDS: set<Kind> := {Counter, Capacity, Volume, Alarm, CapacityAvg, Timeouts}

  /** A mesh message as BLE_message_exec understands it; an alarm's handling also reads the clock. */
  datatype Message =
    | CounterMsg(count: uint32)
    | CapacityMsg(level: Float)
    | CapacityAvgMsg(level: Float)
    | VolumeMsg(level: Float)
    | AlarmMsg(word: bv32, now: int)
    | TimeoutsMsg(quad: Quad)
    | Ignored
  {
    function Kind(): Option<Kind> {
      match this
      case CounterMsg(_) => Some(Counter)
      case CapacityMsg(_) => Some(Capacity)
      case CapacityAvgMsg(_) => Some(CapacityAvg)
      case VolumeMsg(_) => Some(Volume)
      case AlarmMsg(_, _) => Some(Alarm)
      case TimeoutsMsg(_) => Some(Timeouts)
      case Ignored => None
    }
  }

  /** Shared memory after one message. */
  function Store(mem: Mem, m: Message): Mem {
    match m
    case CounterMsg(v) => mem.(counter := ToInt32(v))
    case CapacityMsg(f) => mem.(capacity := Sanitise(f))
    case CapacityAvgMsg(f) => mem.(capacityAvg := Sanitise(f))
    case VolumeMsg(f) => mem.(volume := Sanitise(f))
    case AlarmMsg(w, now) => mem.(alarms := w, lastTime := now)
    case TimeoutsMsg(q) => mem.(timeouts := q)
    case Ignored => mem
  }

  /** Only a changed counter or alarm word starts a new row. */
  predicate Opens(mem: Mem, m: Message) {
    match m
    case CounterMsg(v) => mem.counter != ToInt32(v)
    case AlarmMsg(w, _) => mem.alarms != w
    case _ => false
  }

  /** The memory block and the kinds refreshed for the row being gathered; {} when none is. */
  datatype Gather = Gather(mem: Mem, flags: set<Kind>)

  /** One Update call. */
  function Receive(g: Gather, m: Message): Gather {
    Gather(Store(g.mem, m),
           if m.Kind().None? then g.flags
           else if g.flags != {} || Opens(g.mem, m) then g.flags + {m.Kind().value}
           else {})
  }

  /** One message and one DB_AddRow attempt: a full flag set is reset, whatever becomes of the INSERT. */
  function After(g: Gather, m: Message): Gather {
    if Receive(g, m).flags == ALL_KINDS then Receive(g, m).(flags := {}) else Receive(g, m)
  }

  datatype Tick = Tick(msg: Message, date: int, out: Outcome)

  /** The database call, if any, that a step makes. */
  function Emitted(g: Gather, t: Tick): seq<Call> {
    if Receive(g, t.msg).flags == ALL_KINDS then [Call(Receive(g, t.msg).mem, t.date, t.out)] else []
  }

  function Run(g: Gather, ticks: seq<Tick>): Gather {
    if ticks == [] then g else After(Run(g, ticks[..|ticks| - 1]), ticks[|ticks| - 1].msg)
  }

  /** All database calls of a run. */
  function Calls(g: Gather, ticks: seq<Tick>): seq<Call> {
    if ticks == [] then []
    else Calls(g, ticks[..|ticks| - 1]) + Emitted(Run(g, ticks[..|ticks| - 1]), ticks[|ticks| - 1])
  }

  /** Step i completes a row. */
  predicate Completes(g: Gather, ticks: seq<Tick>, i: nat)
    requires i < |ticks|
  {
    Receive(Run(g, ticks[..i]), ticks[i].msg).flags == ALL_KINDS
  }

  /** Memory after the first n steps. */
  function MemAt(g: Gather, ticks: seq<Tick>, n: nat): Mem
    requires n <= |ticks|
  {
    Run(g, ticks[..n]).mem
  }

  /** The values of the row that step i completes. */
  function RowMem(g: Gather, ticks: seq<Tick>, i: nat): Mem
    requires i < |ticks|
  {
    Receive(Run(g, ticks[..i]), ticks[i].msg).mem
  }

  // ---------- invariants of the flags ----------

  /** What every reachable flag set satisfies: never full between steps, and never without the
      counter or alarm bit unless empty. */
  ghost predicate FlagsOk(flags: set<Kind>) {
    flags != ALL_KINDS && (flags != {} ==> Counter in flags || Alarm in flags)
  }

  lemma {:induction false} FlagsStayOk(g: Gather, ticks: seq<Tick>)
    requires FlagsOk(g.flags)
    ensures FlagsOk(Run(g, ticks).flags)
    decreases |ticks|
  {
    if ticks != [] { FlagsStayOk(g, ticks[..|ticks| - 1]); }
  }

  function Relevant(ticks: seq<Tick>): nat {
    if ticks == [] then 0
    else Relevant(ticks[..|ticks| - 1]) + if ticks[|ticks| - 1].msg.Ignored? then 0 else 1
  }

  lemma SixKinds(k: Kind)
    ensures k in ALL_KINDS
  {
    assert k.Counter? || k.Capacity? || k.Volume? || k.Alarm? || k.CapacityAvg? || k.Timeouts?;
  }

  lemma AllCollected(flags: set<Kind>)
    requires forall k :: k in flags
    ensures flags == ALL_KINDS
  {
    forall k { SixKinds(k); }
  }

  lemma FlagCount(flags: set<Kind>)
    ensures |flags| <= 6
    ensures flags == ALL_KINDS <==> |flags| == 6
  {
    assert |ALL_KINDS| == 6;
    forall k { SixKinds(k); }
    assert flags <= ALL_KINDS;
    assert |ALL_KINDS - flags| == 6 - |flags|;
  }

  /** Six messages a row: rows attempted and flags pending never outnumber the messages executed. */
  lemma {:induction false} CountingBound(g: Gather, ticks: seq<Tick>)
    ensures 6 * |Calls(g, ticks)| + |Run(g, ticks).flags| <= |g.flags| + Relevant(ticks)
    decreases |ticks|
  {
    if ticks != [] {
      var n := |ticks| - 1;
      CountingBound(g, ticks[..n]);
      CountingStep(Run(g, ticks[..n]), ticks[n]);
      hide Emitted, After;
    }
  }

  lemma CountingStep(g: Gather, t: Tick)
    ensures 6 * |Emitted(g, t)| + |After(g, t.msg).flags| <= |g.flags| + if t.msg.Ignored? then 0 else 1
  {
    FlagCount(Receive(g, t.msg).flags);
  }

  lemma CollectStep(g: Gather, t: Tick)
    requires g.flags != {} && Emitted(g, t) == []
    ensures var flags := After(g, t.msg).flags;
            && flags != ALL_KINDS && g.flags <= flags
            && (t.msg.Kind().Some? ==> t.msg.Kind().value in flags)
  {
  }

  /** While no row is completed, an open gathering collects every kind it receives. */
  lemma {:induction false} FlagsCollect(g: Gather, ticks: seq<Tick>)
    requires g.flags != {} && g.flags != ALL_KINDS && Calls(g, ticks) == []
    ensures Run(g, ticks).flags != ALL_KINDS
    ensures g.flags <= Run(g, ticks).flags
    ensures forall t :: t in ticks && t.msg.Kind().Some? ==> t.msg.Kind().value in Run(g, ticks).flags
    decreases |ticks|
  {
    hide Emitted, After;
    if ticks != [] {
      var init := ticks[..|ticks| - 1];
      assert Calls(g, init) == [];
      FlagsCollect(g, init);
      CollectStep(Run(g, init), ticks[|ticks| - 1]);
      InitAndLast(ticks);
    }
  }

  /** Progress: a segment that starts with gathering open and brings every missing kind completes a row. */
  lemma Progress(g: Gather, ticks: seq<Tick>)
    requires g.flags != {} && g.flags != ALL_KINDS
    requires forall k :: k !in g.flags ==> exists t :: t in ticks && t.msg.Kind() == Some(k)
    ensures |Calls(g, ticks)| >= 1
  {
    if Calls(g, ticks) == [] {
      FlagsCollect(g, ticks);
      var flags := Run(g, ticks).flags;
      forall k ensures k in flags {
        if k !in g.flags {
          var t :| t in ticks && t.msg.Kind() == Some(k);
        }
      }
      AllCollected(flags);
    }
  }

  /** Executing the same reading again, as the handler does when a read brings nothing new, completes
      no row and changes nothing but the time of the last alarm message. */
  lemma RetryIsHarmless(g: Gather, m: Message, again: Message)
    requires g.flags != ALL_KINDS
    requires again == m || (m.AlarmMsg? && again.AlarmMsg? && again.word == m.word)
    ensures var g' := After(g, m);
            && Receive(g', again).flags == g'.flags != ALL_KINDS
            && After(g', again) == g'.(mem := g'.mem.(lastTime := After(g', again).mem.lastTime))
  {
    var g' := After(g, m);
    assert Store(g'.mem, again) == g'.mem.(lastTime := Store(g'.mem, again).lastTime);
    assert m.Kind().Some? && g'.flags != {} ==> g'.flags + {m.Kind().value} == g'.flags;
  }

  // ---------- epochs ----------

  /** Gathering is closed before step s, open from then until step i, and step i completes the row. */
  ghost predicate Epoch(g: Gather, ticks: seq<Tick>, s: nat, i: nat) {
    && s <= i < |ticks|
    && Run(g, ticks[..s]).flags == {}
    && Opens(Run(g, ticks[..s]).mem, ticks[s].msg)
    && (forall j :: s < j <= i ==> Run(g, ticks[..j]).flags != {})
    && Completes(g, ticks, i)
  }

  /** Message t is the last of kind k among messages s to e - 1. */
  ghost predicate LastOfKind(ticks: seq<Tick>, k: Kind, s: int, e: int, t: int) {
    && 0 <= s <= t < e <= |ticks|
    && ticks[t].msg.Kind() == Some(k)
    && forall u :: t < u < e ==> ticks[u].msg.Kind() != Some(k)
  }

  /** The row holds the (sanitised) reading of the message. */
  predicate Carries(row: Row, m: Message) {
    match m
    case CounterMsg(v) => row.counter == ToInt32(v)
    case CapacityMsg(f) => row.capacity == Sanitise(f)
    case CapacityAvgMsg(f) => row.capacityAvg == Sanitise(f)
    case VolumeMsg(f) => row.volume == Sanitise(f)
    case AlarmMsg(w, _) => row.alarms == SignExtend(w)
    case TimeoutsMsg(q) => row.timeouts == q
    case Ignored => true
  }

  /** The row holds the last reading of kind k among messages s to e - 1, and there was one. */
  ghost predicate HoldsLast(row: Row, ticks: seq<Tick>, k: Kind, s: int, e: int) {
    exists t :: LastOfKind(ticks, k, s, e, t) && Carries(row, ticks[t].msg)
  }

  ghost predicate HoldsAllLast(row: Row, ticks: seq<Tick>, s: int, e: int) {
    forall k :: HoldsLast(row, ticks, k, s, e)
  }

  /** Each kind in the flag set was received since step s, and memory holds the last reading. */
  ghost predicate UpToDate(mem: Mem, flags: set<Kind>, ticks: seq<Tick>, s: nat) {
    forall k :: k in flags ==> HoldsLast(RowOf(mem, 0, 0), ticks, k, s, |ticks|)
  }

  lemma LastExtends(ticks: seq<Tick>, x: Tick, k: Kind, s: nat, t: int)
    ensures x.msg.Kind() != Some(k) && LastOfKind(ticks, k, s, |ticks|, t)
            ==> LastOfKind(ticks + [x], k, s, |ticks| + 1, t)
    ensures x.msg.Kind() == Some(k) && s <= |ticks| ==> LastOfKind(ticks + [x], k, s, |ticks| + 1, |ticks|)
  {
  }

  lemma StoreCarries(mem: Mem, x: Message, m: Message)
    ensures Carries(RowOf(Store(mem, x), 0, 0), x)
    ensures Carries(RowOf(mem, 0, 0), m) && x.Kind() != m.Kind() ==> Carries(RowOf(Store(mem, x), 0, 0), m)
  {
  }

  lemma UpToDateExtends(g: Gather, ticks: seq<Tick>, x: Tick, s: nat)
    requires s <= |ticks| && UpToDate(g.mem, g.flags, ticks, s)
    ensures UpToDate(Receive(g, x.msg).mem, Receive(g, x.msg).flags, ticks + [x], s)
  {
    hide Carries, Store, RowOf, Opens;
    var g' := Receive(g, x.msg);
    forall k | k in g'.flags ensures HoldsLast(RowOf(g'.mem, 0, 0), ticks + [x], k, s, |ticks + [x]|) {
      if x.msg.Kind() == Some(k) {
        LastExtends(ticks, x, k, s, |ticks|);
        StoreCarries(g.mem, x.msg, x.msg);
        assert (ticks + [x])[|ticks|] == x;
      } else {
        var t :| LastOfKind(ticks, k, s, |ticks|, t) && Carries(RowOf(g.mem, 0, 0), ticks[t].msg);
        LastExtends(ticks, x, k, s, t);
        StoreCarries(g.mem, x.msg, ticks[t].msg);
        assert (ticks + [x])[t] == ticks[t];
      }
    }
  }
}
