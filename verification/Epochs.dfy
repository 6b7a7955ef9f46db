/** What the gathering machine guarantees over whole runs: where every column of a row comes from, that
    no change goes unrecorded, and why two rows can share a counter. */
module Epochs {
  import opened Types
  import opened Seqs
  import opened Sql
  import opened Retention
  import opened Gathering

  lemma RunStep(g: Gather, ticks: seq<Tick>, i: nat)
    requires i < |ticks|
    ensures Run(g, ticks[..i + 1]) == After(Run(g, ticks[..i]), ticks[i].msg)
  {
    PrefixStep(ticks, i);
  }

  // ---------- freshness ----------

  /** Gathering has been open since step s, and memory holds what was received since. */
  ghost predicate OpenSince(g: Gather, ticks: seq<Tick>, s: nat) {
    && s < |ticks|
    && Run(g, ticks[..s]).flags == {}
    && Opens(Run(g, ticks[..s]).mem, ticks[s].msg)
    && (forall j :: s < j <= |ticks| ==> Run(g, ticks[..j]).flags != {})
    && UpToDate(Run(g, ticks).mem, Run(g, ticks).flags, ticks, s)
  }

  lemma OpenBegins(g: Gather, ticks: seq<Tick>, x: Tick)
    requires Run(g, ticks).flags == {} && After(Run(g, ticks), x.msg).flags != {}
    ensures OpenSince(g, ticks + [x], |ticks|)
  {
    hide Carries, Store, Opens, LastOfKind, Run, HoldsLast;
    RunSnoc(g, ticks, x);
    PrefixesOfConcat(ticks, [x]);
    assert ticks[..|ticks|] == ticks && (ticks + [x])[..|ticks| + 1] == ticks + [x];
    UpToDateExtends(Run(g, ticks), ticks, x, |ticks|);
  }

  lemma OpenContinues(g: Gather, ticks: seq<Tick>, x: Tick, s: nat)
    requires OpenSince(g, ticks, s) && After(Run(g, ticks), x.msg).flags != {}
    ensures OpenSince(g, ticks + [x], s)
  {
    hide Carries, Store, Opens, LastOfKind, UpToDate, Receive, Run, HoldsLast;
    RunSnoc(g, ticks, x);
    PrefixesOfConcat(ticks, [x]);
    assert (ticks + [x])[..|ticks| + 1] == ticks + [x];
    UpToDateExtends(Run(g, ticks), ticks, x, s);
  }

  lemma {:induction false} OpenHasStart(g: Gather, ticks: seq<Tick>) returns (s: nat)
    requires g.flags == {} && Run(g, ticks).flags != {}
    ensures OpenSince(g, ticks, s)
    decreases |ticks|
  {
    hide OpenSince, After;
    var init, x := ticks[..|ticks| - 1], ticks[|ticks| - 1];
    InitAndLast(ticks);
    if Run(g, init).flags == {} {
      OpenBegins(g, init, x);
      s := |init|;
    } else {
      s := OpenHasStart(g, init);
      OpenContinues(g, init, x, s);
    }
  }

  lemma StartOfEpoch(g: Gather, ticks: seq<Tick>, i: nat) returns (s: nat)
    requires g.flags == {} && i < |ticks| && Completes(g, ticks, i)
    ensures OpenSince(g, ticks[..i], s)
    ensures Epoch(g, ticks, s, i)
  {
    NotFullAtOnce(Run(g, ticks[..i]), ticks[i].msg);
    s := OpenHasStart(g, ticks[..i]);
    PrefixesOfConcat(ticks[..i], ticks[i..]);
    SplitsAt(ticks, i);
  }

  /** Row freshness: a completed row has an epoch of its own, opened by a changed counter or alarm, in
      which all six kinds were received; the row holds the last reading of each. */
  lemma RowFreshness(g: Gather, ticks: seq<Tick>, i: nat, id: int, date: int) returns (s: nat)
    requires g.flags == {} && i < |ticks| && Completes(g, ticks, i)
    ensures Epoch(g, ticks, s, i)
    ensures HoldsAllLast(RowOf(RowMem(g, ticks, i), id, date), ticks, s, i + 1)
  {
    s := StartOfEpoch(g, ticks, i);
    RowHoldsLast(Run(g, ticks[..i]), ticks, i, s, id, date);
  }

  lemma RowHoldsLast(g: Gather, ticks: seq<Tick>, i: nat, s: nat, id: int, date: int)
    requires s <= i < |ticks| && UpToDate(g.mem, g.flags, ticks[..i], s)
    requires Receive(g, ticks[i].msg).flags == ALL_KINDS
    ensures HoldsAllLast(RowOf(Receive(g, ticks[i].msg).mem, id, date), ticks, s, i + 1)
  {
    hide Opens, Store, Sanitise, RowOf, HoldsLast;
    UpToDateExtends(g, ticks[..i], ticks[i], s);
    PrefixStep(ticks, i);
    var mem, e := Receive(g, ticks[i].msg).mem, i + 1;
    forall k ensures HoldsLast(RowOf(mem, id, date), ticks, k, s, e) {
      SixKinds(k);
      HoldsLastInPrefix(mem, id, date, ticks, k, s, e);
    }
  }

  lemma HoldsLastInPrefix(mem: Mem, id: int, date: int, ticks: seq<Tick>, k: Kind, s: int, e: int)
    requires 0 <= e <= |ticks| && HoldsLast(RowOf(mem, 0, 0), ticks[..e], k, s, e)
    ensures HoldsLast(RowOf(mem, id, date), ticks, k, s, e)
  {
    var t :| LastOfKind(ticks[..e], k, s, e, t) && Carries(RowOf(mem, 0, 0), ticks[..e][t].msg);
    LastInPrefix(ticks, k, s, e, t);
    assert Carries(RowOf(mem, id, date), ticks[t].msg);
  }

  lemma NotFullAtOnce(g: Gather, m: Message)
    requires Receive(g, m).flags == ALL_KINDS
    ensures g.flags != {}
  {
    assert Counter in ALL_KINDS && Alarm in ALL_KINDS;
  }

  lemma LastInPrefix(ticks: seq<Tick>, k: Kind, s: int, e: int, t: int)
    requires 0 <= e <= |ticks| && LastOfKind(ticks[..e], k, s, e, t)
    ensures LastOfKind(ticks, k, s, e, t)
  {
  }

  /** Epochs of different rows do not overlap. */
  lemma EpochsAreDisjoint(g: Gather, ticks: seq<Tick>, s: nat, i: nat, s': nat, i': nat)
    requires Epoch(g, ticks, s, i) && Epoch(g, ticks, s', i') && i < i'
    ensures i < s'
  {
    RunStep(g, ticks, i);
  }

  // ---------- no lost change ----------

  /** The newest row of the table carries the counter and alarm word in memory. */
  ghost predicate Recorded(log: seq<Row>, mem: Mem) {
    log != [] && log[|log| - 1].counter == mem.counter && log[|log| - 1].alarms == SignExtend(mem.alarms)
  }

  /** While no row is being gathered, the last row attempted (or, before any, the starting values)
      carries exactly the current counter and alarm word. */
  lemma {:induction false} LastAttemptIsCurrent(g: Gather, ticks: seq<Tick>)
    requires g.flags == {} && Run(g, ticks).flags == {}
    ensures var calls := Calls(g, ticks);
            var was := if calls == [] then g.mem else calls[|calls| - 1].mem;
            was.counter == Run(g, ticks).mem.counter && was.alarms == Run(g, ticks).mem.alarms
    decreases |ticks|
  {
    hide Run, Calls;
    RunOfNone(g);
    if ticks != [] {
      var init, x := ticks[..|ticks| - 1], ticks[|ticks| - 1];
      InitAndLast(ticks);
      RunSnoc(g, init, x);
      EmptyIsNeutral(Calls(g, init));
      if Run(g, init).flags == {} { LastAttemptIsCurrent(g, init); }
    }
  }

  lemma AppendKeepsNew(lim: Limits, log: seq<Row>, c: Call)
    requires lim.Valid() && Contiguous(log)
    ensures var log' := Append(lim, log, c).0;
            if c.out.insertOk then log' != [] && log'[|log'| - 1] == RowOf(c.mem, log'[|log'| - 1].id, c.date)
            else log' == log
  {
    AppendEffect(lim, log, c);
  }

  lemma LastCallDecides(lim: Limits, log: seq<Row>, calls: seq<Call>)
    requires lim.Valid() && Contiguous(log) && calls != []
    ensures var c := calls[|calls| - 1];
            var log' := LogAfter(lim, log, calls);
            if c.out.insertOk
            then log' != [] && log'[|log'| - 1] == RowOf(c.mem, log'[|log'| - 1].id, c.date)
            else log' == LogAfter(lim, log, calls[..|calls| - 1])
  {
    var n := |calls| - 1;
    assert Contiguous(LogAfter(lim, log, calls[..n])) by { SuffixOfHistory(lim, log, calls[..n]); }
    AppendKeepsNew(lim, LogAfter(lim, log, calls[..n]), calls[n]);
  }

  /** No lost change: when nothing is being gathered and a row was attempted, the newest row carries the
      current counter and alarm word if and only if the last INSERT succeeded or the table before it
      already ended in such a row. */
  lemma NoLostChange(lim: Limits, log: seq<Row>, g: Gather, ticks: seq<Tick>)
    requires lim.Valid() && Contiguous(log) && g.flags == {}
    requires Run(g, ticks).flags == {} && Calls(g, ticks) != []
    ensures var calls := Calls(g, ticks);
            var n := |calls| - 1;
            Recorded(LogAfter(lim, log, calls), Run(g, ticks).mem) <==>
              calls[n].out.insertOk || Recorded(LogAfter(lim, log, calls[..n]), Run(g, ticks).mem)
  {
    LastAttemptIsCurrent(g, ticks);
    LastCallDecides(lim, log, Calls(g, ticks));
  }

  /** So with INSERTs succeeding no change is ever lost: at any moment of any run either a row is being
      gathered, or the newest row carries the current counter and alarm word, or none was stored yet and
      they are still the starting ones. */
  lemma NothingIsLost(lim: Limits, log: seq<Row>, ticks: seq<Tick>)
    requires lim.Valid() && Contiguous(log) && forall t :: t in ticks ==> t.out.insertOk
    ensures var g := Run(Gather(INITIAL_MEM, {}), ticks);
            var calls := Calls(Gather(INITIAL_MEM, {}), ticks);
            || g.flags != {}
            || Recorded(LogAfter(lim, log, calls), g.mem)
            || (Accepted(lim, log, calls) == [] && g.mem.counter == -1 && g.mem.alarms == 0)
  {
    var start := Gather(INITIAL_MEM, {});
    hide Run, Calls, LogAfter, Recorded, Contiguous;
    if Run(start, ticks).flags == {} {
      LastAttemptIsCurrent(start, ticks);
      CallsComeFromTicks(start, ticks);
      var calls := Calls(start, ticks);
      if calls != [] {
        assert calls[|calls| - 1] in calls;
        NoLostChange(lim, log, start, ticks);
      }
    }
  }

  // ---------- counters ----------

  /** Incoming counters, as signed 32-bit values, never decrease. */
  ghost predicate CountersArriveInOrder(ticks: seq<Tick>) {
    forall a, b :: 0 <= a < b < |ticks| && ticks[a].msg.CounterMsg? && ticks[b].msg.CounterMsg? ==>
      ToInt32(ticks[a].msg.count) <= ToInt32(ticks[b].msg.count)
  }

  /** Once a counter message came, memory holds the last one. */
  lemma {:induction false} CounterIsLast(g: Gather, ticks: seq<Tick>, t0: nat, n: nat) returns (t: nat)
    requires t0 < n <= |ticks| && ticks[t0].msg.CounterMsg?
    ensures t0 <= t < n && ticks[t].msg.CounterMsg?
    ensures forall u :: t < u < n ==> !ticks[u].msg.CounterMsg?
    ensures Run(g, ticks[..n]).mem.counter == ToInt32(ticks[t].msg.count)
    decreases n
  {
    hide Run, Opens;
    RunStep(g, ticks, n - 1);
    if ticks[n - 1].msg.CounterMsg? {
      t := n - 1;
    } else {
      t := CounterIsLast(g, ticks, t0, n - 1);
    }
  }

  lemma CounterGrows(g: Gather, ticks: seq<Tick>, t0: nat, i: nat, j: nat)
    requires CountersArriveInOrder(ticks)
    requires t0 < i <= j <= |ticks| && ticks[t0].msg.CounterMsg?
    ensures MemAt(g, ticks, i).counter <= MemAt(g, ticks, j).counter
  {
    var a := CounterIsLast(g, ticks, t0, i);
    var b := CounterIsLast(g, ticks, t0, j);
  }

  lemma CompletedMem(g: Gather, ticks: seq<Tick>, i: nat)
    requires i < |ticks|
    ensures MemAt(g, ticks, i + 1) == RowMem(g, ticks, i)
  {
    RunStep(g, ticks, i);
  }

  lemma OpeningMessage(g: Gather, ticks: seq<Tick>, s: nat)
    requires s < |ticks| && Opens(MemAt(g, ticks, s), ticks[s].msg)
    ensures ticks[s].msg.CounterMsg? || ticks[s].msg.AlarmMsg?
    ensures ticks[s].msg.CounterMsg? ==> MemAt(g, ticks, s + 1).counter != MemAt(g, ticks, s).counter
  {
    RunStep(g, ticks, s);
  }

  /** If incoming counters never decrease, neither do those of completed rows, and of two with equal
      counters the later was started by an alarm change: a counter change always brings a larger one. */
  lemma EqualCountersMeanAlarm(g: Gather, ticks: seq<Tick>, s: nat, i: nat, s': nat, i': nat)
    requires g.flags == {} && CountersArriveInOrder(ticks)
    requires Epoch(g, ticks, s, i) && Epoch(g, ticks, s', i') && i < i'
    ensures var c, c' := RowMem(g, ticks, i).counter, RowMem(g, ticks, i').counter;
            && c <= c'
            && (ticks[s'].msg.CounterMsg? ==> c < c')
            && (c == c' ==> ticks[s'].msg.AlarmMsg?)
  {
    EpochsAreDisjoint(g, ticks, s, i, s', i');
    var t0 := CounterArrives(g, ticks, i);
    LaterRowGrows(g, ticks, t0, i, s', i');
  }

  lemma LaterRowGrows(g: Gather, ticks: seq<Tick>, t0: nat, i: nat, s: nat, i': nat)
    requires CountersArriveInOrder(ticks) && t0 <= i < s <= i' < |ticks|
    requires ticks[t0].msg.CounterMsg? && Opens(MemAt(g, ticks, s), ticks[s].msg)
    ensures var c, c' := RowMem(g, ticks, i).counter, RowMem(g, ticks, i').counter;
            && c <= c'
            && (ticks[s].msg.CounterMsg? ==> c < c')
            && (c == c' ==> ticks[s].msg.AlarmMsg?)
  {
    hide MemAt, RowMem, CountersArriveInOrder, Opens;
    OpeningMessage(g, ticks, s);
    CompletedMem(g, ticks, i);
    CompletedMem(g, ticks, i');
    CounterGrows(g, ticks, t0, i + 1, s);
    CounterGrows(g, ticks, t0, s, s + 1);
    CounterGrows(g, ticks, t0, s + 1, i' + 1);
  }

  lemma CounterArrives(g: Gather, ticks: seq<Tick>, i: nat) returns (t: nat)
    requires g.flags == {} && i < |ticks| && Completes(g, ticks, i)
    ensures t <= i && ticks[t].msg.CounterMsg?
  {
    var s := RowFreshness(g, ticks, i, 0, 0);
    var row := RowOf(RowMem(g, ticks, i), 0, 0);
    assert HoldsLast(row, ticks, Counter, s, i + 1);
    t :| LastOfKind(ticks, Counter, s, i + 1, t) && Carries(row, ticks[t].msg);
  }

  // ---------- rows and messages ----------

  lemma {:induction false} CallsComeFromTicks(g: Gather, ticks: seq<Tick>)
    ensures forall c :: c in Calls(g, ticks) ==> exists t :: t in ticks && t.out == c.out
    decreases |ticks|
  {
    if ticks != [] {
      CallsComeFromTicks(g, ticks[..|ticks| - 1]);
      InitAndLast(ticks);
      assert ticks[|ticks| - 1] in ticks;
    }
  }

  /** Over any run from a closed gathering, six messages are executed for every row inserted, and one for
      every flag pending. */
  lemma RowsNeedSixMessages(lim: Limits, log: seq<Row>, g: Gather, ticks: seq<Tick>)
    requires g.flags == {}
    ensures 6 * |Accepted(lim, log, Calls(g, ticks))| + |Run(g, ticks).flags| <= Relevant(ticks)
  {
    CountingBound(g, ticks);
    AcceptedCount(lim, log, Calls(g, ticks));
  }

  /** A segment that starts with gathering open and brings every missing kind inserts at least one row,
      if its INSERTs succeed. */
  lemma ProgressInserts(lim: Limits, log: seq<Row>, g: Gather, ticks: seq<Tick>)
    requires g.flags != {} && g.flags != ALL_KINDS
    requires forall k :: k !in g.flags ==> exists t :: t in ticks && t.msg.Kind() == Some(k)
    requires forall t :: t in ticks ==> t.out.insertOk
    ensures |Accepted(lim, log, Calls(g, ticks))| >= 1
  {
    Progress(g, ticks);
    CallsComeFromTicks(g, ticks);
    AcceptedCount(lim, log, Calls(g, ticks));
  }

  lemma RunSnoc(g: Gather, ticks: seq<Tick>, x: Tick)
    ensures Run(g, ticks + [x]) == After(Run(g, ticks), x.msg)
    ensures Calls(g, ticks + [x]) == Calls(g, ticks) + Emitted(Run(g, ticks), x)
  {
    assert (ticks + [x])[..|ticks|] == ticks;
  }

  /** A step after a run is a run, in the machine and in the table it writes. */
  lemma StepAfterRun(lim: Limits, log: seq<Row>, g: Gather, ticks: seq<Tick>, x: Tick)
    ensures After(Run(g, ticks), x.msg) == Run(g, ticks + [x])
    ensures LogAfter(lim, LogAfter(lim, log, Calls(g, ticks)), Emitted(Run(g, ticks), x))
              == LogAfter(lim, log, Calls(g, ticks + [x]))
  {
    RunSnoc(g, ticks, x);
    var calls, more := Calls(g, ticks), Emitted(Run(g, ticks), x);
    if more == [] {
      EmptyIsNeutral(calls);
    } else {
      OneCall(lim, LogAfter(lim, log, calls), more[0]);
      assert (calls + more)[..|calls|] == calls;
    }
  }

  lemma Collects(g: Gather, ticks: seq<Tick>, x: Tick)
    requires Calls(g, ticks) == [] && Run(g, ticks).flags != {} && x.msg.Kind().Some?
    requires Run(g, ticks).flags + {x.msg.Kind().value} != ALL_KINDS
    ensures Calls(g, ticks + [x]) == []
    ensures Run(g, ticks + [x]) == Gather(Store(Run(g, ticks).mem, x.msg), Run(g, ticks).flags + {x.msg.Kind().value})
  {
    RunSnoc(g, ticks, x);
  }

  /** A changed counter followed by one message of each other kind makes one database call. */
  lemma SixMessages(g: Gather, v: uint32, f: Float, w: bv32, now: int, q: Quad, date: int, out: Outcome)
    returns (ticks: seq<Tick>)
    requires g.flags == {} && g.mem.counter != ToInt32(v)
    ensures Run(g, ticks).flags == {} && Run(g, ticks).mem.counter == ToInt32(v)
    ensures Calls(g, ticks) == [Call(Run(g, ticks).mem, date, out)]
  {
    hide Run, Calls;
    var t1 := Tick(CounterMsg(v), date, out);
    var t6 := Tick(TimeoutsMsg(q), date, out);
    assert Run(g, []) == g && Calls(g, []) == [] by { RunOfNone(g); }
    RunSnoc(g, [], t1);
    var t := [] + [t1];
    assert Alarm !in Run(g, t).flags && Run(g, t).flags == {Counter};
    Collects(g, t, Tick(CapacityMsg(f), date, out));
    t := t + [Tick(CapacityMsg(f), date, out)];
    assert Alarm !in Run(g, t).flags && Run(g, t).flags == {Counter, Capacity};
    Collects(g, t, Tick(CapacityAvgMsg(f), date, out));
    t := t + [Tick(CapacityAvgMsg(f), date, out)];
    Collects(g, t, Tick(VolumeMsg(f), date, out));
    t := t + [Tick(VolumeMsg(f), date, out)];
    assert Timeouts !in Run(g, t).flags + {Alarm};
    Collects(g, t, Tick(AlarmMsg(w, now), date, out));
    t := t + [Tick(AlarmMsg(w, now), date, out)];
    assert Run(g, t).flags + {Timeouts} == ALL_KINDS;
    RunSnoc(g, t, t6);
    ticks := t + [t6];
  }

  lemma RunOfNone(g: Gather)
    ensures Run(g, []) == g && Calls(g, []) == []
  {
  }

  /** A failed INSERT loses its change: the flags were reset first, so a run of six messages can end with
      nothing being gathered, a new counter in memory, and no row that shows it. */
  lemma FailedInsertLosesChange(lim: Limits, v: uint32, date: int) returns (ticks: seq<Tick>)
    requires ToInt32(v) != INITIAL_MEM.counter
    ensures var g := Gather(INITIAL_MEM, {});
            && Run(g, ticks).flags == {} && Run(g, ticks).mem.counter == ToInt32(v)
            && Calls(g, ticks) != [] && LogAfter(lim, [], Calls(g, ticks)) == []
  {
    var out := Outcome(false, true, true, true);
    var g := Gather(INITIAL_MEM, {});
    ticks := SixMessages(g, v, Zero, 0, 0, [0, 0, 0, 0], date, out);
    OneCall(lim, [], Calls(g, ticks)[0]);
  }
}
