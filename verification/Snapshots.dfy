/** Two processes on one block of shared memory: the parent's updates write it field by field, the child's
    Serialize reads it field by field, and both hold the mutex meanwhile. Every interleaving of locks,
    unlocks, single writes and single reads is a run here. */
module Snapshots {
  import opened Types
  import opened Seqs
  import opened Gathering

  // ---------- single field accesses ----------

  datatype Write =
    | SetCounter(v: int32) | SetCapacity(f: Float) | SetCapacityAvg(f: Float) | SetVolume(f: Float)
    | SetAlarms(w: bv32) | SetTime(t: int) | SetTimeout(i: nat, x: int16)

  function Apply(mem: Mem, w: Write): Mem {
    match w
    case SetCounter(v) => mem.(counter := v)
    case SetCapacity(f) => mem.(capacity := f)
    case SetCapacityAvg(f) => mem.(capacityAvg := f)
    case SetVolume(f) => mem.(volume := f)
    case SetAlarms(a) => mem.(alarms := a)
    case SetTime(t) => mem.(lastTime := t)
    case SetTimeout(i, x) => if i < 4 then mem.(timeouts := mem.timeouts[i := x]) else mem
  }

  function ApplyAll(mem: Mem, writes: seq<Write>): Mem
    decreases |writes|
  {
    if writes == [] then mem else ApplyAll(Apply(mem, writes[0]), writes[1..])
  }

  /** The writes of one update call, in order. */
  function Writes(m: Message): seq<Write> {
    match m
    case CounterMsg(v) => [SetCounter(ToInt32(v))]
    case CapacityMsg(f) => [SetCapacity(Sanitise(f))]
    case CapacityAvgMsg(f) => [SetCapacityAvg(Sanitise(f))]
    case VolumeMsg(f) => [SetVolume(Sanitise(f))]
    case AlarmMsg(w, now) => [SetAlarms(w), SetTime(now)]
    case TimeoutsMsg(q) => [SetTimeout(0, q[0]), SetTimeout(1, q[1]), SetTimeout(2, q[2]), SetTimeout(3, q[3])]
    case Ignored => []
  }

  const FIELDS: nat := 10

  /** The i-th read of Serialize, into its own copy. */
  function CopyField(copy: Mem, mem: Mem, i: nat): Mem {
    match i
    case 0 => copy.(lastTime := mem.lastTime)
    case 1 => copy.(counter := mem.counter)
    case 2 => copy.(capacity := mem.capacity)
    case 3 => copy.(capacityAvg := mem.capacityAvg)
    case 4 => copy.(volume := mem.volume)
    case 5 => copy.(alarms := mem.alarms)
    case _ => if i < 10 then copy.(timeouts := copy.timeouts[i - 6 := mem.timeouts[i - 6]]) else copy
  }

  /** Memory after whole updates. */
  function StoreAll(mem: Mem, msgs: seq<Message>): Mem {
    if msgs == [] then mem else Store(StoreAll(mem, msgs[..|msgs| - 1]), msgs[|msgs| - 1])
  }

  // ---------- the two processes ----------

  datatype Holder = Nobody | Parent | Child

  /** What Serialize returned, and how many updates were complete when it took the mutex. */
  datatype Snapshot = Snapshot(mem: Mem, asOf: nat)

  /** done updates are complete; left are the writes still to do of the one under way; copied many fields
      are in copy. */
  datatype System = System(
    mem: Mem, holder: Holder, done: nat, left: seq<Write>, copied: nat, copy: Mem, taken: seq<Snapshot>)

  datatype Action = ParentLocks | ParentWrites | ParentUnlocks | ChildLocks | ChildReads | ChildUnlocks

  /** Whether an action can happen: only a free mutex is taken, and only its holder touches the block. */
  predicate Enabled(s: System, msgs: seq<Message>, a: Action) {
    match a
    case ParentLocks => s.holder == Nobody && s.done < |msgs|
    case ParentWrites => s.holder == Parent && s.left != []
    case ParentUnlocks => s.holder == Parent && s.left == []
    case ChildLocks => s.holder == Nobody
    case ChildReads => s.holder == Child && s.copied < FIELDS
    case ChildUnlocks => s.holder == Child && s.copied == FIELDS
  }

  function Next(s: System, msgs: seq<Message>, a: Action): System
    requires Enabled(s, msgs, a)
  {
    match a
    case ParentLocks => s.(holder := Parent, left := Writes(msgs[s.done]))
    case ParentWrites => s.(mem := Apply(s.mem, s.left[0]), left := s.left[1..])
    case ParentUnlocks => s.(holder := Nobody, done := s.done + 1)
    case ChildLocks => s.(holder := Child, copied := 0)
    case ChildReads => s.(copy := CopyField(s.copy, s.mem, s.copied), copied := s.copied + 1)
    case ChildUnlocks => s.(holder := Nobody, taken := s.taken + [Snapshot(s.copy, s.done)])
  }

  function TryNext(s: System, msgs: seq<Message>, a: Action): Option<System> {
    if Enabled(s, msgs, a) then Some(Next(s, msgs, a)) else None
  }

  /** The state an interleaving leads to; None when some action of it could not happen. */
  function Execute(s: System, msgs: seq<Message>, actions: seq<Action>): Option<System> {
    if actions == [] then Some(s)
    else if Execute(s, msgs, actions[..|actions| - 1]).None? then None
    else TryNext(Execute(s, msgs, actions[..|actions| - 1]).value, msgs, actions[|actions| - 1])
  }

  /** Nothing locked, written or read yet. */
  predicate Fresh(init: Mem, s: System) {
    s.mem == init && s.holder == Nobody && s.done == 0 && s.taken == []
  }

  // ---------- linearizability ----------

  lemma ApplyFirst(mem: Mem, w: Write, rest: seq<Write>)
    ensures ApplyAll(mem, [w] + rest) == ApplyAll(Apply(mem, w), rest)
  {
    TailOfConcat([w], rest);
    EmptyIsNeutral(rest);
  }

  lemma ApplyTwo(mem: Mem, a: Write, b: Write)
    ensures ApplyAll(mem, [a, b]) == Apply(Apply(mem, a), b)
  {
    hide Apply;
    assert [a] + [b] == [a, b] && [b] + [] == [b];
    ApplyFirst(mem, a, [b]);
    ApplyFirst(Apply(mem, a), b, []);
  }

  lemma ApplyFour(mem: Mem, a: Write, b: Write, c: Write, d: Write)
    ensures ApplyAll(mem, [a, b, c, d]) == Apply(Apply(Apply(Apply(mem, a), b), c), d)
  {
    hide Apply;
    assert [a] + [b, c, d] == [a, b, c, d] && [b] + [c, d] == [b, c, d];
    ApplyFirst(mem, a, [b, c, d]);
    ApplyFirst(Apply(mem, a), b, [c, d]);
    ApplyTwo(Apply(Apply(mem, a), b), c, d);
  }

  /** The single writes of an update amount to the update. */
  lemma WritesMakeUpdate(mem: Mem, m: Message)
    ensures ApplyAll(mem, Writes(m)) == Store(mem, m)
  {
    match m
    case TimeoutsMsg(q) =>
      ApplyFour(mem, SetTimeout(0, q[0]), SetTimeout(1, q[1]), SetTimeout(2, q[2]), SetTimeout(3, q[3]));
      assert mem.timeouts[0 := q[0]][1 := q[1]][2 := q[2]][3 := q[3]] == q;
    case AlarmMsg(a, now) =>
      ApplyTwo(mem, SetAlarms(a), SetTime(now));
    case _ =>
  }

  /** The first n fields of the copy are those of memory. */
  ghost predicate Copied(copy: Mem, mem: Mem, n: nat) {
    && (n > 0 ==> copy.lastTime == mem.lastTime)
    && (n > 1 ==> copy.counter == mem.counter)
    && (n > 2 ==> copy.capacity == mem.capacity)
    && (n > 3 ==> copy.capacityAvg == mem.capacityAvg)
    && (n > 4 ==> copy.volume == mem.volume)
    && (n > 5 ==> copy.alarms == mem.alarms)
    && forall i :: 0 <= i < 4 && i + 6 < n ==> copy.timeouts[i] == mem.timeouts[i]
  }

  lemma CopyAll(copy: Mem, mem: Mem)
    requires Copied(copy, mem, FIELDS)
    ensures copy == mem
  {
    assert copy.timeouts == mem.timeouts;
  }

  /** What holds in every reachable state: with the mutex free or with the child, memory is whole; with the
      parent, the writes left make it whole; and every snapshot is memory after some whole updates. */
  ghost predicate Consistent(init: Mem, msgs: seq<Message>, s: System) {
    && s.done <= |msgs|
    && (if s.holder == Parent
        then s.done < |msgs| && ApplyAll(s.mem, s.left) == StoreAll(init, msgs[..s.done + 1])
        else s.mem == StoreAll(init, msgs[..s.done]))
    && (s.holder == Child ==> s.copied <= FIELDS && Copied(s.copy, s.mem, s.copied))
    && (forall t :: t in s.taken ==> t.asOf <= s.done && t.mem == StoreAll(init, msgs[..t.asOf]))
    && (forall i, j :: 0 <= i < j < |s.taken| ==> s.taken[i].asOf <= s.taken[j].asOf)
  }

  lemma StoreAllStep(init: Mem, msgs: seq<Message>, n: nat)
    requires n < |msgs|
    ensures StoreAll(init, msgs[..n + 1]) == Store(StoreAll(init, msgs[..n]), msgs[n])
  {
    PrefixStep(msgs, n);
  }

  lemma NextIsConsistent(init: Mem, msgs: seq<Message>, s: System, a: Action)
    requires Consistent(init, msgs, s) && Enabled(s, msgs, a)
    ensures Consistent(init, msgs, Next(s, msgs, a))
  {
    match a
    case ParentLocks =>
      WritesMakeUpdate(s.mem, msgs[s.done]);
      StoreAllStep(init, msgs, s.done);
    case ParentWrites =>
    case ParentUnlocks =>
    case ChildLocks =>
    case ChildReads =>
    case ChildUnlocks =>
      CopyAll(s.copy, s.mem);
      assert forall i :: 0 <= i < |s.taken| ==> s.taken[i] in s.taken;
  }

  /** Linearizability: however the two processes interleave, each snapshot is memory after the updates that
      were complete when Serialize took the mutex, and later snapshots see at least as many. */
  lemma {:induction false} SnapshotsLinearize(init: Mem, msgs: seq<Message>, actions: seq<Action>, s: System)
    requires Fresh(init, s) && Execute(s, msgs, actions).Some?
    ensures Consistent(init, msgs, Execute(s, msgs, actions).value)
    decreases |actions|
  {
    if actions == [] {
      assert msgs[..0] == [];
    } else {
      var n := |actions| - 1;
      SnapshotsLinearize(init, msgs, actions[..n], s);
      NextIsConsistent(init, msgs, Execute(s, msgs, actions[..n]).value, actions[n]);
    }
  }

  lemma {:induction false} TimeoutsOfStore(init: Mem, msgs: seq<Message>)
    ensures StoreAll(init, msgs).timeouts == init.timeouts
            || TimeoutsMsg(StoreAll(init, msgs).timeouts) in msgs
    decreases |msgs|
  {
    if msgs != [] {
      TimeoutsOfStore(init, msgs[..|msgs| - 1]);
      InitAndLast(msgs);
    }
  }

  /** So the four timeouts of a snapshot are those of one message, or the initial ones: never a mixture. */
  lemma TimeoutsAreNeverTorn(init: Mem, msgs: seq<Message>, actions: seq<Action>, s: System, t: Snapshot)
    requires Fresh(init, s) && Execute(s, msgs, actions).Some?
    requires t in Execute(s, msgs, actions).value.taken
    ensures t.mem.timeouts == init.timeouts || TimeoutsMsg(t.mem.timeouts) in msgs
  {
    SnapshotsLinearize(init, msgs, actions, s);
    TimeoutsOfStore(init, msgs[..t.asOf]);
  }

  // ---------- nobody waits for ever ----------

  lemma ExecuteSnoc(s: System, msgs: seq<Message>, actions: seq<Action>, a: Action)
    requires Execute(s, msgs, actions).Some? && Enabled(Execute(s, msgs, actions).value, msgs, a)
    ensures Execute(s, msgs, actions + [a]) == Some(Next(Execute(s, msgs, actions).value, msgs, a))
  {
    InitOfConcat(actions, [a]);
    EmptyIsNeutral(actions);
  }

  /** With the mutex free, Serialize can take it and complete a snapshot. */
  lemma SnapshotCompletes(s: System, msgs: seq<Message>) returns (actions: seq<Action>)
    requires s.holder == Nobody
    ensures Execute(s, msgs, actions).Some?
    ensures var s' := Execute(s, msgs, actions).value;
            s'.holder == Nobody && s'.done == s.done && s'.mem == s.mem
            && |s'.taken| == |s.taken| + 1 && s'.taken[|s.taken|].asOf == s.done
  {
    hide CopyField;
    ExecuteSnoc(s, msgs, [], ChildLocks);
    actions := [] + [ChildLocks];
    hide Execute;
    while Execute(s, msgs, actions).value.copied < 10
      invariant Execute(s, msgs, actions).Some?
      invariant var s' := Execute(s, msgs, actions).value;
                s'.holder == Child && s'.copied <= 10 && s'.done == s.done && s'.mem == s.mem && s'.taken == s.taken
      decreases 10 - Execute(s, msgs, actions).value.copied
    {
      ExecuteSnoc(s, msgs, actions, ChildReads);
      actions := actions + [ChildReads];
    }
    ExecuteSnoc(s, msgs, actions, ChildUnlocks);
    actions := actions + [ChildUnlocks];
  }

  /** With the mutex free, the next update can take it and complete. */
  lemma UpdateCompletes(s: System, msgs: seq<Message>) returns (actions: seq<Action>)
    requires s.holder == Nobody && s.done < |msgs|
    ensures Execute(s, msgs, actions).Some?
    ensures var s' := Execute(s, msgs, actions).value;
            s'.holder == Nobody && s'.done == s.done + 1 && s'.taken == s.taken
  {
    hide Apply, Writes;
    ExecuteSnoc(s, msgs, [], ParentLocks);
    actions := [] + [ParentLocks];
    hide Execute;
    while Execute(s, msgs, actions).value.left != []
      invariant Execute(s, msgs, actions).Some?
      invariant var s' := Execute(s, msgs, actions).value;
                s'.holder == Parent && s'.done == s.done && s'.taken == s.taken
      decreases |Execute(s, msgs, actions).value.left|
    {
      ExecuteSnoc(s, msgs, actions, ParentWrites);
      actions := actions + [ParentWrites];
    }
    ExecuteSnoc(s, msgs, actions, ParentUnlocks);
    actions := actions + [ParentUnlocks];
  }
}
