/** Reading a request: amount, direction and filter, and the first of its two SQL statements, which
    finds the base row. */
module Requests {
  import opened Types
  import opened Seqs
  import opened Sql
  import opened Hash
  import Table
  import Answers

  /** A JSON value, as far as json_integer_value and json_string_value tell values apart. */
  datatype Json = JInt(number: int) | JText(bytes: seq<bv8>) | JOther

  /** The fields of a request object; None is a missing one. */
  datatype Request = Request(
    base: Option<Json>, direction: Option<Json>, amount: Option<Json>, filter: Option<Json>,
    id: Option<Json>, date: Option<Json>, counter: Option<Json>)

  const MAX_AMOUNT := 1000

  /** json_integer_value: 0 for what is missing or not an integer. */
  function IntValue(j: Option<Json>): int {
    if j.Some? && j.value.JInt? then j.value.number else 0
  }

  /** The row limit. A C int holds it, so a wide number wraps first; a negative one passes the cap. */
  function GetAmount(req: Request): int {
    if ToInt32(IntValue(req.amount)) > MAX_AMOUNT then MAX_AMOUNT else ToInt32(IntValue(req.amount))
  }

  /** Up when the text begins with "up". */
  predicate GoesUp(req: Request) {
    req.direction.Some? && req.direction.value.JText? && [117, 112] <= req.direction.value.bytes
  }

  /** The alarm filter: every bit when the field is missing, else the number modulo 2^32. */
  function GetFilter(req: Request): bv32 {
    if req.filter.None? then 0xFFFF_FFFF else (IntValue(req.filter) % 0x1_0000_0000) as bv32
  }

  /** For amounts a client may sensibly send, the limit is the amount capped at 1000; none means no rows. */
  lemma AmountIsCapped(req: Request)
    ensures GetAmount(req) <= MAX_AMOUNT
    ensures 0 <= IntValue(req.amount) <= MAX_AMOUNT ==> GetAmount(req) == IntValue(req.amount)
    ensures MAX_AMOUNT <= IntValue(req.amount) < 0x8000_0000 ==> GetAmount(req) == MAX_AMOUNT
    ensures req.amount == None ==> GetAmount(req) == 0
  {
  }

  /** What the base lookup yields: an id, or a negative code, with the direction and limit to use. */
  datatype Base = Base(id: int, up: bool, amount: int)

  /** The variable the query's callback writes: unset (-1) without a row, and -2 when the statement
      fails, as it does when the one row it returns is NULL. */
  function FromAggregate(m: Option<int>, sqlOk: bool): int {
    if sqlOk && m.Some? then m.value else -2
  }

  predicate IdStored(log: seq<Row>, id: int) {
    exists r :: r in log && r.id == id
  }

  /** One case of the switch. "last" and "first" override the direction. */
  function ResolveCase(log: seq<Row>, req: Request, k: Keyword, sqlOk: bool): Base {
    var up, amount := GoesUp(req), GetAmount(req);
    match k
    case Last =>
      var m := MaxId(log, Always);
      Base(FromAggregate(m, sqlOk), if sqlOk && m.Some? then false else up, amount)
    case First =>
      var m := MinId(log, Always);
      Base(FromAggregate(m, sqlOk), if sqlOk && m.Some? then true else up, amount)
    case Id =>
      if req.id.None? then Base(-1, up, amount)
      else if !sqlOk then Base(-2, up, amount)
      else if IdStored(log, IntValue(req.id)) then Base(IntValue(req.id), up, amount)
      else Base(-1, up, if IntValue(req.id) == -1 then amount else 0)
    case Date =>
      if req.date.None? then Base(-1, up, amount)
      else if up then Base(FromAggregate(MinId(log, DateAtLeast(IntValue(req.date))), sqlOk), up, amount)
      else Base(FromAggregate(MaxId(log, DateAtMost(IntValue(req.date))), sqlOk), up, amount)
    case Counter =>
      if req.counter.None? then Base(-1, up, amount)
      else if up then Base(FromAggregate(MinId(log, CounterAtLeast(IntValue(req.counter))), sqlOk), up, amount)
      else Base(FromAggregate(MaxId(log, CounterAtMost(IntValue(req.counter))), sqlOk), up, amount)
  }

  /** The base lookup: -1 for a missing, non-text or unknown "base". */
  function Resolve(log: seq<Row>, req: Request, kind: CharKind, sqlOk: bool): Base {
    if req.base.None? || !req.base.value.JText? || CaseTaken(req.base.value.bytes, kind).None?
    then Base(-1, GoesUp(req), GetAmount(req))
    else ResolveCase(log, req, CaseTaken(req.base.value.bytes, kind).value, sqlOk)
  }

  // ---------- what a base row is ----------

  /** The rows a request's base may be taken from. */
  function Candidates(req: Request, k: Keyword): Where {
    match k
    case Last => Always
    case First => Always
    case Id => IdIs(IntValue(req.id))
    case Date => if GoesUp(req) then DateAtLeast(IntValue(req.date)) else DateAtMost(IntValue(req.date))
    case Counter =>
      if GoesUp(req) then CounterAtLeast(IntValue(req.counter)) else CounterAtMost(IntValue(req.counter))
  }

  predicate HasOperand(req: Request, k: Keyword) {
    (k == Id ==> req.id.Some?) && (k == Date ==> req.date.Some?) && (k == Counter ==> req.counter.Some?)
  }

  /** The request names a base by a keyword the switch knows. */
  predicate Names(req: Request, k: Keyword, kind: CharKind) {
    req.base.Some? && req.base.value.JText? && CaseTaken(req.base.value.bytes, kind) == Some(k)
  }

  /** Which base texts name a keyword: exactly those whose characters, as far as they are hashed, peel
      off its label down to the hash of nothing. */
  lemma NamesExactly(req: Request, k: Keyword, kind: CharKind)
    ensures Names(req, k, kind) <==>
              req.base.Some? && req.base.value.JText? && Peel(LabelOf(k), Hashed(req.base.value.bytes), kind) == 5381
  {
    hide Peel, CaseTaken, Hashed, LabelOf;
    if req.base.Some? && req.base.value.JText? { TakenExactly(req.base.value.bytes, k, kind); }
  }

  /** So a request with base "He" is served as the same request with base "id". */
  lemma AnotherBaseIsServed(log: seq<Row>, req: Request, kind: CharKind, sqlOk: bool)
    requires req.base == Some(JText([72, 101]))
    ensures Resolve(log, req, kind, sqlOk) == Resolve(log, req.(base := Some(JText(TextOf(Id)))), kind, sqlOk)
  {
    hide CaseTaken;
    AnotherTextIsTaken(kind);
    KeywordsDispatch(Id, kind);
  }

  /** The operand is there, the statement runs, and some row qualifies. */
  ghost predicate Matched(log: seq<Row>, req: Request, k: Keyword, sqlOk: bool) {
    sqlOk && HasOperand(req, k) && exists r :: r in log && Candidates(req, k).Holds(r)
  }

  lemma CaseMatches(log: seq<Row>, req: Request, k: Keyword, sqlOk: bool)
    requires Contiguous(log)
    ensures var b := ResolveCase(log, req, k, sqlOk);
            && (b.id >= 0 <==> Matched(log, req, k, sqlOk))
            && (b.id < 0 ==> b.id == -1 || b.id == -2)
            && (b.id >= 0 ==> exists r :: r in log && r.id == b.id && Candidates(req, k).Holds(r))
  {
    IdsArePositive(log);
    hide Contiguous, MinId, MaxId, GoesUp, GetAmount, IntValue;
    MinIdIsLeast(log, Candidates(req, k));
    MaxIdIsGreatest(log, Candidates(req, k));
    match k {
      case Last =>
      case First =>
      case Id =>
      case Date =>
      case Counter =>
    }
  }

  /** A lookup yields a base row exactly when some keyword is named and matched, and it is one of the rows
      that qualify; otherwise it yields an error code, never an answer. */
  lemma ResolveMatches(log: seq<Row>, req: Request, kind: CharKind, sqlOk: bool)
    requires Contiguous(log)
    ensures var b := Resolve(log, req, kind, sqlOk);
            && (b.id >= 0 <==> exists k :: Names(req, k, kind) && Matched(log, req, k, sqlOk))
            && (b.id < 0 ==> b.id == -1 || b.id == -2)
            && (b.id >= 0 ==> exists k, r :: Names(req, k, kind) && r in log && r.id == b.id && Candidates(req, k).Holds(r))
  {
    hide CaseTaken, ResolveCase, Matched, Candidates;
    if req.base.Some? && req.base.value.JText? && CaseTaken(req.base.value.bytes, kind).Some? {
      var k := CaseTaken(req.base.value.bytes, kind).value;
      assert Names(req, k, kind);
      CaseMatches(log, req, k, sqlOk);
    }
  }

  lemma CaseIsNearest(log: seq<Row>, req: Request, k: Keyword, sqlOk: bool)
    requires Contiguous(log) && ResolveCase(log, req, k, sqlOk).id >= 0
    ensures var b := ResolveCase(log, req, k, sqlOk);
            && b.up == (k == First || (k != Last && GoesUp(req))) && b.amount == GetAmount(req)
            && forall r :: r in log && Candidates(req, k).Holds(r) ==> if b.up then b.id <= r.id else r.id <= b.id
  {
    hide Contiguous, MinId, MaxId, GoesUp, GetAmount, IntValue;
    MinIdIsLeast(log, Candidates(req, k));
    MaxIdIsGreatest(log, Candidates(req, k));
  }

  /** The base row is the first qualifying one in the direction of the answer, which is the requested one
      except that "last" always goes down and "first" up; the limit is left alone. */
  lemma BaseIsNearest(log: seq<Row>, req: Request, kind: CharKind, sqlOk: bool, k: Keyword)
    requires Contiguous(log) && Names(req, k, kind) && Resolve(log, req, kind, sqlOk).id >= 0
    ensures var b := Resolve(log, req, kind, sqlOk);
            && b.up == (k == First || (k != Last && GoesUp(req))) && b.amount == GetAmount(req)
            && forall r :: r in log && Candidates(req, k).Holds(r) ==> if b.up then b.id <= r.id else r.id <= b.id
  {
    hide CaseTaken, ResolveCase, Contiguous;
    CaseIsNearest(log, req, k, sqlOk);
  }

  lemma IdsArePositive(log: seq<Row>)
    requires Contiguous(log)
    ensures forall r :: r in log ==> r.id >= 1
  {
  }

  // ---------- splitting the log ----------

  lemma {:induction false} FilterAgrees(log: seq<Row>, p: Where, q: Where)
    requires forall r :: r in log ==> (p.Holds(r) <==> q.Holds(r))
    ensures Filter(log, p) == Filter(log, q)
    decreases |log|
  {
    if log != [] { FilterAgrees(log[..|log| - 1], p, q); }
  }

  lemma OrderedByDate(log: seq<Row>)
    requires Sorted(log) && MonotoneDates(log)
    ensures forall x, y :: x in log && y in log && x.id <= y.id ==> x.date <= y.date
  {
  }

  lemma DateSplits(log: seq<Row>, date: int)
    requires Sorted(log) && MonotoneDates(log)
    ensures var m := MinId(log, DateAtLeast(date));
            m.Some? ==> Filter(log, IdAtLeast(m.value)) == Filter(log, DateAtLeast(date))
    ensures var m := MaxId(log, DateAtMost(date));
            m.Some? ==> Filter(log, IdAtMost(m.value)) == Filter(log, DateAtMost(date))
  {
    OrderedByDate(log);
    MinIdIsLeast(log, DateAtLeast(date));
    MaxIdIsGreatest(log, DateAtMost(date));
    var lo, hi := MinId(log, DateAtLeast(date)), MaxId(log, DateAtMost(date));
    if lo.Some? { FilterAgrees(log, IdAtLeast(lo.value), DateAtLeast(date)); }
    if hi.Some? { FilterAgrees(log, IdAtMost(hi.value), DateAtMost(date)); }
  }

  lemma CounterSplits(log: seq<Row>, counter: int)
    requires Sorted(log) && MonotoneCounters(log)
    ensures var m := MinId(log, CounterAtLeast(counter));
            m.Some? ==> Filter(log, IdAtLeast(m.value)) == Filter(log, CounterAtLeast(counter))
    ensures var m := MaxId(log, CounterAtMost(counter));
            m.Some? ==> Filter(log, IdAtMost(m.value)) == Filter(log, CounterAtMost(counter))
  {
    Answers.OrderedInBoth(log);
    MinIdIsLeast(log, CounterAtLeast(counter));
    MaxIdIsGreatest(log, CounterAtMost(counter));
    var lo, hi := MinId(log, CounterAtLeast(counter)), MaxId(log, CounterAtMost(counter));
    if lo.Some? { FilterAgrees(log, IdAtLeast(lo.value), CounterAtLeast(counter)); }
    if hi.Some? { FilterAgrees(log, IdAtMost(hi.value), CounterAtMost(counter)); }
  }

  lemma CaseSplitsLog(log: seq<Row>, req: Request, k: Keyword)
    requires Contiguous(log) && (k == Date || k == Counter)
    requires if k == Date then MonotoneDates(log) else MonotoneCounters(log)
    requires ResolveCase(log, req, k, true).id >= 0
    ensures var b := ResolveCase(log, req, k, true);
            b.up == GoesUp(req) && Table.Window(log, b.up, b.id) == Filter(log, Candidates(req, k))
  {
    hide Filter, MinId, MaxId;
    ContiguousIsSorted(log);
    if k == Date { DateSplits(log, IntValue(req.date)); } else { CounterSplits(log, IntValue(req.counter)); }
  }

  /** On dates that never decrease, the window from a "date" base is exactly the rows on its side of the
      requested date; likewise for counters. */
  lemma BaseSplitsLog(log: seq<Row>, req: Request, kind: CharKind, k: Keyword)
    requires Contiguous(log) && (k == Date || k == Counter) && Names(req, k, kind)
    requires if k == Date then MonotoneDates(log) else MonotoneCounters(log)
    requires Resolve(log, req, kind, true).id >= 0
    ensures var b := Resolve(log, req, kind, true);
            b.up == GoesUp(req) && Table.Window(log, b.up, b.id) == Filter(log, Candidates(req, k))
  {
    hide CaseTaken, ResolveCase;
    CaseSplitsLog(log, req, k);
  }
}
