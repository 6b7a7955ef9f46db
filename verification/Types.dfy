/** Values shared by every part of the model: C integer widths, sensor readings,
    the shared-memory block, and the rows of the log table. */
module Types {

  datatype Option<+T> = None | Some(value: T) {
    function GetOr(default: T): T {
      if Some? then value else default
    }
  }

  type uint16 = x: int | 0 <= x < 0x1_0000
  type uint32 = x: int | 0 <= x < 0x1_0000_0000
  type int16 = x: int | -0x8000 <= x < 0x8000
  type int32 = x: int | -0x8000_0000 <= x < 0x8000_0000

  /** The four pump timeouts, in hundredths of a second. */
  type Quad = s: seq<int16> | |s| == 4 witness [0, 0, 0, 0]

  /** Conversion of any integer to a 32-bit signed one: two's complement wrap-around. */
  function ToInt32(v: int): (r: int32)
    ensures exists k :: r == v + k * 0x1_0000_0000
    ensures -0x8000_0000 <= v < 0x8000_0000 ==> r == v
  {
    var r := (v + 0x8000_0000) % 0x1_0000_0000 - 0x8000_0000;
    assert r == v + (-((v + 0x8000_0000) / 0x1_0000_0000)) * 0x1_0000_0000;
    r
  }

  /** A C float, up to its class as fpclassify reports it. */
  datatype Float = Normal(value: real) | Zero | Subnormal(tiny: real) | Infinite(negative: bool) | Nan

  /** What the update functions keep of a reading: anything that is not FP_NORMAL becomes 0. */
  function Sanitise(f: Float): Float {
    if f.Normal? then f else Zero
  }

  /** The data fields of the shared-memory block. */
  datatype Mem = Mem(
    counter: int32, capacity: Float, capacityAvg: Float, volume: Float,
    alarms: bv32, timeouts: Quad, lastTime: int)

  /** The block as InitMemory leaves it; mmap zeroes what is not assigned. */
  const INITIAL_MEM := Mem(-1, Normal(-1.0), Zero, Normal(-1.0), 0, [0, 0, 0, 0], 0)

  /** One row of the log table. SQLite holds integers in 64 bits. */
  datatype Row = Row(
    id: int, date: int, counter: int32, capacity: Float, capacityAvg: Float, volume: Float,
    timeouts: Quad, alarms: bv64)

  /** A 32-bit word printed as a signed decimal and read back as a 64-bit integer. */
  function SignExtend(w: bv32): bv64 {
    if w & 0x8000_0000 == 0 then w as bv64 else (w as bv64) | 0xFFFF_FFFF_0000_0000
  }

  /** The row an INSERT stores for a block, under the id and date the database supplies. */
  function RowOf(mem: Mem, id: int, date: int): Row {
    Row(id, date, mem.counter, mem.capacity, mem.capacityAvg, mem.volume, mem.timeouts, SignExtend(mem.alarms))
  }

  /** The value of a two's-complement 32-bit word, in 64 bits: with bit 31 set it is the word less 2^32. */
  function Widened(w: bv32): bv64 {
    if w < 0x8000_0000 then w as bv64 else (w as bv64) - 0x1_0000_0000
  }

  lemma StoredWordIs(w: bv32)
    ensures SignExtend(w) == Widened(w)
    ensures w < 0x8000_0000 ==> SignExtend(w) == w as bv64
    ensures w >= 0x8000_0000 ==> SignExtend(w) == (w as bv64) - 0x1_0000_0000
  {
  }

  lemma CounterWordIs(v: uint32)
    ensures ToInt32(v) == if v < 0x8000_0000 then v else v - 0x1_0000_0000
  {
  }
}
