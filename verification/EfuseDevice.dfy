/** The one-time-programmable fuse block behind its registers. A rise of SCLK reads the addressed row in
    read mode and, once programming is unlocked, burns the addressed cell in write mode; nothing else
    changes a fuse. */
module EfuseDevice {
  import opened EfuseBits

  const SCLK: bv16 := 0x100
  const PRDT: bv16 := 0x8
  const CSB: bv16 := 0x4
  const LOAD: bv16 := 0x2
  const PGM_B: bv16 := 0x1
  /** Data and clock of the unlock code. */
  const CODE_DATA: bv16 := 0x200
  const CODE_CLK: bv16 := 0x400

  const MASTER_OTP_PRG_EN: int := 0x5A
  const ROWS: int := 64

  datatype Device = Device(
    control: bv16,
    row: nat,
    col: nat,
    master: int,
    code: seq<bool>,
    fuses: seq<Row>,
    data: Row,
    readDone: bool,
    pulses: nat)

  predicate Set(v: bv16, mask: bv16) {
    v & mask != 0
  }

  /** The sequence 1011000110. */
  const CODE: seq<bool> := [true, false, true, true, false, false, false, true, true, false]

  function Repeated(n: nat): (s: seq<bool>)
    ensures |s| == 10 * n
  {
    seq(10 * n, i requires 0 <= i < 10 * n => CODE[i % 10])
  }

  lemma RepeatedNext(n: nat)
    ensures Repeated(n + 1) == Repeated(n) + CODE
  {
    forall i | 0 <= i < 10 * n + 10
      ensures Repeated(n + 1)[i] == (Repeated(n) + CODE)[i]
    {
      if i >= 10 * n {
        assert i % 10 == i - 10 * n;
      }
    }
  }

  /** The last code bits are `times` times the sequence. */
  predicate EndsWithCode(code: seq<bool>, times: nat) {
    |code| >= 10 * times && code[|code| - 10 * times..] == Repeated(times)
  }

  predicate CodeMatch(d: Device) {
    EndsWithCode(d.code, 6)
  }

  predicate Unlocked(d: Device) {
    d.master == MASTER_OTP_PRG_EN && CodeMatch(d)
  }

  predicate WriteMode(v: bv16) {
    Set(v, PRDT) && !Set(v, CSB) && !Set(v, PGM_B) && !Set(v, LOAD)
  }

  predicate ReadMode(v: bv16) {
    Set(v, PRDT) && !Set(v, CSB) && Set(v, PGM_B) && Set(v, LOAD)
  }

  predicate Valid(d: Device) {
    |d.fuses| == ROWS && d.row < ROWS && d.col < 128
  }

  function Burn(d: Device): Device
    requires Valid(d)
  {
    if d.col < 64 then d.(fuses := d.fuses[d.row := d.fuses[d.row][d.col := true]], pulses := d.pulses + 1)
    else d.(pulses := d.pulses + 1)
  }

  /** A rise of the code clock takes in one code bit. */
  function ClockCode(d: Device, v: bv16): Device {
    if Set(v, CODE_CLK) && !Set(d.control, CODE_CLK) then d.(code := d.code + [Set(v, CODE_DATA)]) else d
  }

  /** What a rise of SCLK does in the mode that `v` selects. */
  function Pulse(d: Device, v: bv16): (r: Device)
    requires Valid(d)
    ensures Valid(r)
    ensures r.pulses == d.pulses ==> r.fuses == d.fuses
    ensures r.pulses != d.pulses ==> WriteMode(v) && Unlocked(d) && r == Burn(d)
  {
    if ReadMode(v) then d.(data := d.fuses[d.row], readDone := true)
    else if WriteMode(v) && Unlocked(d) then Burn(d)
    else d
  }

  /** A write to the control register. */
  function WriteControl(d: Device, v: bv16): (r: Device)
    requires Valid(d)
    ensures Valid(r)
  {
    var c := ClockCode(d, v);
    var p := if Set(v, SCLK) && !Set(d.control, SCLK) then Pulse(c, v) else c;
    p.(control := v, readDone := p.readDone && Set(v, PRDT))
  }

  /** A write to the row and column register. */
  function WriteAddress(d: Device, row: nat, col: nat): (r: Device)
    requires Valid(d)
    ensures Valid(r)
  {
    d.(row := if row < 64 then row else row % 64, col := if col < 128 then col else col % 128)
  }

  /** No register write clears a fuse, and only a burn pulse sets one. */
  lemma FusesOnlyBurn(d: Device, v: bv16, r: nat, c: nat)
    requires Valid(d) && r < ROWS && c < 64
    ensures d.fuses[r][c] ==> WriteControl(d, v).fuses[r][c]
    ensures WriteControl(d, v).pulses == d.pulses ==> WriteControl(d, v).fuses == d.fuses
    ensures WriteControl(d, v).pulses != d.pulses ==> WriteMode(v) && d.master == MASTER_OTP_PRG_EN
  {
  }
}
