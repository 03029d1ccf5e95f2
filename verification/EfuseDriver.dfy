/** The fuse driver: register sequences against the device, and fields in the caller's argument array. */
module EfuseDriver {
  import opened EfuseBits
  import opened EfuseDevice
  import opened EfuseFields

  const POLL_LOOPS: int := 100000

  /** What the status bit shows at each poll of a poll loop. */
  type Polls = nat -> bool

  /** The device reports in time. */
  ghost predicate Answers(polls: Polls) {
    exists t :: 0 <= t < POLL_LOOPS && polls(t)
  }

  /** The device reports in time in poll loops 1 to `n`. */
  ghost predicate AllAnswer(polls: nat -> Polls, n: nat) {
    n == 0 || (AllAnswer(polls, n - 1) && Answers(polls(n)))
  }

  datatype Status = NoError | InvalidArgument | Timeout

  /** Mailbox status words for the caller. */
  function StatusWord(s: Status): Word {
    match s
    case NoError => Zero()
    case Timeout => seq(32, i => i == 1)
    case InvalidArgument => seq(32, i => i <= 1)
  }

  /** Words `2 * k` and `2 * k + 1` hold row `k` of the field `a0`, not yet moved to its offset. */
  predicate Pending(size: nat, words: seq<Word>, a0: seq<Word>, k: nat)
    requires 2 * k + 1 < |words| == |a0|
  {
    Pair(words[2 * k], words[2 * k + 1]) ==
      if size < EFUSE_BITS_IN_ROW then Expand(size, a0[2 * k], a0[2 * k + 1]) else Pair(a0[2 * k], a0[2 * k + 1])
  }

  /** The rows of the field from number `count` on are still as the caller gave them. */
  predicate Waiting(size: nat, words: seq<Word>, a0: seq<Word>, count: nat)
    requires 2 * Loops(size) <= |words| == |a0|
  {
    forall k :: count <= k < Loops(size) ==> Pending(size, words, a0, k)
  }

  lemma WaitingNext(size: nat, before: seq<Word>, after: seq<Word>, a0: seq<Word>, count: nat)
    requires 2 * Loops(size) <= |before| == |after| == |a0| && Waiting(size, before, a0, count)
    requires forall i :: 2 * count + 2 <= i < |after| ==> after[i] == before[i]
    ensures Waiting(size, after, a0, count + 1)
  {
    forall k | count + 1 <= k < Loops(size)
      ensures Pending(size, after, a0, k)
    {
      assert Pending(size, before, a0, k);
    }
  }

  lemma ExpandedWaits(size: nat, words: seq<Word>, a0: seq<Word>)
    requires IsFieldSize(size) && 2 * Loops(size) <= |words| == |a0|
    requires Pair(words[0], words[1]) == Expand(size, a0[0], a0[1])
    requires size >= EFUSE_BITS_IN_ROW ==> words == a0
    ensures Waiting(size, words, a0, 0)
  {
  }

  /** State of the row loop of a write once `count` rows have been written. */
  ghost predicate RowsDone(d: Device, size: nat, row: nat, offset: nat, words: seq<Word>, polls: nat -> Polls,
      a0: seq<Word>, before: seq<Row>, count: nat)
  {
    && IsFieldSize(size) && row < EFUSE_MAX_ROW && offset <= EFUSE_BITS_IN_ROW && |before| == ROWS
    && count <= Loops(size) && 2 * Loops(size) <= |words| == |a0|
    && Valid(d) && Unlocked(d) && d.fuses == Written(before, size, row, offset, a0, count)
    && Waiting(size, words, a0, count) && AllAnswer(polls, count)
  }

  /** The asked write got `call.rows` rows written: all of them on success, none when it is refused. */
  predicate Got(asked: Call, status: Status, call: Call) {
    && call == asked.(rows := call.rows)
    && (status == NoError ==> call.rows == Loops(asked.size))
    && (status == InvalidArgument ==> call.rows == 0)
    && (status == InvalidArgument <==> asked.row >= EFUSE_MAX_ROW || asked.offset > EFUSE_BITS_IN_ROW)
  }

  class Efuse {
    var dev: Device

    constructor (device: Device)
      ensures dev == device
    {
      dev := device;
    }

    method SetControl(v: bv16)
      requires Valid(dev)
      modifies this
      ensures dev == WriteControl(old(dev), v)
    {
      dev := WriteControl(dev, v);
    }

    /** Clocks one bit of the unlock code in. */
    method CodeBit(bit: bool)
      requires Valid(dev)
      modifies this
      ensures dev == old(dev).(control := if bit then 0x700 else 0x500, code := old(dev).code + [bit],
        readDone := false)
    {
      if bit {
        SetControl(0x0300);
        SetControl(0x0700);
      } else {
        SetControl(0x0100);
        SetControl(0x0500);
      }
    }

    /** Clocks the unlock code in once. */
    method SendCode()
      requires Valid(dev) && !dev.readDone
      modifies this
      ensures dev == old(dev).(control := dev.control, code := old(dev).code + CODE)
    {
      ghost var start := dev;
      for k := 0 to 10
        invariant dev == start.(control := dev.control, code := start.code + CODE[..k])
      {
        CodeBit(CODE[k]);
        assert CODE[..k + 1] == CODE[..k] + [CODE[k]];
      }
      assert CODE[..10] == CODE;
    }

    /** Clocks the unlock code in several times. */
    method SendCodes(times: nat)
      requires Valid(dev) && !dev.readDone
      modifies this
      ensures dev == old(dev).(control := dev.control, code := old(dev).code + Repeated(times))
    {
      ghost var start := dev;
      for n := 0 to times
        invariant dev == start.(control := dev.control, code := start.code + Repeated(n))
      {
        SendCode();
        RepeatedNext(n);
        assert start.code + Repeated(n) + CODE == start.code + (Repeated(n) + CODE);
      }
    }

    /** Waits for the code match to show. */
    method AwaitMatch(polls: Polls) returns (status: Status)
      requires CodeMatch(dev)
      ensures status == (if Answers(polls) then NoError else Timeout)
    {
      status := Timeout;
      for timeout := 0 to POLL_LOOPS
        invariant status == Timeout && forall t :: 0 <= t < timeout ==> !polls(t)
      {
        if polls(timeout) && CodeMatch(dev) {
          status := NoError;
          break;
        }
      }
    }

    /** `efuse_write_enable(1)`: no cell is burned by the unlock sequence, and success means that
        programming is unlocked. */
    method WriteEnable(polls: Polls) returns (status: Status)
      requires Valid(dev)
      modifies this
      ensures dev == old(dev).(control := 0, master := MASTER_OTP_PRG_EN, code := old(dev).code + Repeated(6),
        readDone := false)
      ensures status == (if Answers(polls) then NoError else Timeout)
      ensures Unlocked(dev)
    {
      SetControl(0);
      dev := dev.(master := MASTER_OTP_PRG_EN);
      SetControl(SCLK);
      ghost var code := dev.code;
      SendCodes(6);
      SetControl(0);
      EndsInCode(code, 6);
      status := AwaitMatch(polls);
    }

    /** `efuse_write_enable(0)`: the extra code bit spoils the match and programming is locked again. */
    method WriteDisable()
      requires Valid(dev) && Unlocked(dev)
      modifies this
      ensures Valid(dev) && dev.fuses == old(dev).fuses && dev.pulses == old(dev).pulses
      ensures !CodeMatch(dev) && dev.master == 0
    {
      ghost var code := dev.code;
      SetControl(0x0005);
      SetControl(0x0405);
      SetControl(0x0005);
      dev := dev.(master := 0);
      CodeSpoilt(code, dev.code, 6);
    }

    /** `efuse_read_row_no_ecc`: reads one row and burns nothing. */
    method ReadRow(row: nat, polls: Polls) returns (status: Status, lsb: Word, msb: Word)
      requires Valid(dev) && row < ROWS
      modifies this
      ensures Valid(dev) && dev == old(dev).(control := PRDT | CSB | PGM_B, row := row, col := 0,
        data := old(dev).fuses[row], readDone := true)
      ensures status == (if Answers(polls) then NoError else Timeout)
      ensures status == NoError ==> lsb == Lo(dev.fuses[row]) && msb == Hi(dev.fuses[row])
    {
      SetControl(CSB);
      SetControl(dev.control | PRDT);
      SetControl((dev.control & !CSB) | PGM_B | LOAD);
      dev := WriteAddress(dev, row, 0);
      SetControl(dev.control | SCLK);
      SetControl(dev.control & !SCLK);
      SetControl((dev.control | CSB) & !LOAD);
      status, lsb, msb := Timeout, Zero(), Zero();
      for timeout := 0 to POLL_LOOPS
        invariant status == Timeout && forall t :: 0 <= t < timeout ==> !polls(t)
      {
        if polls(timeout) && dev.readDone {
          status := NoError;
          lsb := Lo(dev.data);
          msb := Hi(dev.data);
          break;
        }
      }
    }

    /** After a row read: select write mode. */
    method EnterWriteMode()
      requires Valid(dev) && dev.control == PRDT | CSB | PGM_B
      modifies this
      ensures dev == old(dev).(control := PRDT)
    {
      SetControl(dev.control | PRDT);
      SetControl(dev.control & !(CSB | PGM_B | LOAD));
    }

    method LeaveWriteMode()
      requires Valid(dev) && dev.control == PRDT
      modifies this
      ensures dev == old(dev).(control := PRDT | CSB | PGM_B)
    {
      SetControl(dev.control | CSB);
      SetControl((dev.control & !LOAD) | PGM_B);
    }

    /** One SCLK pulse in write mode burns one cell. */
    method BurnCell(row: nat, col: nat)
      requires Valid(dev) && Unlocked(dev) && dev.control == PRDT && row < ROWS && col < 64
      modifies this
      ensures dev == old(dev).(row := row, col := col, pulses := old(dev).pulses + 1,
                               fuses := old(dev).fuses[row := old(dev).fuses[row][col := true]])
    {
      dev := WriteAddress(dev, row, col);
      SetControl(dev.control | SCLK);
      SetControl(dev.control & !SCLK);
    }

    /** One turn of the column loop: burns the cell if the lowest bit of word `i` is set, and shifts it out. */
    method BurnColumn(row: nat, col: nat, args: array<Word>, i: nat)
      requires Valid(dev) && Unlocked(dev) && dev.control == PRDT && row < ROWS && col < 64 && i < args.Length
      modifies this, args
      ensures Valid(dev) && Unlocked(dev) && dev.control == PRDT
      ensures dev.fuses == old(dev).fuses[row :=
        if old(args[i][0]) then old(dev).fuses[row][col := true] else old(dev).fuses[row]]
      ensures args[..] == old(args[..])[i := Shr(old(args[i]), 1)]
    {
      if args[i][0] {
        BurnCell(row, col);
      }
      args[i] := Shr(args[i], 1);
    }

    /** The column loop: burns the set bits of words `w` and `w + 1`, shifting them out. */
    method BurnRow(row: nat, args: array<Word>, w: nat)
      requires Valid(dev) && Unlocked(dev) && dev.control == PRDT && row < ROWS && w + 1 < args.Length
      modifies this, args
      ensures Valid(dev) && Unlocked(dev) && dev.control == PRDT
      ensures dev.fuses == old(dev).fuses[row := OrRow(old(dev).fuses[row], RowOf(old(args[w]), old(args[w + 1])))]
      ensures forall i :: 0 <= i < args.Length && i != w && i != w + 1 ==> args[i] == old(args[i])
    {
      ghost var fuses, a, b, r := dev.fuses, args[w], args[w + 1], dev.fuses[row];
      BurntEnds(r, RowOf(a, b));
      ShiftedNone(a);
      ShiftedNone(b);
      for col := 0 to EFUSE_BITS_IN_ROW
        invariant Valid(dev) && Unlocked(dev) && dev.control == PRDT
        invariant dev.fuses == fuses[row := Burnt(r, RowOf(a, b), col)]
        invariant args[w] == ShiftedOut(a, col, 0) && args[w + 1] == ShiftedOut(b, col, 32)
        invariant forall i :: 0 <= i < args.Length && i != w && i != w + 1 ==> args[i] == old(args[i])
      {
        BurntNext(r, a, b, col);
        SetAgain(fuses, row, Burnt(r, RowOf(a, b), col), Burnt(r, RowOf(a, b), col + 1));
        assert col / 32 == if col < 32 then 0 else 1;
        BurnColumn(row, col, args, w + col / 32);
      }
    }

    /** The 64-bit right shift of a field that has been read. */
    method ShiftRight(args: array<Word>, offset: nat)
      requires args.Length >= 2 && offset <= 64
      modifies args
      ensures RowOf(args[0], args[1]) == ShrRow(RowOf(old(args[0]), old(args[1])), offset)
      ensures forall i :: 2 <= i < args.Length ==> args[i] == old(args[i])
    {
      ghost var lo, hi := args[0], args[1];
      if offset < 32 {
        args[0] := Shr(args[0], offset);
        args[0] := Or(args[0], Shl(args[1], 32 - offset));
        args[1] := Shr(args[1], offset);
      } else {
        args[0] := Shr(args[1], offset - 32);
        args[1] := Zero();
      }
      assert Pair(args[0], args[1]) == ShrHalves(lo, hi, offset);
      HalvesShiftTheRow(lo, hi, offset);
    }

    /** The 64-bit left shift of a field that is to be written. */
    method ShiftLeft(args: array<Word>, offset: nat)
      requires args.Length >= 2 && offset <= 64
      modifies args
      ensures RowOf(args[0], args[1]) == ShlRow(RowOf(old(args[0]), old(args[1])), offset)
      ensures forall i :: 2 <= i < args.Length ==> args[i] == old(args[i])
    {
      ghost var lo, hi := args[0], args[1];
      if offset < 32 {
        args[1] := Shl(args[1], offset);
        args[1] := Or(args[1], Shr(args[0], 32 - offset));
        args[0] := Shl(args[0], offset);
      } else {
        args[1] := Shl(args[0], offset - 32);
        args[0] := Zero();
      }
      assert Pair(args[0], args[1]) == ShlHalves(lo, hi, offset);
      HalvesShiftTheRow(lo, hi, offset);
    }

    /** Removes what a field shorter than a row does not own. */
    method Clean(size: nat, offset: nat, args: array<Word>, ghost r: Row)
      requires size < EFUSE_BITS_IN_ROW && IsFieldSize(size) && offset <= 64
      requires args.Length >= 2 && RowOf(args[0], args[1]) == r
      modifies args
      ensures Pair(args[0], args[1]) == ReadField(size, offset, r)
    {
      ShiftRight(args, offset);
      assert args[0] == Lo(ShrRow(r, offset)) && args[1] == Hi(ShrRow(r, offset));
      if size == 1 {
        var bits := (if args[0][0] then 1 else 0) + (if args[0][1] then 2 else 0) + if args[0][2] then 4 else 0;
        args[1] := Zero();
        args[0] := Bit(bits == 3 || bits > 4);
      } else if size <= 32 {
        args[0] := Low(args[0], size);
        args[1] := Zero();
      }
    }

    /** `efuse_read`. Nothing is burned; on success a short field comes back as `ReadField` says and whole
        rows come back word by word. */
    method Read(size: nat, row: nat, offset: nat, args: array<Word>, polls: nat -> Polls) returns (status: Status)
      requires Valid(dev) && IsFieldSize(size) && args.Length >= 2 * Loops(size)
      modifies this, args
      ensures Valid(dev) && dev.fuses == old(dev).fuses && dev.pulses == old(dev).pulses
      ensures status == InvalidArgument <==> row >= EFUSE_MAX_ROW || offset > EFUSE_BITS_IN_ROW
      ensures status == NoError <==>
        row < EFUSE_MAX_ROW && offset <= EFUSE_BITS_IN_ROW && forall k :: 0 <= k < Loops(size) ==> Answers(polls(k))
      ensures status == NoError ==> IsRead(dev.fuses, size, row, offset, args[..])
      ensures status != NoError ==> args[0] == StatusWord(status)
    {
      if row >= EFUSE_MAX_ROW || offset > EFUSE_BITS_IN_ROW {
        status := InvalidArgument;
        args[0] := StatusWord(status);
        return;
      }
      for count := 0 to Loops(size)
        invariant Valid(dev) && dev.fuses == old(dev).fuses && dev.pulses == old(dev).pulses
        invariant forall k :: 0 <= k < count ==> Answers(polls(k))
        invariant forall k :: 0 <= k < count ==>
          args[2 * k] == Lo(dev.fuses[row + k]) && args[2 * k + 1] == Hi(dev.fuses[row + k])
      {
        var lsb, msb;
        status, lsb, msb := ReadRow(row + count, polls(count));
        if status != NoError {
          args[0] := StatusWord(status);
          return;
        }
        args[2 * count] := lsb;
        args[2 * count + 1] := msb;
      }
      status := NoError;
      if size < EFUSE_BITS_IN_ROW {
        Halves(dev.fuses[row]);
        assert args[2 * 0] == Lo(dev.fuses[row + 0]) && args[2 * 0 + 1] == Hi(dev.fuses[row + 0]);
        Clean(size, offset, args, dev.fuses[row]);
      }
    }

    /** Cuts a short field to its size, and spreads a single bit over three cells. */
    method ExpandField(size: nat, args: array<Word>)
      requires IsFieldSize(size) && args.Length >= 2
      modifies args
      ensures Pair(args[0], args[1]) == Expand(size, old(args[0]), old(args[1]))
      ensures size >= EFUSE_BITS_IN_ROW ==> args[..] == old(args[..])
    {
      if size == 1 {
        args[0] := Low(args[0], 1);
        args[0] := Or(args[0], Or(Shl(args[0], 1), Shl(args[0], 2)));
        args[1] := Zero();
      } else if size <= 32 {
        args[0] := Low(args[0], size);
        args[1] := Zero();
      }
    }

    /** Combines words `w` and `w + 1` with the old value of the row and burns them in. */
    method BurnWithOld(row: nat, args: array<Word>, w: nat, lsb: Word, msb: Word)
      requires Valid(dev) && Unlocked(dev) && dev.control == PRDT && row < ROWS && w + 1 < args.Length
      requires lsb == Lo(dev.fuses[row]) && msb == Hi(dev.fuses[row])
      modifies this, args
      ensures Valid(dev) && Unlocked(dev) && dev.control == PRDT
      ensures dev.fuses == old(dev).fuses[row := OrRow(old(dev).fuses[row], RowOf(old(args[w]), old(args[w + 1])))]
      ensures forall i :: 0 <= i < args.Length && i != w && i != w + 1 ==> args[i] == old(args[i])
    {
      OrTwice(dev.fuses[row], args[w], args[w + 1]);
      args[w] := Or(args[w], lsb);
      args[w + 1] := Or(args[w + 1], msb);
      BurnRow(row, args, w);
    }

    /** One turn of the row loop: the row is read, the field moved to its offset and burned into it. */
    method WriteRow(size: nat, row: nat, offset: nat, args: array<Word>, count: nat, polls: Polls, ghost a0: seq<Word>)
        returns (status: Status)
      requires Valid(dev) && Unlocked(dev) && row + count < ROWS && offset <= 64
      requires 2 * count + 1 < args.Length == |a0| && (size < EFUSE_BITS_IN_ROW ==> count == 0)
      requires Pending(size, args[..], a0, count)
      modifies this, args
      ensures Valid(dev) && Unlocked(dev) && status == (if Answers(polls) then NoError else Timeout)
      ensures status == Timeout ==> dev.fuses == old(dev).fuses
      ensures status == NoError ==> dev.control == PRDT
      ensures status == NoError ==>
        dev.fuses == old(dev).fuses[row + count :=
          OrRow(old(dev).fuses[row + count], Requested(size, offset, a0, count))]
      ensures forall i :: 2 * count + 2 <= i < args.Length ==> args[i] == old(args[i])
    {
      var lsb, msb;
      status, lsb, msb := ReadRow(row + count, polls);
      if status != NoError {
        return;
      }
      EnterWriteMode();
      if size < EFUSE_BITS_IN_ROW {
        ShiftLeft(args, offset);
      }
      assert RowOf(args[2 * count], args[2 * count + 1]) == Requested(size, offset, a0, count);
      BurnWithOld(row + count, args, 2 * count, lsb, msb);
    }

    /** The same turn, in terms of what has been written since the fuses were `before`. */
    method WriteNext(size: nat, row: nat, offset: nat, args: array<Word>, count: nat, polls: nat -> Polls,
        ghost a0: seq<Word>, ghost before: seq<Row>) returns (status: Status)
      requires RowsDone(dev, size, row, offset, args[..], polls, a0, before, count) && count < Loops(size)
      modifies this, args
      ensures status == (if Answers(polls(count + 1)) then NoError else Timeout)
      ensures status == NoError ==>
        RowsDone(dev, size, row, offset, args[..], polls, a0, before, count + 1) && dev.control == PRDT
      ensures status == Timeout ==>
        Valid(dev) && Unlocked(dev) && dev.fuses == Written(before, size, row, offset, a0, count)
    {
      ghost var words := args[..];
      WrittenNext(before, size, row, offset, a0, count);
      status := WriteRow(size, row, offset, args, count, polls(count + 1), a0);
      WaitingNext(size, words, args[..], a0, count);
    }

    /** The row loop. */
    method WriteRows(size: nat, row: nat, offset: nat, args: array<Word>, polls: nat -> Polls, ghost a0: seq<Word>)
        returns (status: Status, ghost n: nat)
      requires Valid(dev) && Unlocked(dev) && row < EFUSE_MAX_ROW && offset <= 64 && IsFieldSize(size)
      requires 2 * Loops(size) <= args.Length == |a0| && Waiting(size, args[..], a0, 0)
      modifies this, args
      ensures Valid(dev) && Unlocked(dev) && n <= Loops(size)
      ensures status == (if n == Loops(size) then NoError else Timeout)
      ensures AllAnswer(polls, n) && (n < Loops(size) ==> !Answers(polls(n + 1)))
      ensures dev.fuses == Written(old(dev).fuses, size, row, offset, a0, n)
      ensures status == NoError ==> dev.control == PRDT
    {
      ghost var before := dev.fuses;
      WrittenNone(before, size, row, offset, a0);
      status, n := NoError, 0;
      var count := 0;
      while count < Loops(size)
        invariant n == count && status == NoError && (count > 0 ==> dev.control == PRDT)
        invariant RowsDone(dev, size, row, offset, args[..], polls, a0, before, count)
      {
        status := WriteNext(size, row, offset, args, count, polls, a0, before);
        if status != NoError {
          return;
        }
        count, n := count + 1, n + 1;
      }
    }

    /** `efuse_write` once its arguments have been checked. */
    method WriteChecked(size: nat, row: nat, offset: nat, args: array<Word>, polls: nat -> Polls)
        returns (status: Status, ghost n: nat)
      requires Valid(dev) && IsFieldSize(size) && args.Length >= 2 * Loops(size)
      requires row < EFUSE_MAX_ROW && offset <= EFUSE_BITS_IN_ROW
      modifies this, args
      ensures Valid(dev) && n <= Loops(size)
      ensures dev.fuses == Written(old(dev).fuses, size, row, offset, old(args[..]), n)
      ensures status == NoError ==> n == Loops(size) && dev.master == 0 && !CodeMatch(dev)
      ensures status == NoError ==> Answers(polls(0)) && AllAnswer(polls, n)
      ensures status != NoError ==> status == Timeout && Unlocked(dev)
      ensures status == Timeout && !Answers(polls(0)) ==> n == 0
      ensures status == Timeout && Answers(polls(0)) ==>
        AllAnswer(polls, n) && n < Loops(size) && !Answers(polls(n + 1))
    {
      ghost var a0 := args[..];
      n := 0;
      WrittenNone(dev.fuses, size, row, offset, a0);
      ExpandField(size, args);
      ExpandedWaits(size, args[..], a0);
      status := WriteEnable(polls(0));
      if status == NoError {
        status, n := WriteRows(size, row, offset, args, polls, a0);
        if status == NoError {
          LeaveWriteMode();
          WriteDisable();
        }
      }
    }

    /** `efuse_write`. On success every addressed row is its old value OR the requested one, no other row
        differs, and programming is locked again. When the read of row `n` of the field times out, the rows
        before it have been written in full and the others not at all, and programming stays unlocked; a
        refused call touches no register. Poll loop 0 waits for the code match, loop `k + 1` for row `k`. */
    method Write(size: nat, row: nat, offset: nat, args: array<Word>, polls: nat -> Polls)
        returns (status: Status, ghost n: nat)
      requires Valid(dev) && IsFieldSize(size) && args.Length >= 2 * Loops(size)
      modifies this, args
      ensures Valid(dev) && n <= Loops(size)
      ensures dev.fuses == Written(old(dev).fuses, size, row, offset, old(args[..]), n)
      ensures forall r: nat, col: nat :: r < ROWS && col < 64 ==>
        (dev.fuses[r][col] <==> old(dev).fuses[r][col] || Wants(size, row, offset, old(args[..]), n, r, col))
      ensures status == InvalidArgument <==> row >= EFUSE_MAX_ROW || offset > EFUSE_BITS_IN_ROW
      ensures status == InvalidArgument ==> n == 0 && dev == old(dev)
      ensures status == NoError ==> n == Loops(size) && dev.master == 0 && !CodeMatch(dev)
      ensures status == NoError ==> Answers(polls(0)) && AllAnswer(polls, n)
      ensures status == Timeout ==> Unlocked(dev)
      ensures status == Timeout && !Answers(polls(0)) ==> n == 0
      ensures status == Timeout && Answers(polls(0)) ==>
        AllAnswer(polls, n) && n < Loops(size) && !Answers(polls(n + 1))
      ensures status != NoError ==> args[0] == StatusWord(status)
    {
      if row >= EFUSE_MAX_ROW || offset > EFUSE_BITS_IN_ROW {
        n := 0;
        WrittenNone(dev.fuses, size, row, offset, args[..]);
        status := InvalidArgument;
      } else {
        status, n := WriteChecked(size, row, offset, args, polls);
      }
      ghost var before, a0 := old(dev).fuses, old(args[..]);
      forall r: nat, col: nat | r < ROWS && col < 64
        ensures dev.fuses[r][col] <==> before[r][col] || Wants(size, row, offset, a0, n, r, col)
      {
        WrittenCell(before, size, row, offset, a0, n, r, col);
      }
      if status != NoError {
        args[0] := StatusWord(status);
      }
    }

    /** A sequence of writes, each with its own answers of the device. `calls` says how far each one got; a
        fuse is set afterwards if and only if it was set before or one of them got to it and asked for it. */
    method WriteAll(asked: seq<Call>, polls: (nat, nat) -> Polls)
        returns (statuses: seq<Status>, ghost calls: seq<Call>)
      requires Valid(dev) && forall i :: 0 <= i < |asked| ==> IsCall(asked[i])
      modifies this
      ensures Valid(dev) && |statuses| == |calls| == |asked|
      ensures forall i :: 0 <= i < |calls| ==> IsCall(calls[i]) && Got(asked[i], statuses[i], calls[i])
      ensures dev.fuses == WrittenAll(old(dev).fuses, calls)
      ensures forall r: nat, col: nat :: r < ROWS && col < 64 ==>
        (dev.fuses[r][col] <==> old(dev).fuses[r][col] || exists i :: 0 <= i < |calls| && Asks(calls[i], r, col))
    {
      statuses, calls := [], [];
      ghost var before := dev.fuses;
      for k := 0 to |asked|
        invariant Valid(dev) && |statuses| == |calls| == k
        invariant forall i :: 0 <= i < k ==> IsCall(calls[i]) && Got(asked[i], statuses[i], calls[i])
        invariant dev.fuses == WrittenAll(before, calls)
      {
        var c := asked[k];
        var args := new Word[|c.args|](i requires 0 <= i < |c.args| => c.args[i]);
        assert args[..] == c.args;
        var status;
        ghost var n;
        status, n := Write(c.size, c.row, c.offset, args, i => polls(k, i));
        WrittenOneMore(before, calls, c.(rows := n));
        statuses, calls := statuses + [status], calls + [c.(rows := n)];
      }
      forall r: nat, col: nat | r < ROWS && col < 64
        ensures dev.fuses[r][col] <==> before[r][col] || exists i :: 0 <= i < |calls| && Asks(calls[i], r, col)
      {
        FuseSetIff(before, calls, r, col);
      }
    }

    /** A write to blank cells and a read of the same field, when the device answers both: the field comes
        back as it was meant. */
    method WriteThenRead(size: nat, row: nat, offset: nat, args: array<Word>, out: array<Word>, polls: nat -> Polls,
        readPolls: nat -> Polls) returns (written: Status, read: Status)
      requires Valid(dev) && IsFieldSize(size) && args.Length >= 2 * Loops(size) && out.Length >= 2 * Loops(size)
      requires args != out
      modifies this, args, out
      ensures written == NoError && read == NoError && (size <= 32 || size >= EFUSE_BITS_IN_ROW) &&
              BlankField(old(dev).fuses, size, row, offset) ==>
        IsMeant(size, old(args[..]), out[..])
    {
      ghost var fuses, a0 := dev.fuses, args[..];
      ghost var n;
      written, n := Write(size, row, offset, args, polls);
      read := Read(size, row, offset, out, readPolls);
      if written == NoError && read == NoError && (size <= 32 || size >= EFUSE_BITS_IN_ROW) &&
         BlankField(fuses, size, row, offset) {
        FieldRoundTrip(fuses, size, row, offset, a0, out[..]);
      }
    }
  }

  /** The row after the first `col` columns of `v` have been burned. */
  function Burnt(r: Row, v: Row, col: nat): Row {
    seq(64, i requires 0 <= i < 64 => r[i] || (i < col && v[i]))
  }

  /** Word `w`, whose bits belong to the columns from `first` on, once the loop has reached `col`. */
  function ShiftedOut(w: Word, col: nat, first: nat): Word {
    Shr(w, if col < first then 0 else if col < first + 32 then col - first else 32)
  }

  lemma SetAgain(fuses: seq<Row>, row: nat, x: Row, y: Row)
    requires row < |fuses|
    ensures fuses[row := x][row := y] == fuses[row := y] && fuses[row := x][row] == x
    ensures fuses[row := fuses[row]] == fuses
  {
  }

  lemma ShiftedNone(w: Word)
    ensures Shr(w, 0) == w
  {
  }

  lemma BurntEnds(r: Row, v: Row)
    ensures Burnt(r, v, 0) == r && Burnt(r, v, 64) == OrRow(r, v)
  {
  }

  lemma OrTwice(r: Row, lo: Word, hi: Word)
    ensures OrRow(r, RowOf(Or(lo, Lo(r)), Or(hi, Hi(r)))) == OrRow(r, RowOf(lo, hi))
  {
  }

  lemma BurntNext(r: Row, lo: Word, hi: Word, col: nat)
    requires col < 64
    ensures var v := RowOf(lo, hi);
      Burnt(r, v, col + 1) == if v[col] then Burnt(r, v, col)[col := true] else Burnt(r, v, col)
    ensures var w, first, other := if col < 32 then lo else hi, if col < 32 then 0 else 32, if col < 32 then hi else lo;
      && RowOf(lo, hi)[col] == ShiftedOut(w, col, first)[0]
      && ShiftedOut(w, col + 1, first) == Shr(ShiftedOut(w, col, first), 1)
      && ShiftedOut(other, col + 1, 32 - first) == ShiftedOut(other, col, 32 - first)
  {
  }

  lemma EndsInCode(code: seq<bool>, times: nat)
    ensures EndsWithCode(code + Repeated(times), times)
  {
  }

  lemma RepeatedStart(n: nat)
    requires n > 0
    ensures Repeated(n)[0] && !Repeated(n)[1]
  {
    if n > 1 {
      RepeatedStart(n - 1);
    }
  }

  /** One more code bit after a match, and the match is gone. */
  lemma CodeSpoilt(before: seq<bool>, after: seq<bool>, times: nat)
    requires times > 0 && EndsWithCode(before, times) && after == before + [false]
    ensures !EndsWithCode(after, times)
  {
    RepeatedStart(times);
    assert after[|after| - 10 * times..][0] == before[|before| - 10 * times..][1];
  }
}
