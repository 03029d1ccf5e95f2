/** EEPROM access in page-sized transfers. The device's address counter wraps within a page, so a transfer
    that runs past the end of its page would land at the page's start. */
module Eeprom {
  import opened Machine

  const I2C_RXTX_LEN: int := 128

  function Pow2(n: nat): (p: nat)
    ensures p > 0
  {
    if n == 0 then 1 else 2 * Pow2(n - 1)
  }

  /** `1 << CONFIG_SYS_EEPROM_PAGE_WRITE_BITS`. */
  function PageSize(bits: nat): (p: nat)
    ensures p > 0
  {
    Pow2(bits)
  }

  /** `eeprom_len`: bytes of the next transfer. The offset within the page is taken from the low eight bits
      of the offset only. */
  function Len(bits: nat, offset: nat, end: nat): (len: nat)
    requires offset < end
    ensures 0 < len <= I2C_RXTX_LEN && offset + len <= end
  {
    var blkOff := offset % 256;
    ModLess(blkOff, PageSize(bits));
    var room := PageSize(bits) - blkOff % PageSize(bits);
    var maxlen := if room > I2C_RXTX_LEN then I2C_RXTX_LEN else room;
    if end - offset > maxlen then maxlen else end - offset
  }

  lemma ModLess(x: nat, p: nat)
    requires p > 0
    ensures 0 <= x % p < p
  {
  }

  /** All bytes of a transfer lie in one page. */
  predicate InOnePage(bits: nat, offset: nat, len: nat) {
    offset % PageSize(bits) + len <= PageSize(bits)
  }

  lemma {:induction false} SmallPages(bits: nat)
    requires bits <= 8
    ensures PageSize(bits) * Pow2(8 - bits) == 256
  {
    assert Pow2(0) == 1 && Pow2(1) == 2 && Pow2(2) == 4 && Pow2(3) == 8 && Pow2(4) == 16;
    assert Pow2(5) == 32 && Pow2(6) == 64 && Pow2(7) == 128 && Pow2(8) == 256;
  }

  lemma {:induction false} LargePages(bits: nat)
    requires bits > 8
    ensures PageSize(bits) >= 512
  {
    assert Pow2(8) == 256;
    if bits > 9 {
      LargePages(bits - 1);
    }
  }

  /** The remainder by a divisor of the modulus survives the modulus. */
  lemma ModOfMod(x: nat, p: nat, q: nat)
    requires p > 0 && q > 0
    ensures (x % (p * q)) % p == x % p
  {
    var m := p * q;
    var k := x / m;
    assert x == m * k + x % m;
    assert x == p * (q * k) + x % m;
    ModPlusMultiple(x % m, p, q * k);
  }

  lemma ModPlusMultiple(y: nat, p: nat, k: nat)
    requires p > 0
    ensures (p * k + y) % p == y % p
  {
    var a := y / p;
    assert p * k + y == p * (k + a) + y % p;
    ModUnique(p * k + y, p, k + a, y % p);
  }

  lemma Distribute(p: int, a: int, b: int)
    ensures p * (a + b) == p * a + p * b
  {
  }

  lemma AtLeastOnce(p: nat, d: int)
    requires d >= 1
    ensures p * d >= p
  {
    Distribute(p, 1, d - 1);
    assert p * (d - 1) >= 0;
  }

  lemma Unique(p: nat, k: int, r: int, j: int, s: int)
    requires p * k + r == p * j + s && 0 <= r < p && 0 <= s < p && k >= j
    ensures r == s
  {
    Distribute(p, j, k - j);
    if k > j {
      AtLeastOnce(p, k - j);
    }
  }

  lemma ModUnique(x: nat, p: nat, k: nat, r: nat)
    requires p > 0 && x == p * k + r && r < p
    ensures x % p == r
  {
    var j, s := x / p, x % p;
    assert x == p * j + s;
    if k >= j {
      Unique(p, k, r, j, s);
    } else {
      Unique(p, j, s, k, r);
    }
  }

  lemma ModAtMost(x: nat, p: nat)
    requires p > 0
    ensures x % p <= x
  {
    if x < p {
      ModUnique(x, p, 0, x);
    }
  }

  lemma StaysInPage(bits: nat, offset: nat, end: nat)
    requires bits <= 8 && offset < end
    ensures InOnePage(bits, offset, Len(bits, offset, end))
  {
    SmallPages(bits);
    ModOfMod(offset, PageSize(bits), Pow2(8 - bits));
  }

  /** Every transfer stays inside one page, for all offsets and lengths, if and only if pages have at most
      256 bytes. */
  lemma TransfersStayInPageIff(bits: nat)
    ensures (forall offset: nat, end: nat :: offset < end ==> InOnePage(bits, offset, Len(bits, offset, end))) <==>
      bits <= 8
  {
    if bits <= 8 {
      forall offset: nat, end: nat | offset < end
        ensures InOnePage(bits, offset, Len(bits, offset, end))
      {
        StaysInPage(bits, offset, end);
      }
    } else {
      CrossesPage(bits);
    }
  }

  /** With larger pages the transfer that starts 16 bytes before the end of a page shows it: it is 128 bytes
      long. */
  lemma {:induction false} CrossesPage(bits: nat)
    requires bits > 8
    ensures PageSize(bits) >= 512 && Len(bits, PageSize(bits) - 16, PageSize(bits) + 112) == 128
    ensures !InOnePage(bits, PageSize(bits) - 16, 128) && Cell(bits, PageSize(bits) - 16, 16) == 0
  {
    LargePages(bits);
    var p := PageSize(bits);
    MultipleOf256(bits);
    var q :| p == 256 * q;
    assert (p - 16) % 256 == 240;
    ModUnique(240, p, 0, 240);
    ModUnique(p - 16, p, 0, p - 16);
    ModUnique(p, p, 1, 0);
  }

  function Min(x: nat, y: nat): nat {
    if x < y then x else y
  }

  /** A transfer is as long as the bus, the range and, for pages of at most 256 bytes, the page allow. Larger
      pages do not limit it. */
  lemma LenExact(bits: nat, offset: nat, end: nat)
    requires offset < end
    ensures bits <= 8 ==>
      Len(bits, offset, end) == Min(Min(I2C_RXTX_LEN, end - offset), PageSize(bits) - offset % PageSize(bits))
    ensures bits > 8 ==> Len(bits, offset, end) == Min(I2C_RXTX_LEN, end - offset)
  {
    if bits <= 8 {
      SmallPages(bits);
      ModOfMod(offset, PageSize(bits), Pow2(8 - bits));
    } else {
      LargePages(bits);
      ModUnique(offset % 256, PageSize(bits), 0, offset % 256);
    }
  }

  lemma {:induction false} MultipleOf256(bits: nat)
    requires bits >= 8
    ensures exists q: nat :: PageSize(bits) == 256 * q
  {
    if bits == 8 {
      SmallPages(8);
      assert PageSize(8) == 256 * 1;
    } else {
      MultipleOf256(bits - 1);
      var q: nat :| PageSize(bits - 1) == 256 * q;
      assert PageSize(bits) == 256 * (2 * q);
    }
  }

  // ---------------------------------------------------------------- the device

  /** Cell that byte `k` of a transfer at `offset` reaches. */
  function Cell(bits: nat, offset: nat, k: nat): nat {
    ModAtMost(offset, PageSize(bits));
    ModLess(offset % PageSize(bits) + k, PageSize(bits));
    offset - offset % PageSize(bits) + (offset % PageSize(bits) + k) % PageSize(bits)
  }

  lemma CellInPage(bits: nat, offset: nat, len: nat, k: nat)
    requires InOnePage(bits, offset, len) && k < len
    ensures Cell(bits, offset, k) == offset + k
  {
    ModUnique(offset % PageSize(bits) + k, PageSize(bits), 0, offset % PageSize(bits) + k);
  }

  /** A page write: the bytes go in one after the other, wrapping within the page. */
  function WriteBlock(mem: seq<Byte>, bits: nat, offset: nat, data: seq<Byte>): (m: seq<Byte>)
    ensures |m| == |mem|
  {
    if data == [] then mem
    else
      var m := WriteBlock(mem, bits, offset, data[..|data| - 1]);
      var c := Cell(bits, offset, |data| - 1);
      if c < |m| then m[c := data[|data| - 1]] else m
  }

  function ReadBlock(mem: seq<Byte>, bits: nat, offset: nat, len: nat): (d: seq<Byte>)
    ensures |d| == len
  {
    seq(len, k requires 0 <= k < len => if Cell(bits, offset, k) < |mem| then mem[Cell(bits, offset, k)] else 0)
  }

  /** Memory with `data` in place from `offset` on. */
  function Copied(mem: seq<Byte>, offset: nat, data: seq<Byte>): (m: seq<Byte>)
    requires offset + |data| <= |mem|
    ensures |m| == |mem|
  {
    mem[..offset] + data + mem[offset + |data|..]
  }

  lemma {:induction false} WriteInPage(mem: seq<Byte>, bits: nat, offset: nat, data: seq<Byte>)
    requires offset + |data| <= |mem| && InOnePage(bits, offset, |data|)
    ensures WriteBlock(mem, bits, offset, data) == Copied(mem, offset, data)
  {
    if data == [] {
      assert Copied(mem, offset, data) == mem;
    } else {
      var init := data[..|data| - 1];
      WriteInPage(mem, bits, offset, init);
      CellInPage(bits, offset, |data|, |data| - 1);
      assert Copied(mem, offset, init)[offset + |data| - 1 := data[|data| - 1]] == Copied(mem, offset, data);
    }
  }

  lemma ReadInPage(mem: seq<Byte>, bits: nat, offset: nat, len: nat)
    requires offset + len <= |mem| && InOnePage(bits, offset, len)
    ensures ReadBlock(mem, bits, offset, len) == mem[offset..offset + len]
  {
    forall k | 0 <= k < len
      ensures ReadBlock(mem, bits, offset, len)[k] == mem[offset + k]
    {
      CellInPage(bits, offset, len, k);
    }
  }

  // ---------------------------------------------------------------- the transfer loop

  datatype Transfer = Transfer(offset: nat, len: nat)

  /** End of the range, a 32-bit sum: a range past the top of the address space comes out empty. */
  function RangeEnd(offset: nat, cnt: nat): nat {
    if offset + cnt < TWO_32 then offset + cnt else offset + cnt - TWO_32
  }

  /** The transfers of one call. */
  function Plan(bits: nat, offset: nat, end: nat): seq<Transfer>
    decreases end - offset
  {
    if offset >= end then []
    else var len := Len(bits, offset, end); [Transfer(offset, len)] + Plan(bits, offset + len, end)
  }

  /** Device memory after the write transfers of one call. */
  function Written(mem: seq<Byte>, bits: nat, offset: nat, end: nat, buffer: seq<Byte>): seq<Byte>
    requires end - offset <= |buffer|
    decreases end - offset
  {
    if offset >= end then mem
    else
      var len := Len(bits, offset, end);
      Written(WriteBlock(mem, bits, offset, buffer[..len]), bits, offset + len, end, buffer[len..])
  }

  /** Bytes that the read transfers of one call deliver. */
  function Fetched(mem: seq<Byte>, bits: nat, offset: nat, end: nat): seq<Byte>
    decreases end - offset
  {
    if offset >= end then []
    else var len := Len(bits, offset, end); ReadBlock(mem, bits, offset, len) + Fetched(mem, bits, offset + len, end)
  }

  /** The transfers cover [from, to) exactly once, in order, none longer than the bus allows. */
  predicate Tiles(ts: seq<Transfer>, from: nat, to: nat) {
    if ts == [] then from == to
    else ts[0].offset == from && 0 < ts[0].len <= I2C_RXTX_LEN && Tiles(ts[1..], from + ts[0].len, to)
  }

  predicate WithinPages(bits: nat, ts: seq<Transfer>) {
    forall i :: 0 <= i < |ts| ==> InOnePage(bits, ts[i].offset, ts[i].len)
  }

  /** The transfers of a call tile its range, whatever the page size. */
  lemma {:induction false} PlanTiles(bits: nat, offset: nat, end: nat)
    requires offset <= end
    ensures Tiles(Plan(bits, offset, end), offset, end)
    decreases end - offset
  {
    if offset < end {
      var len := Len(bits, offset, end);
      PlanTiles(bits, offset + len, end);
      assert Plan(bits, offset, end)[1..] == Plan(bits, offset + len, end);
    }
  }

  lemma OneMoreWithin(bits: nat, t: Transfer, ts: seq<Transfer>)
    requires InOnePage(bits, t.offset, t.len) && WithinPages(bits, ts)
    ensures WithinPages(bits, [t] + ts)
  {
  }

  /** With pages of at most 256 bytes each transfer of a call stays in one page. */
  lemma {:induction false} PlanWithinPages(bits: nat, offset: nat, end: nat)
    requires bits <= 8
    ensures WithinPages(bits, Plan(bits, offset, end))
    decreases end - offset
  {
    if offset < end {
      var len := Len(bits, offset, end);
      StaysInPage(bits, offset, end);
      PlanWithinPages(bits, offset + len, end);
      OneMoreWithin(bits, Transfer(offset, len), Plan(bits, offset + len, end));
    }
  }

  lemma CopiedTwice(mem: seq<Byte>, offset: nat, data: seq<Byte>, n: nat)
    requires offset + |data| <= |mem| && n <= |data|
    ensures Copied(Copied(mem, offset, data[..n]), offset + n, data[n..]) == Copied(mem, offset, data)
  {
  }

  lemma WriteStep(mem: seq<Byte>, bits: nat, offset: nat, end: nat, buffer: seq<Byte>, len: nat)
    requires bits <= 8 && offset < end <= |mem| && end - offset <= |buffer| && len == Len(bits, offset, end)
    ensures Written(mem, bits, offset, end, buffer)
         == Written(Copied(mem, offset, buffer[..len]), bits, offset + len, end, buffer[len..])
  {
    StaysInPage(bits, offset, end);
    WriteInPage(mem, bits, offset, buffer[..len]);
  }

  /** With pages of at most 256 bytes the write transfers amount to one linear copy. */
  lemma {:induction false} WriteIsCopy(mem: seq<Byte>, bits: nat, offset: nat, end: nat, buffer: seq<Byte>)
    requires bits <= 8 && offset + |buffer| == end <= |mem|
    ensures Written(mem, bits, offset, end, buffer) == Copied(mem, offset, buffer)
    decreases |buffer|
  {
    if buffer == [] {
      assert Copied(mem, offset, buffer) == mem;
    } else {
      var len := Len(bits, offset, end);
      WriteStep(mem, bits, offset, end, buffer, len);
      WriteIsCopy(Copied(mem, offset, buffer[..len]), bits, offset + len, end, buffer[len..]);
      CopiedTwice(mem, offset, buffer, len);
    }
  }

  lemma {:induction false} WriteHits(mem: seq<Byte>, bits: nat, offset: nat, data: seq<Byte>, k: nat)
    requires k < |data| && Cell(bits, offset, k) < |mem| && forall i :: 0 <= i < |data| ==> data[i] == 1
    ensures WriteBlock(mem, bits, offset, data)[Cell(bits, offset, k)] == 1
  {
    if k < |data| - 1 {
      WriteHits(mem, bits, offset, data[..|data| - 1], k);
    }
  }

  /** With larger pages the write that starts 16 bytes before the end of the first page changes the first
      byte of the device. */
  lemma WriteWraps(bits: nat) returns (mem: seq<Byte>, offset: nat, buffer: seq<Byte>)
    requires bits > 8
    ensures 0 < offset && offset + |buffer| == |mem|
    ensures Written(mem, bits, offset, |mem|, buffer) != Copied(mem, offset, buffer)
  {
    CrossesPage(bits);
    var n := PageSize(bits) + 112;
    offset := PageSize(bits) - 16;
    mem, buffer := seq(n, i => 0), seq(128, i => 1);
    WriteHits(mem, bits, offset, buffer, 16);
    assert buffer[..128] == buffer;
    assert Written(mem, bits, offset, n, buffer) == WriteBlock(mem, bits, offset, buffer);
    assert Copied(mem, offset, buffer)[0] == 0;
  }

  /** Every write inside the device is one linear copy if and only if pages have at most 256 bytes. */
  lemma WriteIsCopyIff(bits: nat)
    ensures (forall mem: seq<Byte>, offset: nat, buffer: seq<Byte> :: offset + |buffer| <= |mem| ==>
              Written(mem, bits, offset, offset + |buffer|, buffer) == Copied(mem, offset, buffer)) <==> bits <= 8
  {
    if bits <= 8 {
      forall mem: seq<Byte>, offset: nat, buffer: seq<Byte> | offset + |buffer| <= |mem|
        ensures Written(mem, bits, offset, offset + |buffer|, buffer) == Copied(mem, offset, buffer)
      {
        WriteIsCopy(mem, bits, offset, offset + |buffer|, buffer);
      }
    } else {
      var mem, offset, buffer := WriteWraps(bits);
    }
  }

  lemma ReadStep(mem: seq<Byte>, bits: nat, offset: nat, end: nat, len: nat)
    requires bits <= 8 && offset < end <= |mem| && len == Len(bits, offset, end)
    ensures Fetched(mem, bits, offset, end) == mem[offset..offset + len] + Fetched(mem, bits, offset + len, end)
  {
    StaysInPage(bits, offset, end);
    ReadInPage(mem, bits, offset, len);
  }

  lemma SliceSplit(mem: seq<Byte>, from: nat, mid: nat, to: nat)
    requires from <= mid <= to <= |mem|
    ensures mem[from..mid] + mem[mid..to] == mem[from..to]
  {
  }

  /** With pages of at most 256 bytes the read transfers deliver the range as it is in memory. */
  lemma {:induction false} ReadIsSlice(mem: seq<Byte>, bits: nat, offset: nat, end: nat)
    requires bits <= 8 && offset <= end <= |mem|
    ensures Fetched(mem, bits, offset, end) == mem[offset..end]
    decreases end - offset
  {
    if offset < end {
      var len := Len(bits, offset, end);
      ReadStep(mem, bits, offset, end, len);
      ReadIsSlice(mem, bits, offset + len, end);
      SliceSplit(mem, offset, offset + len, end);
    }
  }

  /** With larger pages the read that starts 16 bytes before the end of the first page delivers the first
      byte of the device in place of the first byte of the second page. */
  lemma ReadWraps(bits: nat) returns (mem: seq<Byte>, offset: nat)
    requires bits > 8
    ensures offset <= |mem| && Fetched(mem, bits, offset, |mem|) != mem[offset..]
  {
    CrossesPage(bits);
    var n := PageSize(bits) + 112;
    offset := PageSize(bits) - 16;
    mem := seq(n, i => if i == 0 then 1 else 0);
    assert Fetched(mem, bits, offset, n) == ReadBlock(mem, bits, offset, 128) + Fetched(mem, bits, offset + 128, n);
    assert Fetched(mem, bits, offset, n)[16] == 1 && mem[offset..][16] == 0;
  }

  /** Every read inside the device delivers its range if and only if pages have at most 256 bytes. */
  lemma ReadIsSliceIff(bits: nat)
    ensures (forall mem: seq<Byte>, offset: nat, end: nat :: offset <= end <= |mem| ==>
              Fetched(mem, bits, offset, end) == mem[offset..end]) <==> bits <= 8
  {
    if bits <= 8 {
      forall mem: seq<Byte>, offset: nat, end: nat | offset <= end <= |mem|
        ensures Fetched(mem, bits, offset, end) == mem[offset..end]
      {
        ReadIsSlice(mem, bits, offset, end);
      }
    } else {
      var mem, offset := ReadWraps(bits);
      assert mem[offset..|mem|] == mem[offset..];
    }
  }

  /** The transfers of a call, in terms of its arguments: the range asked for, or none if it ends past the
      32-bit address space. */
  lemma PlanRange(bits: nat, start: nat, cnt: nat)
    requires start < TWO_32 && cnt < TWO_32
    ensures start + cnt < TWO_32 ==> Tiles(Plan(bits, start, RangeEnd(start, cnt)), start, start + cnt)
    ensures start + cnt >= TWO_32 ==> Plan(bits, start, RangeEnd(start, cnt)) == []
  {
    if start + cnt < TWO_32 {
      PlanTiles(bits, start, start + cnt);
    }
  }

  lemma WriteRange(mem: seq<Byte>, bits: nat, start: nat, buffer: seq<Byte>)
    requires start < TWO_32 && |buffer| < TWO_32
    ensures start + |buffer| >= TWO_32 ==> Written(mem, bits, start, RangeEnd(start, |buffer|), buffer) == mem
    ensures bits <= 8 && start + |buffer| <= |mem| < TWO_32 ==>
      Written(mem, bits, start, RangeEnd(start, |buffer|), buffer) == Copied(mem, start, buffer)
  {
    if bits <= 8 && start + |buffer| <= |mem| < TWO_32 {
      WriteIsCopy(mem, bits, start, start + |buffer|, buffer);
    }
  }

  lemma ReadRange(mem: seq<Byte>, bits: nat, start: nat, cnt: nat)
    requires start < TWO_32 && cnt < TWO_32
    ensures start + cnt >= TWO_32 ==> Fetched(mem, bits, start, RangeEnd(start, cnt)) == []
    ensures bits <= 8 && start + cnt <= |mem| < TWO_32 ==>
      Fetched(mem, bits, start, RangeEnd(start, cnt)) == mem[start..start + cnt]
  {
    if bits <= 8 && start + cnt <= |mem| < TWO_32 {
      ReadIsSlice(mem, bits, start, start + cnt);
    }
  }

  class Device {
    const bits: nat
    var mem: seq<Byte>

    constructor (pageBits: nat, contents: seq<Byte>)
      ensures bits == pageBits && mem == contents
    {
      bits, mem := pageBits, contents;
    }

    /** `eeprom_rw` for writing; the transfers it makes are returned. */
    method Write(start: nat, buffer: seq<Byte>) returns (ts: seq<Transfer>)
      requires start < TWO_32 && |buffer| < TWO_32
      modifies this
      ensures mem == Written(old(mem), bits, start, RangeEnd(start, |buffer|), buffer)
      ensures ts == Plan(bits, start, RangeEnd(start, |buffer|))
      ensures start + |buffer| < TWO_32 ==> Tiles(ts, start, start + |buffer|)
      ensures start + |buffer| >= TWO_32 ==> ts == [] && mem == old(mem)
      ensures bits <= 8 && start + |buffer| <= |old(mem)| < TWO_32 ==> mem == Copied(old(mem), start, buffer)
    {
      var offset, end := start, RangeEnd(start, |buffer|);
      var left := buffer;
      ts := [];
      while offset < end
        invariant end - offset <= |left|
        invariant Written(mem, bits, offset, end, left) == Written(old(mem), bits, start, end, buffer)
        invariant ts + Plan(bits, offset, end) == Plan(bits, start, end)
        decreases end - offset
      {
        var len := Len(bits, offset, end);
        mem := WriteBlock(mem, bits, offset, left[..len]);
        ts := ts + [Transfer(offset, len)];
        left := left[len..];
        offset := offset + len;
      }
      PlanRange(bits, start, |buffer|);
      WriteRange(old(mem), bits, start, buffer);
    }

    /** `eeprom_rw` for reading; the transfers it makes are returned. */
    method Read(start: nat, cnt: nat) returns (buffer: seq<Byte>, ts: seq<Transfer>)
      requires start < TWO_32 && cnt < TWO_32
      ensures buffer == Fetched(mem, bits, start, RangeEnd(start, cnt))
      ensures ts == Plan(bits, start, RangeEnd(start, cnt))
      ensures start + cnt < TWO_32 ==> Tiles(ts, start, start + cnt)
      ensures start + cnt >= TWO_32 ==> ts == [] && buffer == []
      ensures bits <= 8 && start + cnt <= |mem| < TWO_32 ==> buffer == mem[start..start + cnt]
    {
      var offset, end := start, RangeEnd(start, cnt);
      buffer, ts := [], [];
      while offset < end
        invariant buffer + Fetched(mem, bits, offset, end) == Fetched(mem, bits, start, end)
        invariant ts + Plan(bits, offset, end) == Plan(bits, start, end)
        decreases end as int - offset as int
      {
        var len := Len(bits, offset, end);
        buffer := buffer + ReadBlock(mem, bits, offset, len);
        ts := ts + [Transfer(offset, len)];
        offset := offset + len;
      }
      PlanRange(bits, start, cnt);
      ReadRange(mem, bits, start, cnt);
    }
  }

  lemma CopiedSlice(mem: seq<Byte>, offset: nat, data: seq<Byte>, i: nat)
    requires offset + |data| <= |mem| && i < |mem|
    ensures Copied(mem, offset, data)[offset..offset + |data|] == data
    ensures !(offset <= i < offset + |data|) ==> Copied(mem, offset, data)[i] == mem[i]
  {
  }

  /** A read of what was written returns it, and the other bytes are as before, for every range of the
      device and pages of at most 256 bytes. */
  lemma ReadAfterWrite(mem: seq<Byte>, bits: nat, offset: nat, end: nat, data: seq<Byte>, i: nat)
    requires bits <= 8 && offset + |data| == end <= |mem| && i < |mem|
    ensures var m := Written(mem, bits, offset, end, data);
      && |m| == |mem|
      && Fetched(m, bits, offset, end) == data
      && (!(offset <= i < end) ==> m[i] == mem[i])
  {
    WriteIsCopy(mem, bits, offset, end, data);
    ReadIsSlice(Copied(mem, offset, data), bits, offset, end);
    CopiedSlice(mem, offset, data, i);
  }
}
