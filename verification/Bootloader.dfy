/** The bootloader's update from a compressed image: safe if power is lost at any step. */
module Bootloader {
  import opened Wrappers
  import opened Bytes

  type Memory = seq<byte>

  const HEADER_SIZE: nat := 64
  const IN_BUF_SIZE: nat := 4096
  const OUT_BUF_SIZE: nat := 4096
  const SECTOR_SIZE: nat := 4096
  const ERASED: byte := 255

  /** The boot record: which sequence to run, and whether it has been verified. */
  datatype Config = Config(seqno: nat, verified: bool)

  const RUN_IMAGE := Some(Config(0, true))
  const UNPACK_FIRST := Some(Config(1, true))

  /** What survives a loss of power. */
  datatype Store = Store(mem: Memory, cfg: Option<Config>)

  // ----- flash contents -----

  /** Nothing outside an area differs. */
  ghost predicate Outside(a: Memory, b: Memory, addr: nat, size: nat) {
    |a| == |b| && forall i :: 0 <= i < |a| && !(addr <= i < addr + size) ==> a[i] == b[i]
  }

  /** An area holds some bytes, followed by erased ones. */
  ghost predicate Holds(mem: Memory, addr: nat, size: nat, data: seq<byte>) {
    && addr + size <= |mem| && |data| <= size
    && (forall i :: 0 <= i < |data| ==> mem[addr + i] == data[i])
    && (forall i :: addr + |data| <= i < addr + size ==> mem[i] == ERASED)
  }

  /** Writing behind the bytes of an area appends to them. */
  lemma WriteAppends(a: Memory, b: Memory, addr: nat, size: nat, data: seq<byte>, piece: seq<byte>)
    requires Holds(a, addr, size, data) && |data| + |piece| <= size
    requires Outside(a, b, addr + |data|, |piece|)
    requires forall i :: 0 <= i < |piece| ==> b[addr + |data| + i] == piece[i]
    ensures Holds(b, addr, size, data + piece)
  {
    forall i | 0 <= i < |data + piece|
      ensures b[addr + i] == (data + piece)[i]
    {
      if i >= |data| {
        assert b[addr + |data| + (i - |data|)] == piece[i - |data|];
      }
    }
  }

  lemma SliceStays(a: Memory, b: Memory, addr: nat, size: nat, from: nat, to: nat)
    requires Outside(a, b, addr, size) && from <= to <= |a| && (to <= addr || addr + size <= from)
    ensures a[from..to] == b[from..to]
  {}

  lemma SliceOfSlice(m: Memory, from: nat, to: nat, i: nat, j: nat)
    requires from <= to <= |m| && i <= j <= to - from
    ensures m[from..to][i..j] == m[from + i..from + j]
  {
    forall k | 0 <= k < j - i
      ensures m[from..to][i..j][k] == m[from + i..from + j][k]
    {
      assert m[from..to][i..j][k] == m[from..to][i + k] == m[from + (i + k)];
    }
  }

  function Le32(mem: Memory, at: nat): nat
    requires at + 4 <= |mem|
  {
    var a: int, b: int, c: int, d: int := mem[at], mem[at + 1], mem[at + 2], mem[at + 3];
    a + 256 * b + 65536 * c + 16777216 * d
  }

  // ----- the device -----

  class Device {
    const imageAddr: nat
    const imageSize: nat
    const blSize: nat
    const packedAddr: nat
    /** The section check, on the bootloader and the image behind it. */
    const passes: seq<byte> -> bool

    var mem: Memory
    var cfg: Option<Config>
    ghost var trace: seq<Store>   // every state that a loss of power could have left
    ghost var errors: nat         // how many operations have failed

    constructor (mem: Memory, cfg: Option<Config>, imageAddr: nat, imageSize: nat, blSize: nat, packedAddr: nat,
                 passes: seq<byte> -> bool)
      ensures this.mem == mem && this.cfg == cfg && trace == [Store(mem, cfg)] && errors == 0
      ensures this.imageAddr == imageAddr && this.imageSize == imageSize && this.blSize == blSize
      ensures this.packedAddr == packedAddr && this.passes == passes
    {
      this.imageAddr, this.imageSize, this.blSize, this.packedAddr := imageAddr, imageSize, blSize, packedAddr;
      this.passes := passes;
      this.mem, this.cfg, trace, errors := mem, cfg, [Store(mem, cfg)], 0;
    }

    function BodyLen(m: Memory): nat
      requires packedAddr + HEADER_SIZE <= |m|
    {
      Le32(m, packedAddr + 24)
    }

    /** Bit 4 of the attribute word. */
    predicate IsCompressed(m: Memory)
      requires packedAddr + HEADER_SIZE <= |m|
    {
      Le32(m, packedAddr + 28) / 16 % 2 == 1
    }

    function PackedEnd(m: Memory): nat
      requires packedAddr + HEADER_SIZE <= |m|
    {
      packedAddr + HEADER_SIZE + BodyLen(m)
    }

    /** The image area lies behind the bootloader and apart from the compressed image. */
    ghost predicate Layout(m: Memory) {
      && blSize <= imageAddr && imageAddr + imageSize <= |m|
      && packedAddr + HEADER_SIZE <= |m| && PackedEnd(m) <= |m|
      && (imageAddr + imageSize <= packedAddr || PackedEnd(m) <= imageAddr)
    }

    /** The compressed image with its header. */
    function Packed(m: Memory): seq<byte>
      requires packedAddr + HEADER_SIZE <= |m| && PackedEnd(m) <= |m|
    {
      m[packedAddr..PackedEnd(m)]
    }

    function Stream(m: Memory): seq<byte>
      requires packedAddr + HEADER_SIZE <= |m| && PackedEnd(m) <= |m|
    {
      m[packedAddr + HEADER_SIZE..PackedEnd(m)]
    }

    /** What the section check reads. */
    function Checked(m: Memory): seq<byte>
      requires blSize <= imageAddr && imageAddr + imageSize <= |m|
    {
      m[imageAddr - blSize..imageAddr + imageSize]
    }

    /** Either the update can be made from scratch, or it is complete and was found good; and compared with the
        original memory, only the image area differs. */
    ghost predicate Safe(s: Store, origin: Memory)
      requires Layout(origin)
    {
      && Layout(s.mem) && Outside(origin, s.mem, imageAddr, imageSize)
      && ((s.cfg == UNPACK_FIRST && Packed(s.mem) == Packed(origin)) || (s.cfg == RUN_IMAGE && passes(Checked(s.mem))))
    }

    ghost predicate AlwaysSafe(origin: Memory)
      requires Layout(origin)
      reads this`mem, this`cfg, this`trace
    {
      Safe(Store(mem, cfg), origin) && forall k :: 0 <= k < |trace| ==> Safe(trace[k], origin)
    }

    lemma PackedStays(a: Memory, b: Memory)
      requires Layout(a) && Outside(a, b, imageAddr, imageSize)
      ensures Layout(b) && Packed(b) == Packed(a) && Stream(b) == Stream(a) && BodyLen(b) == BodyLen(a)
      ensures IsCompressed(b) == IsCompressed(a)
    {
      assert forall i :: packedAddr <= i < packedAddr + HEADER_SIZE ==> a[i] == b[i];
      assert BodyLen(b) == BodyLen(a);
      SliceStays(a, b, imageAddr, imageSize, packedAddr, PackedEnd(a));
      SliceStays(a, b, imageAddr, imageSize, packedAddr + HEADER_SIZE, PackedEnd(a));
    }

    // ----- the flash -----

    method Record()
      modifies this`trace
      ensures trace == old(trace) + [Store(mem, cfg)]
    {
      trace := trace + [Store(mem, cfg)];
    }

    method Fail()
      modifies this`errors
      ensures errors == old(errors) + 1
    {
      errors := errors + 1;
    }

    /** Any number of bytes up to the requested one may be read; zero is a failure. */
    method Read(addr: nat, size: nat) returns (data: seq<byte>)
      requires addr + size <= |mem| && size > 0
      modifies this`errors
      ensures |data| <= size && data == mem[addr..addr + |data|]
      ensures errors == old(errors) + if data == [] then 1 else 0
    {
      var len: int := *;
      if len < 0 || len > size {
        len := size;
      }
      data := mem[addr..addr + len];
      if len == 0 {
        errors := errors + 1;
      }
    }

    /** The next part of the compressed stream, at most a buffer full. */
    method ReadStream(offset: nat, left: nat) returns (data: seq<byte>)
      requires Layout(mem) && offset + left == BodyLen(mem) && left > 0
      modifies this`errors
      ensures |data| <= left && data == Stream(mem)[offset..offset + |data|]
      ensures errors == old(errors) + if data == [] then 1 else 0
    {
      var readSize := if left > IN_BUF_SIZE then IN_BUF_SIZE else left;
      data := Read(packedAddr + HEADER_SIZE + offset, readSize);
      SliceOfSlice(mem, packedAddr + HEADER_SIZE, PackedEnd(mem), offset, offset + |data|);
    }

    /** One sector goes through any contents on its way to the erased state. */
    method EraseSector(addr: nat, size: nat)
      requires addr + size <= |mem|
      modifies this`mem, this`trace
      ensures Outside(old(mem), mem, addr, size) && forall i :: addr <= i < addr + size ==> mem[i] == ERASED
      ensures Traced(old(trace), trace, old(mem), cfg, addr, size)
    {
      var junk: seq<byte> := *;
      if |junk| == size {
        mem := mem[..addr] + junk + mem[addr + size..];
      }
      Record();
      mem := mem[..addr] + seq(size, _ => ERASED) + mem[addr + size..];
      Record();
    }

    /** flash_erase, sector by sector; it may fail on the way. */
    method Erase(addr: nat, size: nat) returns (ok: bool)
      requires addr + size <= |mem|
      modifies this`mem, this`trace, this`errors
      ensures Outside(old(mem), mem, addr, size) && Traced(old(trace), trace, old(mem), cfg, addr, size)
      ensures errors == old(errors) + if ok then 0 else 1
      ensures ok ==> forall i :: addr <= i < addr + size ==> mem[i] == ERASED
    {
      ok := true;
      var done := 0;
      while done < size
        invariant done <= size && errors == old(errors)
        invariant Outside(old(mem), mem, addr, size) && Traced(old(trace), trace, old(mem), cfg, addr, size)
        invariant forall i :: addr <= i < addr + done ==> mem[i] == ERASED
        decreases size - done
      {
        var failed: bool := *;
        if failed {
          errors := errors + 1;
          return false;
        }
        var n := if size - done > SECTOR_SIZE then SECTOR_SIZE else size - done;
        ghost var m, t := mem, trace;
        EraseSector(addr + done, n);
        TracedGoesOn(old(trace), t, trace, old(mem), m, cfg, addr, size, addr + done, n);
        done := done + n;
      }
    }

    /** A byte can only be written where the flash is erased; elsewhere anything may result. */
    method WriteByte(addr: nat, b: byte)
      requires addr < |mem|
      modifies this`mem, this`trace
      ensures Outside(old(mem), mem, addr, 1) && (old(mem)[addr] == ERASED ==> mem[addr] == b)
      ensures Traced(old(trace), trace, old(mem), cfg, addr, 1)
    {
      var junk: int := *;
      mem := mem[addr := if mem[addr] == ERASED then b else if 0 <= junk < 256 then junk else 0];
      Record();
    }

    /** flash_write, byte by byte; it may stop early. */
    method Write(addr: nat, data: seq<byte>) returns (len: nat)
      requires addr + |data| <= |mem|
      modifies this`mem, this`trace, this`errors
      ensures Outside(old(mem), mem, addr, |data|) && Traced(old(trace), trace, old(mem), cfg, addr, |data|)
      ensures len <= |data| && errors == old(errors) + if len < |data| then 1 else 0
      ensures len == |data| ==> forall i :: 0 <= i < |data| && old(mem)[addr + i] == ERASED ==> mem[addr + i] == data[i]
    {
      len := 0;
      while len < |data|
        invariant len <= |data| && errors == old(errors)
        invariant Outside(old(mem), mem, addr, |data|) && Traced(old(trace), trace, old(mem), cfg, addr, |data|)
        invariant forall i :: 0 <= i < len && old(mem)[addr + i] == ERASED ==> mem[addr + i] == data[i]
        invariant Outside(old(mem), mem, addr, len)
        decreases |data| - len
      {
        var failed: bool := *;
        if failed {
          errors := errors + 1;
          return;
        }
        ghost var m, t := mem, trace;
        WriteByte(addr + len, data[len]);
        TracedGoesOn(old(trace), t, trace, old(mem), m, cfg, addr, |data|, addr + len, 1);
        len := len + 1;
      }
    }

    /** image_get_cfg: fails if there is no record or it cannot be read. */
    method GetConfig(unreadable: bool) returns (c: Option<Config>)
      modifies this`errors
      ensures c == if unreadable then None else cfg
      ensures errors == old(errors) + if unreadable then 1 else 0
    {
      if unreadable {
        errors := errors + 1;
        return None;
      }
      c := cfg;
    }

    /** image_set_cfg: the record is either the old or the new one, whatever is reported. */
    method SetConfig(c: Config, lost: bool, unreported: bool) returns (ok: bool)
      modifies this`cfg, this`trace, this`errors
      ensures ok <==> !lost && !unreported
      ensures errors == old(errors) + if ok then 0 else 1
      ensures cfg == if lost then old(cfg) else Some(c)
      ensures trace == old(trace) + [Store(mem, cfg)]
    {
      if !lost {
        cfg := Some(c);
      }
      Record();
      ok := !lost && !unreported;
      if !ok {
        errors := errors + 1;
      }
    }

    /** image_check_ota_sections: it never accepts what does not pass. */
    method CheckSections() returns (valid: bool)
      requires blSize <= imageAddr && imageAddr + imageSize <= |mem|
      modifies this`errors
      ensures valid ==> passes(Checked(mem)) && errors == old(errors)
      ensures !valid ==> errors > old(errors) || (errors == old(errors) && !passes(Checked(mem)))
    {
      var failed: bool := *;
      if failed {
        errors := errors + 1;
        return false;
      }
      valid := passes(Checked(mem));
    }
  }

  // ----- histories -----

  /** A history goes on with states that differ from a memory only inside an area, under the same boot record. */
  ghost predicate Traced(t: seq<Store>, u: seq<Store>, m: Memory, c: Option<Config>, addr: nat, size: nat) {
    && |t| <= |u| && u[..|t|] == t
    && forall k :: |t| <= k < |u| ==> u[k].cfg == c && Outside(m, u[k].mem, addr, size)
  }

  lemma TracedGoesOn(t: seq<Store>, u: seq<Store>, v: seq<Store>, a: Memory, b: Memory, c: Option<Config>,
                     addr: nat, size: nat, from: nat, n: nat)
    requires Traced(t, u, a, c, addr, size) && Outside(a, b, addr, size) && Traced(u, v, b, c, from, n)
    requires addr <= from && from + n <= addr + size
    ensures Traced(t, v, a, c, addr, size)
  {
    assert v[..|t|] == u[..|t|];
    forall k | |t| <= k < |v|
      ensures v[k].cfg == c && Outside(a, v[k].mem, addr, size)
    {
      if k < |u| {
        assert v[k] == v[..|u|][k] == u[k];
      }
    }
  }

  // ----- the decoder -----

  datatype XzResult = XzOk | XzStreamEnd | XzError

  /** The xz decoder on one stream, which may or may not be valid. It makes progress with every call that it calls
      fine, and on a valid stream it does not take the last byte while output is still due. */
  class XzDecoder {
    const stream: seq<byte>
    const result: Option<seq<byte>>   // what a valid stream expands to
    const limit: nat                  // no stream expands to more than this
    var fed: nat
    var out: seq<byte>

    predicate Valid()
      reads this
    {
      && fed <= |stream| && |out| <= limit
      && (result.Some? ==> |result.value| <= limit && fed < |stream|
                           && |out| <= |result.value| && result.value[..|out|] == out)
    }

    constructor (stream: seq<byte>, result: Option<seq<byte>>, limit: nat)
      requires result.Some? ==> stream != [] && |result.value| <= limit
      ensures Valid() && fed == 0 && out == []
      ensures this.stream == stream && this.result == result && this.limit == limit
    {
      this.stream, this.result, this.limit := stream, result, limit;
      fed, out := 0, [];
    }

    /** The input has to be the next part of the stream, and there must be room for output. */
    method Run(input: seq<byte>, room: nat) returns (ret: XzResult, consumed: nat, piece: seq<byte>)
      requires Valid() && room > 0 && input != []
      requires fed + |input| <= |stream| && stream[fed..fed + |input|] == input
      modifies this
      ensures consumed <= |input| && fed == old(fed) + consumed
      ensures |piece| <= room && out == old(out) + piece && |out| <= limit
      ensures ret.XzOk? ==> Valid() && consumed + |piece| > 0
      ensures result.Some? ==> !ret.XzError? && (ret.XzStreamEnd? ==> out == result.value)
    {
      var c: int, p: int, end: bool := *, *, *;
      c := if c < 0 || c > |input| then |input| else c;
      var due := if result.Some? then result.value[|out|..] else [];
      if result.None? {
        due := *;
        if |due| > limit - |out| {
          due := due[..limit - |out|];
        }
      }
      p := if p < 0 || p > |due| then |due| else p;
      p := if p > room then room else p;
      if p == |due| && (end || fed + c == |stream|) {
        ret := XzStreamEnd;
      } else {
        ret := XzOk;
        if fed + c == |stream| {
          c := c - 1;
        }
        if c == 0 && p == 0 {
          if due != [] {
            p := 1;
          } else if fed + 1 < |stream| {
            c := 1;
          } else {
            ret := XzStreamEnd;
          }
        }
      }
      if result.None? && (end || ret.XzStreamEnd?) {
        ret := XzError;
      }
      consumed, piece := c, due[..p];
      fed, out := fed + c, out + piece;
    }
  }

  // ----- unpacking the image -----

  /** The memory with the image area holding some bytes and erased behind them. */
  ghost function Updated(m: Memory, addr: nat, size: nat, data: seq<byte>): Memory
    requires addr + size <= |m| && |data| <= size
  {
    m[..addr] + data + seq(size - |data|, _ => ERASED) + m[addr + size..]
  }

  lemma HeldIsUpdated(a: Memory, b: Memory, addr: nat, size: nat, data: seq<byte>)
    requires addr + size <= |a| && Outside(a, b, addr, size) && Holds(b, addr, size, data)
    ensures b == Updated(a, addr, size, data)
  {
    var u := Updated(a, addr, size, data);
    forall i | 0 <= i < |b|
      ensures b[i] == u[i]
    {
      if addr <= i < addr + |data| {
        assert b[addr + (i - addr)] == data[i - addr];
      }
    }
  }

  /** Updating again from any state that an interrupted update has left gives what an uninterrupted one gives. */
  lemma UpdateStartsOver(a: Memory, b: Memory, addr: nat, size: nat, data: seq<byte>)
    requires addr + size <= |a| && Outside(a, b, addr, size) && |data| <= size
    ensures Updated(a, addr, size, data) == Updated(b, addr, size, data)
  {
    assert a[..addr] == b[..addr];
    assert a[addr + size..] == b[addr + size..];
  }

  /** Writes what the decoder has put out behind what is there. */
  method WriteOut(dev: Device, pos: nat, piece: seq<byte>, ghost out: seq<byte>,
                  ghost start: Memory, ghost before: seq<Store>) returns (ok: bool)
    requires dev.imageAddr + dev.imageSize <= |dev.mem| && pos == |out| && pos + |piece| <= dev.imageSize
    requires Holds(dev.mem, dev.imageAddr, dev.imageSize, out)
    requires Outside(start, dev.mem, dev.imageAddr, dev.imageSize)
    requires Traced(before, dev.trace, start, dev.cfg, dev.imageAddr, dev.imageSize)
    modifies dev`mem, dev`trace, dev`errors
    ensures Outside(start, dev.mem, dev.imageAddr, dev.imageSize)
    ensures Traced(before, dev.trace, start, dev.cfg, dev.imageAddr, dev.imageSize)
    ensures dev.errors == old(dev.errors) + if ok then 0 else 1
    ensures ok ==> Holds(dev.mem, dev.imageAddr, dev.imageSize, out + piece)
  {
    ghost var m, t := dev.mem, dev.trace;
    var len := dev.Write(dev.imageAddr + pos, piece);
    TracedGoesOn(before, t, dev.trace, start, m, dev.cfg, dev.imageAddr, dev.imageSize, dev.imageAddr + pos, |piece|);
    ok := len == |piece|;
    if ok {
      WriteAppends(m, dev.mem, dev.imageAddr, dev.imageSize, out, piece);
    }
  }

  lemma NothingChanged(m: Memory, addr: nat, size: nat)
    ensures Outside(m, m, addr, size)
  {}

  lemma NothingTraced(t: seq<Store>, m: Memory, c: Option<Config>, addr: nat, size: nat)
    ensures Traced(t, t, m, c, addr, size)
  {}

  lemma OutsideGoesOn(a: Memory, b: Memory, c: Memory, addr: nat, size: nat)
    requires Outside(a, b, addr, size) && Outside(b, c, addr, size)
    ensures Outside(a, c, addr, size)
  {}

  /** The unpacking loop of bl_xz_image: whatever the reads and the decoder deliver at a time, a loop without
      failures leaves exactly what the stream expands to. */
  method Unpack(dev: Device, dec: XzDecoder)
    requires dev.Layout(dev.mem) && Holds(dev.mem, dev.imageAddr, dev.imageSize, [])
    requires dec.Valid() && dec.fed == 0 && dec.out == []
    requires dec.stream == dev.Stream(dev.mem) && dec.limit == dev.imageSize
    modifies dev`mem, dev`trace, dev`errors, dec
    ensures Outside(old(dev.mem), dev.mem, dev.imageAddr, dev.imageSize)
    ensures Traced(old(dev.trace), dev.trace, old(dev.mem), dev.cfg, dev.imageAddr, dev.imageSize)
    ensures dev.errors >= old(dev.errors)
    ensures dev.errors == old(dev.errors) && dec.result.Some?
        ==> Holds(dev.mem, dev.imageAddr, dev.imageSize, dec.result.value)
  {
    var writePos: nat, offset: nat, left: nat := 0, 0, dev.BodyLen(dev.mem);
    var inBuf: seq<byte>, inPos: nat := [], 0;
    NothingChanged(dev.mem, dev.imageAddr, dev.imageSize);
    NothingTraced(dev.trace, dev.mem, dev.cfg, dev.imageAddr, dev.imageSize);
    hide Outside, Holds, Traced, Updated;
    while true
      invariant dec.Valid() && dec.stream == dev.Stream(old(dev.mem)) && offset + left == |dec.stream|
      invariant inPos <= |inBuf| <= offset && dec.fed == offset - |inBuf| + inPos
      invariant inBuf == dec.stream[offset - |inBuf|..offset]
      invariant Outside(old(dev.mem), dev.mem, dev.imageAddr, dev.imageSize)
      invariant Traced(old(dev.trace), dev.trace, old(dev.mem), dev.cfg, dev.imageAddr, dev.imageSize)
      invariant dev.errors == old(dev.errors)
      invariant writePos == |dec.out| && Holds(dev.mem, dev.imageAddr, dev.imageSize, dec.out)
      decreases |dec.stream| - dec.fed + dec.limit - |dec.out|
    {
      dev.PackedStays(old(dev.mem), dev.mem);
      if inPos == |inBuf| {
        if left == 0 {
          break;
        }
        inBuf := dev.ReadStream(offset, left);
        if inBuf == [] {
          break;
        }
        offset, left, inPos := offset + |inBuf|, left - |inBuf|, 0;
      }
      assert inBuf[inPos..] == dec.stream[dec.fed..dec.fed + |inBuf[inPos..]|];
      ghost var out := dec.out;
      var ret, consumed, piece := dec.Run(inBuf[inPos..], OUT_BUF_SIZE);
      inPos := inPos + consumed;
      if ret == XzError {
        break;
      }
      var ok := WriteOut(dev, writePos, piece, out, old(dev.mem), old(dev.trace));
      if !ok || ret == XzStreamEnd {
        break;
      }
      writePos := writePos + |piece|;
    }
  }

  // ----- the update -----

  /** The states of an update that has not come to the boot record are safe. */
  lemma StillSafe(dev: Device, t: seq<Store>, u: seq<Store>, m: Memory, now: Memory, origin: Memory)
    requires dev.Layout(origin) && Outside(origin, m, dev.imageAddr, dev.imageSize)
    requires Traced(t, u, m, UNPACK_FIRST, dev.imageAddr, dev.imageSize)
    requires Outside(m, now, dev.imageAddr, dev.imageSize)
    requires forall k :: 0 <= k < |t| ==> dev.Safe(t[k], origin)
    ensures forall k :: 0 <= k < |u| ==> dev.Safe(u[k], origin)
    ensures dev.Safe(Store(now, UNPACK_FIRST), origin)
  {
    forall k | 0 <= k < |u|
      ensures dev.Safe(u[k], origin)
    {
      if k < |t| {
        assert u[k] == u[..|t|][k] == t[k];
      } else {
        SafeUnpacking(dev, m, u[k].mem, origin);
        assert u[k] == Store(u[k].mem, UNPACK_FIRST);
      }
    }
    SafeUnpacking(dev, m, now, origin);
  }

  lemma SafeUnpacking(dev: Device, m: Memory, now: Memory, origin: Memory)
    requires dev.Layout(origin) && Outside(origin, m, dev.imageAddr, dev.imageSize)
    requires Outside(m, now, dev.imageAddr, dev.imageSize)
    ensures dev.Safe(Store(now, UNPACK_FIRST), origin)
  {
    OutsideGoesOn(origin, m, now, dev.imageAddr, dev.imageSize);
    dev.PackedStays(origin, now);
  }

  /** A decompression that the image area can take. */
  ghost predicate Fits(dev: Device, m: Memory, unpack: seq<byte> -> Option<seq<byte>>)
    requires dev.Layout(m)
  {
    var r := unpack(dev.Stream(m));
    r.Some? ==> dev.Stream(m) != [] && |r.value| <= dev.imageSize
  }

  /** What an undisturbed update makes of a memory, if the stream is valid. */
  ghost function Goal(dev: Device, m: Memory, unpack: seq<byte> -> Option<seq<byte>>): (r: Option<Memory>)
    requires dev.Layout(m) && Fits(dev, m, unpack)
    ensures r.Some? ==> dev.imageAddr + dev.imageSize <= |r.value|
  {
    var r := unpack(dev.Stream(m));
    if r.None? then None else Some(Updated(m, dev.imageAddr, dev.imageSize, r.value))
  }

  /** Byte for byte: the length of the stream stands at 24 in the header, the stream behind the header's 64 bytes, and
      what it decodes to goes to the image area, with 0xFF behind it. */
  lemma GoalByBytes(dev: Device, m: Memory, unpack: seq<byte> -> Option<seq<byte>>, i: nat)
    requires dev.Layout(m) && Fits(dev, m, unpack) && i < |m|
    ensures var p := dev.packedAddr;
            var a: int, b: int, c: int, d: int := m[p + 24], m[p + 25], m[p + 26], m[p + 27];
            var n := a + 256 * (b + 256 * (c + 256 * d));
            && p + 64 + n <= |m| && (dev.IsCompressed(m) <==> m[p + 28] / 16 % 2 == 1)
            && var r, goal := unpack(m[p + 64..p + 64 + n]), Goal(dev, m, unpack);
               && (r.None? <==> goal.None?)
               && (r.Some? ==>
                     && |goal.value| == |m|
                     && goal.value[i] == (if i < dev.imageAddr || i >= dev.imageAddr + dev.imageSize then m[i]
                                          else if i - dev.imageAddr < |r.value| then r.value[i - dev.imageAddr]
                                          else 255))
  {}

  /** Erases the image area and fills it from the stream. */
  method Rewrite(dev: Device, unpack: seq<byte> -> Option<seq<byte>>) returns (ok: bool)
    requires dev.Layout(dev.mem) && Fits(dev, dev.mem, unpack)
    modifies dev`mem, dev`trace, dev`errors
    ensures Outside(old(dev.mem), dev.mem, dev.imageAddr, dev.imageSize)
    ensures Traced(old(dev.trace), dev.trace, old(dev.mem), dev.cfg, dev.imageAddr, dev.imageSize)
    ensures dev.errors >= old(dev.errors) && (!ok ==> dev.errors > old(dev.errors))
    ensures dev.errors == old(dev.errors)
        ==> var goal := Goal(dev, old(dev.mem), unpack); goal.Some? ==> dev.mem == goal.value
  {
    ok := dev.Erase(dev.imageAddr, dev.imageSize);
    if !ok {
      return;
    }
    ghost var m, t := dev.mem, dev.trace;
    dev.PackedStays(old(dev.mem), m);
    var stream := dev.Stream(dev.mem);
    var dec := new XzDecoder(stream, unpack(stream), dev.imageSize);
    hide Outside, Traced, Updated;
    assert Holds(dev.mem, dev.imageAddr, dev.imageSize, []);
    Unpack(dev, dec);
    TracedGoesOn(old(dev.trace), t, dev.trace, old(dev.mem), m, dev.cfg, dev.imageAddr, dev.imageSize,
                 dev.imageAddr, dev.imageSize);
    OutsideGoesOn(old(dev.mem), m, dev.mem, dev.imageAddr, dev.imageSize);
    if dev.errors == old(dev.errors) && dec.result.Some? {
      HeldIsUpdated(old(dev.mem), dev.mem, dev.imageAddr, dev.imageSize, dec.result.value);
    }
  }

  const NOT_COMPRESSED: int := -2

  /** bl_xz_image. Every state on the way is safe, and success means that the new image has passed its check. */
  method XzImage(dev: Device, unpack: seq<byte> -> Option<seq<byte>>, noHeader: bool, ghost origin: Memory)
    returns (ret: int)
    requires dev.Layout(dev.mem) && Fits(dev, dev.mem, unpack) && dev.cfg == UNPACK_FIRST
    requires dev.Layout(origin) && dev.AlwaysSafe(origin)
    modifies dev`mem, dev`cfg, dev`trace, dev`errors
    ensures ret == 0 || ret == -1 || ret == NOT_COMPRESSED
    ensures dev.AlwaysSafe(origin) && dev.errors >= old(dev.errors)
    ensures Outside(old(dev.mem), dev.mem, dev.imageAddr, dev.imageSize)
    ensures noHeader ==> ret == -1 && dev.errors > old(dev.errors)
    ensures ret == 0 ==> dev.cfg == RUN_IMAGE && dev.IsCompressed(old(dev.mem))
    ensures ret == NOT_COMPRESSED <==> !noHeader && !dev.IsCompressed(old(dev.mem))
    ensures ret == NOT_COMPRESSED ==> dev.mem == old(dev.mem) && dev.cfg == old(dev.cfg)
    ensures dev.errors == old(dev.errors) && dev.IsCompressed(old(dev.mem))
        ==> var goal := Goal(dev, old(dev.mem), unpack);
            goal.Some? ==> dev.mem == goal.value && (ret == 0 <==> dev.passes(dev.Checked(goal.value)))
  {
    ghost var start, t := dev.mem, dev.trace;
    NothingChanged(start, dev.imageAddr, dev.imageSize);
    ret := -1;
    if noHeader {
      dev.Fail();
      return;
    }
    if !dev.IsCompressed(dev.mem) {
      ret := NOT_COMPRESSED;
      return;
    }
    // the decoder may lack memory, and the header of the boot section may be unreadable
    var ready: bool := *;
    if !ready {
      dev.Fail();
      return;
    }
    hide Outside, Traced, Updated, Goal, Fits;
    var ok := Rewrite(dev, unpack);
    StillSafe(dev, t, dev.trace, start, dev.mem, origin);
    if !ok {
      return;
    }
    var valid := dev.CheckSections();
    if !valid {
      return;
    }
    var lost: bool, unreported: bool := *, *;
    ok := dev.SetConfig(Config(0, true), lost, unreported);
    if ok {
      ret := 0;
    }
  }

  // ----- booting -----

  const IMAGE_SEQ_NUM: nat := 2

  /** What goes wrong in a boot: the image module does not start, the boot record or the header of the compressed
      image cannot be read, the application of a sequence cannot be read, the last write of the boot record is
      lost or not reported as done. */
  datatype Faults = Faults(init: bool, record: bool, header: bool, load0: bool, load1: bool, lost: bool,
                           unreported: bool)

  datatype Uncompressed = Entry(cfgSeq: nat, loadSeq: nat) | InvalidEntry | InvalidUnzip

  /** Everything on the device is as an update needs or leaves it. */
  ghost predicate Sound(dev: Device, origin: Memory)
    reads dev`mem, dev`cfg, dev`trace
  {
    dev.Layout(origin) && dev.AlwaysSafe(origin)
  }

  /** bl_uncompress_image with OTA enabled and compressed images in use: unpacks if the boot record says so. */
  method UncompressImage(dev: Device, unpack: seq<byte> -> Option<seq<byte>>, f: Faults, ghost origin: Memory)
    returns (r: Uncompressed)
    requires Sound(dev, origin) && Fits(dev, dev.mem, unpack)
    modifies dev`mem, dev`cfg, dev`trace, dev`errors
    ensures Sound(dev, origin) && dev.errors >= old(dev.errors)
    ensures Outside(old(dev.mem), dev.mem, dev.imageAddr, dev.imageSize)
    ensures dev.errors == old(dev.errors) ==> !f.init && !f.record
    ensures f.init ==> r == InvalidEntry
    ensures !f.init && f.record ==> r == Entry(IMAGE_SEQ_NUM, 0)
    ensures !f.init && !f.record && old(dev.cfg) == RUN_IMAGE ==> r == Entry(0, 0)
    ensures !f.init && !f.record && old(dev.cfg) == UNPACK_FIRST
        ==> if f.header then r == InvalidUnzip
            else if !dev.IsCompressed(old(dev.mem)) then r == Entry(1, 1)
            else r == InvalidUnzip || (r == Entry(1, 0) && dev.cfg == RUN_IMAGE)
    ensures f.init || f.record || old(dev.cfg) == RUN_IMAGE || !dev.IsCompressed(old(dev.mem))
        ==> r == InvalidUnzip || (dev.mem == old(dev.mem) && dev.cfg == old(dev.cfg))
    ensures dev.errors == old(dev.errors) && old(dev.cfg) == UNPACK_FIRST && dev.IsCompressed(old(dev.mem))
        ==> var goal := Goal(dev, old(dev.mem), unpack);
            goal.Some? && dev.passes(dev.Checked(goal.value))
            ==> r == Entry(1, 0) && dev.mem == goal.value && dev.cfg == RUN_IMAGE
  {
    NothingChanged(dev.mem, dev.imageAddr, dev.imageSize);
    if f.init {
      dev.Fail();
      return InvalidEntry;
    }
    var cfg := dev.GetConfig(f.record);
    var cfgSeq := if cfg.Some? && cfg.value.verified then cfg.value.seqno else IMAGE_SEQ_NUM;
    var loadSeq := if cfgSeq == IMAGE_SEQ_NUM then 0 else cfgSeq;
    if cfgSeq == 1 {
      ghost var m := dev.mem;
      hide Updated, Goal, Outside, Fits;
      var ret := XzImage(dev, unpack, f.header, origin);
      dev.PackedStays(m, dev.mem);
      if ret == 0 {
        loadSeq := 0;
      } else if ret != NOT_COMPRESSED {
        return InvalidUnzip;
      }
    }
    r := Entry(cfgSeq, loadSeq);
  }

  /** Whether the application of a sequence can be loaded. */
  predicate Loadable(m: Memory, seqno: nat, loads: (Memory, nat) -> bool, f: Faults) {
    loads(m, seqno) && !(if seqno == 0 then f.load0 else f.load1)
  }

  function FirstLoadable(m: Memory, seqno: nat, loads: (Memory, nat) -> bool, f: Faults): Option<nat> {
    var other := (seqno + 1) % IMAGE_SEQ_NUM;
    if Loadable(m, seqno, loads, f) then Some(seqno) else if Loadable(m, other, loads, f) then Some(other) else None
  }

  /** bl_load_bin: boots the first sequence that can be loaded, and makes the boot record say so. */
  method LoadBin(dev: Device, cfgSeq: nat, firstSeq: nat, loads: (Memory, nat) -> bool, f: Faults)
    returns (booted: Option<nat>)
    requires firstSeq < IMAGE_SEQ_NUM
    modifies dev`cfg, dev`trace, dev`errors
    ensures booted == FirstLoadable(dev.mem, firstSeq, loads, f)
    ensures booted.Some? <==> EitherLoadable(dev.mem, loads, f)
    ensures booted.Some? ==> booted.value < 2 && Loadable(dev.mem, booted.value, loads, f)
    ensures booted.Some? && booted.value != firstSeq ==> !Loadable(dev.mem, firstSeq, loads, f)
    ensures dev.errors >= old(dev.errors)
    ensures booted.None? || booted.value == cfgSeq ==> dev.cfg == old(dev.cfg) && dev.trace == old(dev.trace)
    ensures booted.Some? && booted.value != cfgSeq
        ==> dev.cfg == (if f.lost then old(dev.cfg) else Some(Config(booted.value, true)))
            && dev.trace == old(dev.trace) + [Store(dev.mem, dev.cfg)]
            && (dev.errors == old(dev.errors) ==> !f.lost)
    ensures dev.errors == old(dev.errors) && loads(dev.mem, firstSeq) ==> booted == Some(firstSeq)
  {
    var loadSeq := firstSeq;
    for i := 0 to IMAGE_SEQ_NUM
      invariant loadSeq == (firstSeq + i) % IMAGE_SEQ_NUM && dev.errors >= old(dev.errors)
      invariant dev.cfg == old(dev.cfg) && dev.trace == old(dev.trace)
      invariant i >= 1 ==> !Loadable(dev.mem, firstSeq, loads, f)
      invariant i >= 1 && loads(dev.mem, firstSeq) ==> dev.errors > old(dev.errors)
      invariant i >= 2 ==> !Loadable(dev.mem, (firstSeq + 1) % IMAGE_SEQ_NUM, loads, f)
    {
      var unreadable := if loadSeq == 0 then f.load0 else f.load1;
      if unreadable {
        dev.Fail();
      } else if loads(dev.mem, loadSeq) {
        if loadSeq != cfgSeq {
          var _ := dev.SetConfig(Config(loadSeq, true), f.lost, f.unreported);
        }
        return Some(loadSeq);
      }
      loadSeq := (loadSeq + 1) % IMAGE_SEQ_NUM;
    }
    booted := None;
  }

  predicate EitherLoadable(m: Memory, loads: (Memory, nat) -> bool, f: Faults) {
    Loadable(m, 0, loads, f) || Loadable(m, 1, loads, f)
  }

  /** The boot record asks for the compressed image to be unpacked, or names no image at all. */
  ghost predicate Unpacks(dev: Device, f: Faults)
    requires dev.packedAddr + HEADER_SIZE <= |dev.mem|
    reads dev`cfg, dev`mem
  {
    !f.record && dev.cfg != RUN_IMAGE && (dev.cfg == UNPACK_FIRST && !f.header ==> dev.IsCompressed(dev.mem))
  }

  /** A boot that makes the record name an image which does not pass its check: sequence 0 is booted although the
      record could not be read, or in place of an image behind the record that is not compressed. */
  ghost predicate LosesUpdate(dev: Device, m: Memory, cfg: Option<Config>, loads: (Memory, nat) -> bool, f: Faults)
    requires dev.Layout(m)
  {
    && !f.init && !f.lost && !dev.passes(dev.Checked(m))
    && (f.record || (cfg == UNPACK_FIRST && !f.header && !dev.IsCompressed(m)))
    && FirstLoadable(m, if f.record then 0 else 1, loads, f) == Some(0)
  }

  /** One boot. Every state that a loss of power could leave is safe, exactly unless the boot loses the update. */
  method Boot(dev: Device, unpack: seq<byte> -> Option<seq<byte>>, loads: (Memory, nat) -> bool, f: Faults,
              ghost origin: Memory)
    returns (booted: Option<nat>)
    requires Sound(dev, origin) && Fits(dev, dev.mem, unpack)
    modifies dev`mem, dev`cfg, dev`trace, dev`errors
    ensures Sound(dev, origin) <==> !LosesUpdate(dev, old(dev.mem), old(dev.cfg), loads, f)
    ensures LosesUpdate(dev, old(dev.mem), old(dev.cfg), loads, f)
        ==> booted == Some(0) && dev.cfg == RUN_IMAGE && dev.mem == old(dev.mem)
    ensures old(Unpacks(dev, f)) || f.init || (booted.Some? <==> EitherLoadable(old(dev.mem), loads, f))
    ensures dev.errors == old(dev.errors) && dev.IsCompressed(old(dev.mem)) ==> Sound(dev, origin)
    ensures dev.errors >= old(dev.errors) && Outside(old(dev.mem), dev.mem, dev.imageAddr, dev.imageSize)
    ensures dev.errors == old(dev.errors) && old(dev.cfg) == RUN_IMAGE ==> dev.mem == old(dev.mem)
    ensures dev.errors == old(dev.errors) && old(dev.cfg) == UNPACK_FIRST && dev.IsCompressed(old(dev.mem))
        ==> var goal := Goal(dev, old(dev.mem), unpack);
            goal.Some? && dev.passes(dev.Checked(goal.value))
            ==> dev.mem == goal.value && (loads(goal.value, 0) ==> booted == Some(0) && dev.cfg == RUN_IMAGE)
  {
    ghost var m := dev.mem;
    ghost var unpacks := Unpacks(dev, f);
    var r := UncompressImage(dev, unpack, f, origin);
    assert unpacks || f.init || (r.Entry? && dev.mem == m);
    booted := None;
    hide Updated, Goal, Outside, Fits, FirstLoadable, Loadable, EitherLoadable, Unpacks;
    if r.Entry? {
      booted := LoadBin(dev, r.cfgSeq, r.loadSeq, loads, f);
    }
  }

  /** Every boot is safe, whatever goes wrong and in whatever state the image area is, if and only if sequence 0
      can only be loaded from an image that passes the section check. */
  lemma SafeLoaders(dev: Device, loads: (Memory, nat) -> bool)
    ensures (forall m, cfg, f :: dev.Layout(m) ==> !LosesUpdate(dev, m, cfg, loads, f))
       <==> (forall m :: dev.Layout(m) && loads(m, 0) ==> dev.passes(dev.Checked(m)))
  {
    var f := Faults(false, true, false, false, false, false, false);
    if m :| dev.Layout(m) && loads(m, 0) && !dev.passes(dev.Checked(m)) {
      assert LosesUpdate(dev, m, UNPACK_FIRST, loads, f);
    }
  }

  /** An update that is lost: half of the image is written, its beginning can be loaded, and the record cannot be
      read. Afterwards the record names the half image. */
  method LoseUpdate() returns (dev: Device, ghost origin: Memory)
    ensures dev.Layout(origin) && dev.Safe(Store(origin, UNPACK_FIRST), origin)
    ensures dev.cfg == RUN_IMAGE && dev.mem == origin && !dev.passes(dev.Checked(dev.mem)) && !Sound(dev, origin)
  {
    var header: seq<byte> := seq(HEADER_SIZE, i => if i == 28 then 16 else 0);
    var mem: Memory := header + [1, 0];
    dev := new Device(mem, UNPACK_FIRST, HEADER_SIZE, 2, 0, 0, s => s == [1, 1]);
    origin := mem;
    NothingChanged(mem, HEADER_SIZE, 2);
    assert dev.BodyLen(mem) == 0 && dev.IsCompressed(mem);
    assert dev.Checked(mem) == [1, 0];
    var loads := (m: Memory, n: nat) => n == 0 && |m| > HEADER_SIZE && m[HEADER_SIZE] == 1;
    var booted := Boot(dev, _ => None, loads, Faults(false, true, false, false, false, false, false), origin);
  }

  /** The same without any failure: the image behind the record is not compressed and cannot be loaded where it
      lies, and so the record is made to name the image that does not pass its check. */
  method LoseUncompressed() returns (dev: Device, ghost origin: Memory)
    ensures dev.Layout(origin) && !dev.IsCompressed(origin) && dev.Safe(Store(origin, UNPACK_FIRST), origin)
    ensures dev.cfg == RUN_IMAGE && dev.mem == origin && !dev.passes(dev.Checked(dev.mem)) && !Sound(dev, origin)
  {
    var header: seq<byte> := seq(HEADER_SIZE, _ => 0);
    var mem: Memory := header + [1, 0];
    dev := new Device(mem, UNPACK_FIRST, HEADER_SIZE, 2, 0, 0, s => s == [1, 1]);
    origin := mem;
    NothingChanged(mem, HEADER_SIZE, 2);
    assert dev.BodyLen(mem) == 0 && !dev.IsCompressed(mem);
    assert dev.Checked(mem) == [1, 0];
    var loads := (m: Memory, n: nat) => n == 0 && |m| > HEADER_SIZE && m[HEADER_SIZE] == 1;
    var booted := Boot(dev, _ => None, loads, Faults(false, false, false, false, false, false, false), origin);
  }

  /** A loss of power at any point, and then an undisturbed boot: the device ends as if nothing had happened,
      provided that the stream is valid and its image passes the check. */
  method PowerLossAndBoot(dev: Device, lost: Store, unpack: seq<byte> -> Option<seq<byte>>,
                          loads: (Memory, nat) -> bool, f: Faults, ghost origin: Memory)
    returns (again: Device, booted: Option<nat>)
    requires Sound(dev, origin) && lost in dev.trace && dev.IsCompressed(origin) && Fits(dev, origin, unpack)
    ensures again.errors == 0 ==> Sound(again, origin)
    ensures again.errors == 0 && lost.cfg == UNPACK_FIRST
        ==> var goal := Goal(dev, origin, unpack);
            goal.Some? && dev.passes(dev.Checked(goal.value)) ==> again.mem == goal.value
    ensures again.errors == 0 && lost.cfg == RUN_IMAGE ==> again.mem == lost.mem && dev.passes(dev.Checked(again.mem))
  {
    again := new Device(lost.mem, lost.cfg, dev.imageAddr, dev.imageSize, dev.blSize, dev.packedAddr, dev.passes);
    assert dev.Safe(lost, origin);
    SameDevice(dev, again, lost, origin, unpack);
    hide *;
    booted := Boot(again, unpack, loads, f, origin);
  }

  lemma SameDevice(dev: Device, again: Device, lost: Store, origin: Memory, unpack: seq<byte> -> Option<seq<byte>>)
    requires again.imageAddr == dev.imageAddr && again.imageSize == dev.imageSize && again.blSize == dev.blSize
    requires again.packedAddr == dev.packedAddr && again.passes == dev.passes
    requires again.mem == lost.mem && again.cfg == lost.cfg && again.trace == [lost]
    requires dev.Layout(origin) && dev.IsCompressed(origin) && Fits(dev, origin, unpack) && dev.Safe(lost, origin)
    ensures Sound(again, origin) && Fits(again, lost.mem, unpack) && again.IsCompressed(lost.mem)
    ensures Goal(again, lost.mem, unpack) == Goal(dev, origin, unpack)
    ensures lost.cfg == RUN_IMAGE ==> dev.passes(dev.Checked(lost.mem))
    ensures dev.imageAddr + dev.imageSize <= |lost.mem| && dev.blSize <= dev.imageAddr
    ensures forall m :: dev.blSize <= dev.imageAddr && dev.imageAddr + dev.imageSize <= |m| ==>
      dev.Checked(m) == again.Checked(m)
  {
    dev.PackedStays(origin, lost.mem);
    var r := unpack(dev.Stream(origin));
    if r.Some? {
      UpdateStartsOver(origin, lost.mem, dev.imageAddr, dev.imageSize, r.value);
    }
  }
}