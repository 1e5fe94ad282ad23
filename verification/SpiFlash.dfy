/** Writing and reading a serial flash whose page program wraps within a page and can only clear bits. */
module SpiFlash {
  import opened BitString

  const PAGE := 0x100
  const SIZE := 0x100_0000

  const WRITE: byte := 0x02
  const READ: byte := 0x03
  const RDSR: byte := 0x05
  const WREN: byte := 0x06
  const DUMMY: byte := 0xA5

  // ---- Contents: programming clears the bits that are clear in the data, and sets none ----

  function ByteAfter(mem: seq<byte>, addr: nat, data: seq<byte>, a: nat): byte
    requires a < |mem|
  {
    if addr <= a < addr + |data| then And(mem[a], data[a - addr]) else mem[a]
  }

  /** Contents after each data byte is programmed once, at its own address. */
  function Overlay(mem: seq<byte>, addr: nat, data: seq<byte>): (m: seq<byte>)
    ensures |m| == |mem|
  {
    seq(|mem|, a requires 0 <= a < |mem| => ByteAfter(mem, addr, data, a))
  }

  /** Where the `i`-th byte of a page program goes: the address wraps within its page. */
  function InPage(addr: nat, i: nat): (a: nat)
    ensures a / PAGE == addr / PAGE
  {
    addr / PAGE * PAGE + (addr % PAGE + i) % PAGE
  }

  /** What the device does with the data of one page program. */
  function Program(mem: seq<byte>, addr: nat, data: seq<byte>): (m: seq<byte>)
    requires |mem| == SIZE && addr < SIZE
    ensures |m| == SIZE
  {
    if data == [] then mem
    else
      var n := |data| - 1;
      var m := Program(mem, addr, data[..n]);
      var a := InPage(addr, n);
      m[a := And(m[a], data[n])]
  }

  lemma {:induction false} ProgramInPage(mem: seq<byte>, addr: nat, data: seq<byte>)
    requires |mem| == SIZE && addr < SIZE && addr % PAGE + |data| <= PAGE
    ensures Program(mem, addr, data) == Overlay(mem, addr, data)
    decreases |data|
  {
    hide And;
    if data != [] {
      var n := |data| - 1;
      ProgramInPage(mem, addr, data[..n]);
      InsidePage(addr, n);
      hide InPage;
      var m := Overlay(mem, addr, data[..n]);
      assert m[addr + n] == mem[addr + n];
      assert m[addr + n := And(m[addr + n], data[n])] == Overlay(mem, addr, data);
    } else {
      assert Overlay(mem, addr, data) == mem;
    }
  }

  lemma InsidePage(addr: nat, n: nat)
    requires addr % PAGE + n < PAGE
    ensures InPage(addr, n) == addr + n
  {
  }

  lemma ProgramNothing(mem: seq<byte>, addr: nat)
    requires |mem| == SIZE && addr < SIZE
    ensures Program(mem, addr, []) == mem
  {
  }

  lemma OverlayNothing(mem: seq<byte>, addr: nat)
    ensures Overlay(mem, addr, []) == mem
  {
  }

  lemma OverlayNext(mem: seq<byte>, addr: nat, x: seq<byte>, y: seq<byte>)
    ensures Overlay(Overlay(mem, addr, x), addr + |x|, y) == Overlay(mem, addr, x + y)
  {
    hide And;
  }

  /** The range has every bit the data needs. */
  ghost predicate Holds(mem: seq<byte>, addr: nat, data: seq<byte>)
    requires addr + |data| <= |mem|
  {
    forall i, b: nat | 0 <= i < |data| :: Digit(data[i], b) ==> Digit(mem[addr + i], b)
  }

  predicate Erased(mem: seq<byte>, addr: nat, n: nat)
    requires addr + n <= |mem|
  {
    forall a | addr <= a < addr + n :: mem[a] == 0xFF
  }

  /** A range reads back as written exactly when it had every bit the data needs; the rest stays as it was. */
  lemma OverlayReads(mem: seq<byte>, addr: nat, data: seq<byte>)
    requires addr + |data| <= |mem|
    ensures Overlay(mem, addr, data)[addr..addr + |data|] == data <==> Holds(mem, addr, data)
    ensures Overlay(mem, addr, data)[..addr] == mem[..addr]
    ensures Overlay(mem, addr, data)[addr + |data|..] == mem[addr + |data|..]
  {
    hide And, Digit;
    var m := Overlay(mem, addr, data);
    forall i | 0 <= i < |data|
      ensures m[addr..addr + |data|][i] == data[i]
         <==> forall b: nat :: Digit(data[i], b) ==> Digit(mem[addr + i], b)
    {
      AndKeepsIff(mem[addr + i], data[i]);
    }
    if Holds(mem, addr, data) {
      forall i | 0 <= i < |data| ensures m[addr..addr + |data|][i] == data[i] {
        forall b: nat ensures Digit(data[i], b) ==> Digit(mem[addr + i], b) {}
      }
    }
  }

  lemma ErasedHolds(mem: seq<byte>, addr: nat, data: seq<byte>)
    requires addr + |data| <= |mem| && Erased(mem, addr, |data|)
    ensures Holds(mem, addr, data)
  {
    hide And, Digit;
    forall i, b: nat | 0 <= i < |data| ensures Digit(data[i], b) ==> Digit(mem[addr + i], b) {
      var a := addr + i;
      assert mem[a] == 0xFF == Pow2(8) - 1;
      AndOnes(8, data[i]);
      AndDigits(0xFF, data[i], b);
    }
  }

  // ---- Page programs issued ----

  datatype Span = Span(start: nat, len: nat)

  /** A program command with data; one without does nothing. */
  function Issue(start: nat, len: nat): seq<Span> { if len == 0 then [] else [Span(start, len)] }

  /** The contents, and the page programs issued so far. */
  datatype Written = Written(mem: seq<byte>, issued: seq<Span>)

  /** The spans follow one another without gap or overlap from `lo` to `hi`, each inside one page. */
  ghost predicate Tiles(spans: seq<Span>, lo: nat, hi: nat) {
    if spans == [] then lo == hi
    else
      var s := spans[|spans| - 1];
      s.start % PAGE + s.len <= PAGE && s.start + s.len == hi && Tiles(spans[..|spans| - 1], lo, s.start)
  }

  lemma TilesNext(spans: seq<Span>, lo: nat, s: Span)
    requires Tiles(spans, lo, s.start) && s.start % PAGE + s.len <= PAGE
    ensures Tiles(spans + [s], lo, s.start + s.len)
  {
    assert (spans + [s])[..|spans|] == spans;
  }

  /** From `w0` on, the first `p` bytes of the buffer have been written at `addr`, and nothing else. */
  ghost predicate Wrote(w0: Written, w: Written, addr: nat, buffer: seq<byte>, p: nat)
    requires p <= |buffer|
  {
    && w.mem == Overlay(w0.mem, addr, buffer[..p])
    && w0.issued <= w.issued && Tiles(w.issued[|w0.issued|..], addr, addr + p)
  }

  lemma WroteNothing(w: Written, addr: nat, buffer: seq<byte>)
    ensures Wrote(w, w, addr, buffer, 0)
  {
    OverlayNothing(w.mem, addr);
  }

  lemma IssuedNext(done: seq<Span>, issued: seq<Span>, lo: nat, start: nat, n: nat)
    requires done <= issued && Tiles(issued[|done|..], lo, start) && start % PAGE + n <= PAGE
    ensures Tiles((issued + Issue(start, n))[|done|..], lo, start + n)
  {
    hide Tiles;
    var spans := issued[|done|..];
    if n > 0 {
      TilesNext(spans, lo, Span(start, n));
      assert (issued + Issue(start, n))[|done|..] == spans + [Span(start, n)];
    } else {
      assert issued + Issue(start, n) == issued;
    }
  }

  lemma WroteNext(w0: Written, w: Written, addr: nat, buffer: seq<byte>, p: nat, n: nat)
    requires p <= p + n <= |buffer| && Wrote(w0, w, addr, buffer, p) && (addr + p) % PAGE + n <= PAGE
    ensures var w' := Written(Overlay(w.mem, addr + p, buffer[p..p + n]), w.issued + Issue(addr + p, n));
      Wrote(w0, w', addr, buffer, p + n)
  {
    hide Overlay, Tiles, Issue;
    assert buffer[..p] + buffer[p..p + n] == buffer[..p + n];
    OverlayNext(w0.mem, addr, buffer[..p], buffer[p..p + n]);
    IssuedNext(w0.issued, w.issued, addr, addr + p, n);
  }

  lemma WroteAll(w0: Written, w: Written, addr: nat, buffer: seq<byte>)
    requires Wrote(w0, w, addr, buffer, |buffer|)
    ensures w.mem == Overlay(w0.mem, addr, buffer)
    ensures w0.issued <= w.issued && Tiles(w.issued[|w0.issued|..], addr, addr + |buffer|)
  {
    assert buffer[..|buffer|] == buffer;
  }

  /** The eight-bit counters of pages and of what is left over lose nothing. */
  lemma PageCount(n: nat)
    requires n < 0x10000
    ensures n == n / PAGE % 256 * PAGE + n % PAGE
  {
  }

  lemma NextPage(addr: nat, count: nat)
    requires addr % PAGE + count == PAGE
    ensures (addr + count) % PAGE == 0
  {
  }

  // ---- Addresses on the wire ----

  function AddressBytes(addr: nat): (b: seq<byte>)
    ensures |b| == 3
  {
    [(addr / 0x10000 % 256), (addr / 0x100 % 256), (addr % 256)]
  }

  function Address(hi: byte, mid: byte, lo: byte): (a: nat)
    ensures a < SIZE
  {
    hi * 0x10000 + mid * 0x100 + lo
  }

  /** Only the low 24 bits of an address reach the device. */
  lemma AddressTravels(addr: nat)
    ensures var b := AddressBytes(addr); Address(b[0], b[1], b[2]) == addr % SIZE
  {
    Digits(addr);
  }

  lemma Digits(addr: nat)
    ensures addr / 0x10000 % 256 * 0x10000 + addr / 0x100 % 256 * 0x100 + addr % 256 == addr % SIZE
  {
    var q := addr / 0x100;
    assert addr == q * 0x100 + addr % 0x100;
    var p := q / 0x100;
    assert q == p * 0x100 + q % 0x100;
    assert p == addr / 0x10000;
  }

  /** What the device answers next in a read: the address goes up by itself, around the end. */
  function Fetch(mem: seq<byte>, received: seq<byte>): byte
    requires |mem| == SIZE && |received| >= 4
  {
    mem[(Address(received[1], received[2], received[3]) + |received| - 4) % SIZE]
  }

  lemma SmallIsItself(a: nat)
    requires a < SIZE
    ensures a % SIZE == a
  {
  }

  lemma FetchIs(mem: seq<byte>, received: seq<byte>, addr: nat, i: nat)
    requires |mem| == SIZE && |received| == 4 + i && addr + i < SIZE
    requires received[..4] == [READ] + AddressBytes(addr)
    ensures received[0] == READ && Fetch(mem, received) == mem[addr + i]
  {
    hide Address, AddressBytes;
    SentAddress(received, READ, addr);
    SmallIsItself(addr);
    SmallIsItself(addr + i);
  }

  /** The address of a command as sent. */
  lemma SentAddress(received: seq<byte>, command: byte, addr: nat)
    requires |received| >= 4 && received[..4] == [command] + AddressBytes(addr)
    ensures received[0] == command && Address(received[1], received[2], received[3]) == addr % SIZE
  {
    hide Address, AddressBytes;
    AddressTravels(addr);
    var b := AddressBytes(addr);
    assert received[0] == received[..4][0] == command;
    assert received[1] == received[..4][1] == b[0];
    assert received[2] == received[..4][2] == b[1];
    assert received[3] == received[..4][3] == b[2];
  }

  // ---- The device on the bus ----

  /**
   * The device acts on what it was sent while selected: a program or write-enable when it is deselected,
   * a read or a status read byte by byte. While it is busy with a program it only answers status reads. Its
   * commands are 0x02 to program, 0x03 to read, 0x05 to read the status and 0x06 to enable writing.
   */
  class Flash {
    var mem: seq<byte>
    var received: seq<byte>
    var writable: bool
    var busy: nat
    ghost var issued: seq<Span>

    constructor (mem: seq<byte>)
      requires |mem| == SIZE
      ensures Ready() && this.mem == mem && issued == []
    {
      this.mem, received, writable, busy, issued := mem, [], false, 0, [];
    }

    predicate Ready()
      reads this`mem, this`busy
    {
      |mem| == SIZE && busy == 0
    }

    method CsLow()
      modifies this`received
      ensures received == []
    {
      received := [];
    }

    method SendByte(b: byte) returns (r: byte)
      requires |mem| == SIZE
      modifies this`received, this`busy
      ensures received == old(received) + [b]
      ensures old(received) == [] || old(received)[0] != 0x05 ==> busy == old(busy)
      ensures old(received) != [] && old(received)[0] == 0x05 ==>
                (r == 0 <==> old(busy) == 0) && busy == (if old(busy) == 0 then 0 else old(busy) - 1) && r <= 1
      ensures |old(received)| >= 4 && old(received)[0] == 0x03 && old(busy) == 0 ==>
                r == Fetch(mem, old(received))
    {
      r := 0xFF;
      if received != [] && received[0] == 0x05 {
        r := if busy == 0 then 0 else 1;
        busy := if busy == 0 then 0 else busy - 1;
      } else if |received| >= 4 && received[0] == 0x03 && busy == 0 {
        r := Fetch(mem, received);
      }
      received := received + [b];
    }

    method CsHigh(cycle: nat)
      requires |mem| == SIZE
      modifies this`mem, this`writable, this`busy, this`issued
      ensures |mem| == SIZE
      ensures received == [0x06] && old(busy) == 0 ==> writable && mem == old(mem) && busy == 0 && issued == old(issued)
      ensures received != [] && received[0] != 0x06 && received[0] != 0x02 ==>
                mem == old(mem) && busy == old(busy) && writable == old(writable) && issued == old(issued)
      ensures |received| >= 4 && received[0] == 0x02 && old(busy) == 0 && old(writable) ==>
                mem == Program(old(mem), Address(received[1], received[2], received[3]), received[4..])
                && issued == old(issued) + Issue(Address(received[1], received[2], received[3]), |received| - 4)
    {
      if received == [0x06] && busy == 0 {
        writable := true;
      } else if |received| > 4 && received[0] == 0x02 && busy == 0 && writable {
        issued := issued + Issue(Address(received[1], received[2], received[3]), |received| - 4);
        mem := Program(mem, Address(received[1], received[2], received[3]), received[4..]);
        writable, busy := false, cycle;
      }
    }

    // ---- The driver ----

    method WriteEnable()
      requires Ready()
      modifies this`mem, this`received, this`writable, this`busy, this`issued
      ensures Ready() && mem == old(mem) && writable && issued == old(issued)
    {
      CsLow();
      var _ := SendByte(WREN);
      CsHigh(0);
    }

    method WaitForWriteEnd()
      requires |mem| == SIZE
      modifies this`mem, this`received, this`writable, this`busy, this`issued
      ensures Ready() && mem == old(mem) && issued == old(issued)
    {
      hide Program, Address, Fetch;
      CsLow();
      var _ := SendByte(RDSR);
      var status := SendByte(DUMMY);
      while status % 2 == 1
        invariant |mem| == SIZE && mem == old(mem) && received != [] && received[0] == RDSR && issued == old(issued)
        invariant status <= 1 && (status == 0 ==> busy == 0)
        decreases busy, status
      {
        status := SendByte(DUMMY);
      }
      CsHigh(0);
    }

    method SendAddress(addr: nat)
      requires |mem| == SIZE && |received| == 1 && received[0] != RDSR
      modifies this`received, this`busy
      ensures busy == old(busy) && received == old(received) + AddressBytes(addr)
      ensures AddressBytes(addr) == [addr / 0x10000 % 256, addr / 0x100 % 256, addr % 256]
    {
      var _ := SendByte(addr / 0x10000 % 256);
      var _ := SendByte(addr / 0x100 % 256);
      var _ := SendByte(addr % 256);
    }

    method SendBytes(buffer: seq<byte>, p: nat, n: nat)
      requires |mem| == SIZE && p + n <= |buffer| && received != [] && received[0] != RDSR
      modifies this`received, this`busy
      ensures busy == old(busy) && received == old(received) + buffer[p..p + n]
    {
      hide Fetch;
      for i := 0 to n
        invariant busy == old(busy) && received == old(received) + buffer[p..p + i]
      {
        var _ := SendByte(buffer[p + i]);
      }
    }

    /** One page program of `n` bytes of the buffer. */
    method WritePage(buffer: seq<byte>, p: nat, addr: nat, n: nat, cycle: nat)
      requires Ready() && p + n <= |buffer| && n <= PAGE
      modifies this
      ensures Ready() && mem == Program(old(mem), addr % SIZE, buffer[p..p + n])
      ensures issued == old(issued) + Issue(addr % SIZE, n)
    {
      hide Program, Address, AddressBytes, Fetch;
      WriteEnable();
      CsLow();
      var _ := SendByte(WRITE);
      SendAddress(addr);
      SendBytes(buffer, p, n);
      assert received[4..] == buffer[p..p + n];
      assert received[..4] == [WRITE] + AddressBytes(addr);
      SentAddress(received, WRITE, addr);
      CsHigh(cycle);
      WaitForWriteEnd();
    }

    /** The next part of a buffer, inside one page. */
    method WritePart(buffer: seq<byte>, p: nat, addr: nat, n: nat, cycle: nat, ghost w0: Written, ghost addr0: nat)
      requires Ready() && p + n <= |buffer| && addr == addr0 + p && addr + n <= SIZE && addr % PAGE + n <= PAGE
      requires Wrote(w0, Written(mem, issued), addr0, buffer, p)
      modifies this
      ensures Ready() && Wrote(w0, Written(mem, issued), addr0, buffer, p + n)
    {
      hide Wrote, Program, Overlay;
      WroteNext(w0, Written(mem, issued), addr0, buffer, p, n);
      if addr < SIZE {
        SmallIsItself(addr);
        ProgramInPage(mem, addr, buffer[p..p + n]);
      } else {
        assert buffer[p..p + n] == [];
        OverlayNothing(mem, addr);
        ProgramNothing(mem, addr % SIZE);
      }
      WritePage(buffer, p, addr, n, cycle);
    }

    /** Whole pages, one after the other. */
    method WritePages(buffer: seq<byte>, p0: nat, addr0: nat, pages: nat, cycle: nat, ghost w0: Written,
                      ghost start: nat)
      returns (p: nat, addr: nat)
      requires Ready() && p0 + pages * PAGE <= |buffer|
      requires addr0 == start + p0 && addr0 + pages * PAGE <= SIZE && addr0 % PAGE == 0
      requires Wrote(w0, Written(mem, issued), start, buffer, p0)
      modifies this
      ensures Ready() && p == p0 + pages * PAGE && addr == addr0 + pages * PAGE
      ensures Wrote(w0, Written(mem, issued), start, buffer, p)
    {
      hide Wrote;
      p, addr := p0, addr0;
      var left := pages;
      while left != 0
        invariant 0 <= left <= pages && Ready()
        invariant p == p0 + (pages - left) * PAGE && addr == addr0 + (pages - left) * PAGE
        invariant Wrote(w0, Written(mem, issued), start, buffer, p)
      {
        WritePart(buffer, p, addr, PAGE, cycle, w0, start);
        left, p, addr := left - 1, p + PAGE, addr + PAGE;
      }
    }

    /** From a page boundary: whole pages, then what is left, which may be nothing. */
    method WriteAligned(buffer: seq<byte>, addr0: nat, pages: byte, single: byte, cycle: nat, ghost w0: Written)
      requires Ready() && addr0 + |buffer| <= SIZE && addr0 % PAGE == 0
      requires |buffer| == pages * PAGE + single && Wrote(w0, Written(mem, issued), addr0, buffer, 0)
      modifies this
      ensures Ready() && Wrote(w0, Written(mem, issued), addr0, buffer, |buffer|)
    {
      hide Wrote;
      if pages == 0 {
        WritePart(buffer, 0, addr0, |buffer|, cycle, w0, addr0);
      } else {
        var p, addr := WritePages(buffer, 0, addr0, pages, cycle, w0, addr0);
        WritePart(buffer, p, addr, single, cycle, w0, addr0);
      }
    }

    /** From inside a page: to its end first. */
    method WriteUnaligned(buffer: seq<byte>, addr0: nat, count: byte, pages0: byte, single0: byte, cycle: nat,
                          ghost w0: Written)
      requires Ready() && addr0 + |buffer| <= SIZE && addr0 % PAGE + count == PAGE && |buffer| < 0x10000
      requires |buffer| == pages0 * PAGE + single0 && Wrote(w0, Written(mem, issued), addr0, buffer, 0)
      modifies this
      ensures Ready() && Wrote(w0, Written(mem, issued), addr0, buffer, |buffer|)
    {
      hide Wrote;
      var addr, p := addr0, 0;
      if pages0 == 0 {
        if single0 > count {
          var temp: byte := single0 - count;
          WritePart(buffer, p, addr, count, cycle, w0, addr0);
          addr, p := addr + count, p + count;
          NextPage(addr0, count);
          WritePart(buffer, p, addr, temp, cycle, w0, addr0);
        } else {
          WritePart(buffer, p, addr, |buffer|, cycle, w0, addr0);
        }
      } else {
        var n := |buffer| - count;
        var pages: byte, single: byte := n / PAGE % 256, n % PAGE;
        PageCount(n);
        WritePart(buffer, p, addr, count, cycle, w0, addr0);
        addr, p := addr + count, p + count;
        NextPage(addr0, count);
        WriteOnward(buffer, p, addr, pages, single, cycle, w0, addr0);
      }
    }

    /** The whole pages behind a first part, then what is left, if anything is. */
    method WriteOnward(buffer: seq<byte>, p0: nat, addr0: nat, pages: byte, single: byte, cycle: nat,
                       ghost w0: Written, ghost start: nat)
      requires Ready() && |buffer| == p0 + pages * PAGE + single && single < PAGE && start + |buffer| <= SIZE
      requires addr0 == start + p0 && addr0 % PAGE == 0 && Wrote(w0, Written(mem, issued), start, buffer, p0)
      modifies this
      ensures Ready() && Wrote(w0, Written(mem, issued), start, buffer, |buffer|)
    {
      hide Wrote;
      var p, addr := WritePages(buffer, p0, addr0, pages, cycle, w0, start);
      if single != 0 {
        WritePart(buffer, p, addr, single, cycle, w0, start);
      }
    }

    /**
     * Write a buffer anywhere: every byte is programmed once, at its address, and nothing else is; the page
     * programs issued follow one another and none leaves its page.
     */
    method WriteBuffer(buffer: seq<byte>, addr: nat, cycle: nat)
      requires Ready() && |buffer| < 0x10000 && addr + |buffer| <= SIZE
      modifies this
      ensures Ready() && mem == Overlay(old(mem), addr, buffer)
      ensures old(issued) <= issued && Tiles(issued[|old(issued)|..], addr, addr + |buffer|)
    {
      hide Wrote, Overlay, Tiles;
      ghost var w0 := Written(mem, issued);
      WroteNothing(w0, addr, buffer);
      var offset: byte := addr % PAGE;
      var count: byte := (PAGE - offset) % 256;
      var pages: byte := |buffer| / PAGE % 256;
      var single: byte := |buffer| % PAGE;
      PageCount(|buffer|);
      if offset == 0 {
        WriteAligned(buffer, addr, pages, single, cycle, w0);
      } else {
        WriteUnaligned(buffer, addr, count, pages, single, cycle, w0);
      }
      WroteAll(w0, Written(mem, issued), addr, buffer);
    }

    method ReadBuffer(addr: nat, n: nat) returns (data: seq<byte>)
      requires Ready() && addr + n <= SIZE
      modifies this`mem, this`received, this`writable, this`busy, this`issued
      ensures Ready() && mem == old(mem) && data == mem[addr..addr + n] && issued == old(issued)
    {
      hide Program, Address, AddressBytes, Fetch;
      CsLow();
      var _ := SendByte(READ);
      SendAddress(addr);
      assert received[..4] == [READ] + AddressBytes(addr);
      data := [];
      for i := 0 to n
        invariant Ready() && mem == old(mem) && issued == old(issued)
        invariant |received| == 4 + i && received[..4] == [READ] + AddressBytes(addr)
        invariant data == mem[addr..addr + i]
      {
        FetchIs(mem, received, addr, i);
        var b := SendByte(DUMMY);
        data := data + [b];
      }
      assert received[0] == received[..4][0];
      CsHigh(0);
    }

    /** What is read back is the data exactly when the range still had every bit the data needs. */
    method WriteAndRead(data: seq<byte>, addr: nat, cycle: nat) returns (back: seq<byte>)
      requires Ready() && |data| < 0x10000 && addr + |data| <= SIZE
      modifies this
      ensures Ready() && (back == data <==> Holds(old(mem), addr, data))
      ensures Erased(old(mem), addr, |data|) ==> back == data
      ensures mem[..addr] == old(mem)[..addr] && mem[addr + |data|..] == old(mem)[addr + |data|..]
    {
      WriteBuffer(data, addr, cycle);
      OverlayReads(old(mem), addr, data);
      if Erased(old(mem), addr, |data|) { ErasedHolds(old(mem), addr, data); }
      back := ReadBuffer(addr, |data|);
    }
  }
}
