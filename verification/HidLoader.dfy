/**
 The HID loader end to end: the host reads a file and sends its pages, the device
 programs them.
 */
module HidLoader {
  import opened Avr
  import opened Basics
  import opened Bits
  import opened Usb
  import opened HidHost
  import opened HidDevice

  /** The report arrives as any run of non-empty packets of even size. */
  predicate Delivers(p: OutPipe, report: seq<byte>) {
    p.bank == [] && EvenPackets(p) && Stream(p) == report
  }

  predicate AllDelivered(ps: seq<OutPipe>, reports: seq<seq<byte>>) {
    |ps| == |reports| && forall i :: 0 <= i < |ps| ==> Delivers(ps[i], reports[i])
  }

  function HandleAll(boot: nat, d: Device, ps: seq<OutPipe>): Outcome
    decreases ps
  {
    if ps == [] then Done(d)
    else match SetReport(boot, d, ps[0])
      case Done(e) => HandleAll(boot, e, ps[1..])
      case Hung(e) => Hung(e)
  }

  /** The code and block sizes chosen for the 8, 16, 32 and 128 KB parts. */
  predicate ShiftedRight(code: nat, block: nat) {
    || (code in {0x2000, 0x4000, 0x8000} && block == 128)
    || (code == 0x2_0000 && block == 256)
  }

  /** The byte at `i` once the blocks below `limit` have been dealt with. */
  function WantedByte(boot: nat, p: nat, m: Cells, mem: seq<byte>, limit: nat, i: nat): byte
    requires p > 0 && i < |mem|
  {
    var b := Base(p, i);
    if b < limit && b < boot && Sent(m, b, p) then Block(m, b, p)[i - b] else mem[i]
  }

  function Wanted(boot: nat, p: nat, m: Cells, mem: seq<byte>, limit: nat): (w: seq<byte>)
    requires p > 0
    ensures |w| == |mem|
  {
    seq<byte>(|mem|, i requires 0 <= i < |mem| => WantedByte(boot, p, m, mem, limit, i))
  }

  /** Dealing with one more block changes that block only. */
  lemma WantedStep(boot: nat, p: nat, m: Cells, mem: seq<byte>, addr: nat)
    requires p > 0 && Aligned(p, addr) && addr + p <= |mem|
    ensures Wanted(boot, p, m, mem, addr + p) ==
            if addr < boot && Sent(m, addr, p)
            then Put(Wanted(boot, p, m, mem, addr), addr, Block(m, addr, p))
            else Wanted(boot, p, m, mem, addr)
  {
    hide Sent, Block;
    forall i | 0 <= i < |mem|
      ensures addr <= i < addr + p ==> Base(p, i) == addr
      ensures addr <= Base(p, i) < addr + p ==> addr <= i < addr + p
    {
      if addr <= i < addr + p {
        BaseOfPage(p, addr, i);
      } else if addr <= Base(p, i) < addr + p {
        BaseAligned(p, i);
        BaseOfPage(p, addr, Base(p, i));
      }
    }
    var w, w' := Wanted(boot, p, m, mem, addr), Wanted(boot, p, m, mem, addr + p);
    forall i | 0 <= i < |mem|
      ensures w'[i] ==
              if addr < boot && Sent(m, addr, p) && addr <= i < addr + p then Block(m, addr, p)[i - addr] else w[i]
    {
    }
  }

  lemma WantedNothing(boot: nat, p: nat, m: Cells, mem: seq<byte>)
    requires p > 0
    ensures Wanted(boot, p, m, mem, 0) == mem
  {
  }

  /** On these parts the two bytes name the page the device takes them for. */
  lemma NameUnderstood(f: Flash, addr: nat)
    requires ShiftedRight(|f.mem|, f.Page()) && Aligned(f.Page(), addr) && addr < |f.mem|
    ensures var n := PageName(|f.mem|, addr);
            && PageAddress(f, Word(n[0], n[1])) == addr
            && Word(n[0], n[1]) != COMMAND_STARTAPPLICATION
  {
    hide Base;
    if f.Page() == 128 {
      BaseRemainder(128, addr);
      assert addr % 128 == 0;
    } else {
      BaseRemainder(256, addr);
      NameOfLarge(addr);
    }
  }

  lemma NameOfLarge(addr: nat)
    requires addr % 256 == 0 && addr < 0x2_0000
    ensures var n := PageName(0x2_0000, addr); Word(n[0], n[1]) * 256 == addr && n[1] < 2
  {
    var n := PageName(0x2_0000, addr);
    if addr < 65536 {
      assert n[1] == 0 && n[0] == addr / 256;
    } else {
      assert n[1] == 1 && addr / 256 == 256 + (addr - 65536) / 256;
    }
  }

  lemma {:induction false} SendFrom(boot: nat, m: Cells, f: Flash, g: Flash, addr: nat, reboot: bool, ps: seq<OutPipe>)
    requires ShiftedRight(|f.mem|, f.Page()) && Aligned(f.Page(), addr) && addr <= |f.mem|
    requires g == f.(mem := Wanted(boot, f.Page(), m, f.mem, addr), buf := Blank(f.Page()))
    requires AllDelivered(ps, Reports(m, |f.mem|, f.Page(), addr, reboot))
    ensures HandleAll(boot, Device(g, true), ps) ==
            Done(Device(f.(mem := Wanted(boot, f.Page(), m, f.mem, |f.mem|), buf := Blank(f.Page())), !reboot))
    decreases |f.mem| - addr
  {
    hide Put, Wanted, SetReport, PageName, Block, Sent;
    var p, code := f.Page(), |f.mem|;
    if addr == code {
      if reboot {
        BootReported(boot, Device(g, true), ps[0]);
        assert ps[1..] == [];
      }
    } else {
      AlignedGap(p, addr, code);
      AlignedSum(p, addr, p);
      WantedStep(boot, p, m, f.mem, addr);
      var g' := f.(mem := Wanted(boot, p, m, f.mem, addr + p), buf := Blank(p));
      var rest := Reports(m, code, p, addr + p, reboot);
      if Sent(m, addr, p) {
        PageSent(boot, m, f, g, addr, ps[0]);
        assert SetReport(boot, Device(g, true), ps[0]) == Done(Device(g', true));
        assert AllDelivered(ps[1..], rest) by {
          assert Reports(m, code, p, addr, reboot)[1..] == rest;
        }
        SendFrom(boot, m, f, g', addr + p, reboot, ps[1..]);
      } else {
        assert Reports(m, code, p, addr, reboot) == rest;
        SendFrom(boot, m, f, g', addr + p, reboot, ps);
      }
    }
  }

  lemma BootReported(boot: nat, d: Device, p: OutPipe)
    requires Delivers(p, BootReport(d.flash.Page()))
    ensures SetReport(boot, d, p) == Done(d.(run := false))
  {
    WordRead(p, 255, 255, seq(d.flash.Page(), i => 0));
  }

  lemma PageSent(boot: nat, m: Cells, f: Flash, g: Flash, addr: nat, p: OutPipe)
    requires ShiftedRight(|f.mem|, f.Page()) && Aligned(f.Page(), addr) && addr < |f.mem|
    requires BufferBlank(g) && g.Page() == f.Page() && |g.mem| == |f.mem|
    requires Delivers(p, PageName(|f.mem|, addr) + Block(m, addr, f.Page()))
    ensures addr + f.Page() <= |f.mem|
    ensures SetReport(boot, Device(g, true), p) ==
            Done(Device(if addr < boot then g.(mem := Put(g.mem, addr, Block(m, addr, f.Page()))) else g, true))
  {
    hide Put, Block, SetReport;
    var n := PageName(|f.mem|, addr);
    NameUnderstood(g, addr);
    assert n == [n[0], n[1]];
    PageReport(boot, Device(g, true), p, n[0], n[1], Block(m, addr, f.Page()));
  }

  /**
   Reading a file and sending it, however the reports are cut into packets, leaves
   every page below BOOT_START_ADDR that is the first page or holds a byte of the
   file with the file's bytes there and 0xFF between them, and every other page
   as it was; the bootloader runs on unless the final report ends it.
   */
  lemma HidEndToEnd(boot: nat, lines: seq<string>, f: Flash, reboot: bool, ps: seq<OutPipe>)
    requires ShiftedRight(|f.mem|, f.Page()) && BufferBlank(f)
    requires TakeLines(EMPTY_HOST, lines).1.Accepted?
    requires AllDelivered(ps, Reports(TakeLines(EMPTY_HOST, lines).0.cells, |f.mem|, f.Page(), 0, reboot))
    ensures var r, pieces := HandleAll(boot, Device(f, true), ps), Pieces(0, lines);
            && r.Done? && r.device.run == !reboot && BufferBlank(r.device.flash)
            && r.device.flash.Page() == f.Page() && |r.device.flash.mem| == |f.mem|
            && forall i :: 0 <= i < |f.mem| ==> r.device.flash.mem[i] == FileByte(boot, pieces, f, i)
  {
    hide Wanted, Reports, TakeLines, Pieces, HandleAll, AllDelivered, FileByte;
    var m := TakeLines(EMPTY_HOST, lines).0.cells;
    WantedNothing(boot, f.Page(), m, f.mem);
    SendFrom(boot, m, f, f, 0, reboot, ps);
    forall i | 0 <= i < |f.mem|
      ensures WantedByte(boot, f.Page(), m, f.mem, |f.mem|, i) == FileByte(boot, Pieces(0, lines), f, i)
    {
      forall a ensures CellAt(m, a) == LastWriter(Pieces(0, lines), a) {
        ImageIsLastWriter(EMPTY_HOST, lines, a);
      }
      WantedIsFileByte(boot, m, Pieces(0, lines), f, i);
    }
    WantedAt(boot, f.Page(), m, f.mem);
  }

  /** The byte that belongs at `i` after loading the data records `ps` over `f`. */
  ghost function FileByte(boot: nat, ps: seq<Piece>, f: Flash, i: nat): byte
    requires i < |f.mem|
  {
    var p := f.Page();
    var b := Base(p, i);
    if b < boot && (b == 0 || exists a: nat :: b <= a < b + p <= MAX_MEMORY_SIZE && LastWriter(ps, a).Some?) then
      if b + p < MAX_MEMORY_SIZE && LastWriter(ps, i).Some? then LastWriter(ps, i).value else 255
    else f.mem[i]
  }

  /**
   A byte that the file gives for an address below BOOT_START_ADDR reaches flash if and only if
   its block ends below 0x10000, since a block that ends there is sent blank, or the byte is 0xFF.
   */
  lemma ByteReachesIff(boot: nat, lines: seq<string>, f: Flash, reboot: bool, ps: seq<OutPipe>, i: nat)
    requires ShiftedRight(|f.mem|, f.Page()) && BufferBlank(f)
    requires TakeLines(EMPTY_HOST, lines).1.Accepted?
    requires AllDelivered(ps, Reports(TakeLines(EMPTY_HOST, lines).0.cells, |f.mem|, f.Page(), 0, reboot))
    requires i < |f.mem| && Base(f.Page(), i) < boot && LastWriter(Pieces(0, lines), i).Some?
    ensures var r, b := HandleAll(boot, Device(f, true), ps), LastWriter(Pieces(0, lines), i).value;
            && r.Done? && |r.device.flash.mem| == |f.mem|
            && (r.device.flash.mem[i] == b <==> Base(f.Page(), i) + f.Page() < MAX_MEMORY_SIZE || b == 255)
  {
    hide Reports, TakeLines, Pieces, HandleAll, AllDelivered, LastWriter, Base;
    var p, pieces := f.Page(), Pieces(0, lines);
    HidEndToEnd(boot, lines, f, reboot, ps);
    ImageIsLastWriter(EMPTY_HOST, lines, i);
    WriterBelow(pieces, i);
    BlockInImage(p, i);
  }

  lemma {:induction false} WriterBelow(ps: seq<Piece>, a: nat)
    requires LastWriter(ps, a).Some?
    requires forall p :: p in ps ==> p.bytes != [] ==> p.at + |p.bytes| <= MAX_MEMORY_SIZE
    ensures a < MAX_MEMORY_SIZE
  {
    var k := |ps| - 1;
    if Covers(ps[k], a) {
      assert ps[k] in ps;
    } else {
      WriterBelow(ps[..k], a);
    }
  }

  lemma BlockInImage(p: nat, i: nat)
    requires (p == 128 || p == 256) && i < MAX_MEMORY_SIZE
    ensures Base(p, i) + p <= MAX_MEMORY_SIZE
  {
    hide Base;
    BaseRemainder(p, i);
  }

  lemma WantedAt(boot: nat, p: nat, m: Cells, mem: seq<byte>)
    requires p > 0
    ensures forall i :: 0 <= i < |mem| ==>
              Wanted(boot, p, m, mem, |mem|)[i] == WantedByte(boot, p, m, mem, |mem|, i)
  {
  }

  lemma WantedIsFileByte(boot: nat, m: Cells, ps: seq<Piece>, f: Flash, i: nat)
    requires i < |f.mem| && forall a :: CellAt(m, a) == LastWriter(ps, a)
    ensures WantedByte(boot, f.Page(), m, f.mem, |f.mem|, i) == FileByte(boot, ps, f, i)
  {
    hide LastWriter, Base;
    var p := f.Page();
    var b := Base(p, i);
    forall a: nat ensures a in m <==> LastWriter(ps, a).Some? {
      assert CellAt(m, a) == LastWriter(ps, a);
    }
    assert CellAt(m, i) == LastWriter(ps, i);
    SentIff(m, ps, b, p);
    if b + p < MAX_MEMORY_SIZE {
      assert Block(m, b, p)[i - b] == ImageByte(m, b + (i - b));
    }
  }

  lemma SentIff(m: Cells, ps: seq<Piece>, b: nat, p: nat)
    requires p > 0 && forall a: nat :: a in m <==> LastWriter(ps, a).Some?
    ensures Sent(m, b, p) <==>
            (b == 0 || exists a: nat :: b <= a < b + p <= MAX_MEMORY_SIZE && LastWriter(ps, a).Some?)
  {
    hide LastWriter;
    if Within(m, b, b + p - 1) {
      var a :| b <= a <= b + p - 1 && a in m;
      assert b <= a < b + p <= MAX_MEMORY_SIZE && LastWriter(ps, a).Some?;
    }
    if a: nat :| b <= a < b + p <= MAX_MEMORY_SIZE && LastWriter(ps, a).Some? {
      assert b <= a <= b + p - 1 && a in m;
      assert Within(m, b, b + p - 1);
    }
  }
}
