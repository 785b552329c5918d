/**
 The HID loader on 64 KB parts. The host names pages in units of 256 bytes, and the device
 takes the name for a byte address: every page goes to the first one, turned by its number.
 */
module HidSixtyFourK {
  import opened Avr
  import opened Basics
  import opened Bits
  import opened Usb
  import opened HidHost
  import opened HidDevice
  import opened HidLoader

  predicate SixtyFourK(f: Flash) {
    |f.mem| == 0x10000 && f.Page() == 256
  }

  // ---- One report -------------------------------------------------------------

  /** The block, turned by its page name. */
  function Turned(name: nat, block: seq<byte>): (b: seq<byte>)
    requires name < 256
    ensures |b| == 256
  {
    Wrapped(256, name - name % 2, block)
  }

  /** Where the word at offset `n` of the block goes. */
  lemma WordPlace(name: nat, n: nat)
    requires name < 256 && n < 256 && n % 2 == 0
    ensures var e, a := name - name % 2, name + n;
            var o := a - Base(256, a);
            o - o % 2 == if e + n < 256 then e + n else e + n - 256
  {
    if name + n < 256 {
      assert Base(256, name + n) == 0;
    } else {
      assert Base(256, name + n) == 256;
    }
  }

  /** The fill loop of a report, from the word at offset `n` on. */
  lemma {:induction false} FillTurned(g: Flash, name: nat, block: seq<byte>, n: nat, p: OutPipe)
    requires SixtyFourK(g) && name < 256 && |block| == 256 && n <= 256 && n % 2 == 0
    requires EvenPackets(p) && Stream(p) == block[n..] && g.buf == Wrapped(256, name - name % 2, block[..n])
    ensures FillPage(g, name, n / 2, p) == (true, g.(buf := Turned(name, block)))
    decreases 256 - n
  {
    hide Wrapped, Stream, EvenPackets, Refill, Drop16, Peek16, FillPage, Fill, Word, WordAddress;
    if n < 256 {
      var lo, hi := block[n], block[n + 1];
      assert block[n..] == [lo, hi] + block[n + 2..];
      WordRead(p, lo, hi, block[n + 2..]);
      var q := Refill(p).value;
      FillAt(g, name, block, n);
      FillUnfolds(g, name, n / 2, p, q);
      FillTurned(g.(buf := Wrapped(256, name - name % 2, block[..n + 2])), name, block, n + 2, Drop16(q));
    } else {
      assert block[..n] == block;
      FillDone(g, name, p);
    }
  }

  lemma FillAt(g: Flash, name: nat, block: seq<byte>, n: nat)
    requires SixtyFourK(g) && name < 256 && |block| == 256 && n < 256 && n % 2 == 0
    requires g.buf == Wrapped(256, name - name % 2, block[..n])
    ensures Fill(g, WordAddress(g, name, n / 2), Word(block[n], block[n + 1])) ==
            g.(buf := Wrapped(256, name - name % 2, block[..n + 2]))
  {
    hide Wrapped, Word, Lo, Hi, Base;
    var e := name - name % 2;
    var s := if e + n < 256 then e + n else e + n - 256;
    WordPlace(name, n);
    WrappedStep(256, e, block[..n], s, block[n], block[n + 1]);
    assert block[..n] + [block[n], block[n + 1]] == block[..n + 2];
    WordParts(block[n], block[n + 1]);
    assert WordAddress(g, name, n / 2) == name + n;
  }

  lemma FillUnfolds(g: Flash, page: nat, w: nat, p: OutPipe, q: OutPipe)
    requires w < g.Page() / 2 && Refill(p) == Some(q)
    ensures FillPage(g, page, w, p) == FillPage(Fill(g, WordAddress(g, page, w), Peek16(q)), page, w + 1, Drop16(q))
  {
    hide Fill, Peek16, Drop16, Refill, WordAddress;
  }

  lemma FillDone(g: Flash, page: nat, p: OutPipe)
    ensures FillPage(g, page, g.Page() / 2, p) == (true, g)
  {
  }

  /** Flash with its first page replaced. */
  function After(f: Flash, page: seq<byte>): Flash
    requires SixtyFourK(f) && |page| == 256
  {
    Flash(Put(f.mem, 0, page), Blank(256))
  }

  /** A report with page name `name` replaces the first page by its block, turned. */
  lemma TurnedReport(boot: nat, d: Device, p: OutPipe, name: byte, block: seq<byte>)
    requires SixtyFourK(d.flash) && BufferBlank(d.flash) && boot >= 256 && |block| == 256
    requires EvenPackets(p) && Stream(p) == [name, 0] + block
    ensures SetReport(boot, d, p) == Done(d.(flash := After(d.flash, Turned(name, block))))
  {
    hide Stream, EvenPackets, Put, Wrapped, Refill, Drop16, Peek16, FillPage, Write;
    WordRead(p, name, 0, block);
    var q, f := Refill(p).value, d.flash;
    assert Word(name, 0) == name;
    assert Base(256, name) == 0 && Base(256, 0) == 0;
    var g := Erase(f, name);
    assert block[0..] == block;
    WrappedNothing(256, name - name % 2);
    assert block[..0] == [];
    FillTurned(g, name, block, 0, Drop16(q));
    var h := g.(buf := Turned(name, block));
    TurnedCommits(f, h, name, Turned(name, block));
  }

  lemma TurnedCommits(f: Flash, h: Flash, name: nat, page: seq<byte>)
    requires SixtyFourK(f) && name < 256 && |page| == 256
    requires h.mem == Put(f.mem, 0, Blank(256)) && h.buf == page
    ensures Write(h, name) == After(f, page)
  {
    hide Put, Programmed;
    assert Base(256, name) == 0 && Base(256, 0) == 0;
    assert page + Blank(0) == page;
    CommitPage(f, h, 0, page);
    assert Write(h, name) == Write(h, 0);
  }

  // ---- All reports ------------------------------------------------------------

  /** What the blocks from `addr` on leave in the first page, which held `page`. */
  function LastPage(m: Cells, addr: nat, page: seq<byte>): (last: seq<byte>)
    requires |page| == 256 && Aligned(256, addr)
    ensures |last| == 256
    decreases 0x10000 - addr
  {
    if addr >= 0x10000 then page
    else
      NextAligned(addr);
      LastPage(m, addr + 256, if Sent(m, addr, 256) then Turned(addr / 256 % 256, Block(m, addr, 256)) else page)
  }

  lemma NextAligned(addr: nat)
    requires Aligned(256, addr)
    ensures Aligned(256, addr + 256)
  {
  }

  lemma NameOf(addr: nat)
    requires addr < 0x10000
    ensures PageName(0x10000, addr) == [addr / 256 % 256, 0]
  {
  }

  lemma AfterAfter(f: Flash, page: seq<byte>, next: seq<byte>)
    requires SixtyFourK(f) && |page| == 256 && |next| == 256
    ensures SixtyFourK(After(f, page)) && After(After(f, page), next) == After(f, next)
  {
  }

  /** The reports from block address `addr` on, however they are cut into packets. */
  lemma {:induction false} ReportsTurn(boot: nat, f: Flash, m: Cells, addr: nat, page: seq<byte>, reboot: bool,
                                       ps: seq<OutPipe>)
    requires SixtyFourK(f) && |page| == 256 && boot >= 256 && Aligned(256, addr)
    requires AllDelivered(ps, Reports(m, 0x10000, 256, addr, reboot))
    ensures HandleAll(boot, Device(After(f, page), true), ps) ==
            Done(Device(After(f, LastPage(m, addr, page)), !reboot))
    decreases 0x10000 - addr
  {
    hide SetReport, Block, Sent, Turned, After, Delivers, PageName;
    var d := Device(After(f, page), true);
    AfterAfter(f, page, page);
    var rs := Reports(m, 0x10000, 256, addr, reboot);
    if addr >= 0x10000 {
      if reboot {
        BootLeaves(boot, d, ps[0]);
        assert ps[1..] == [];
      }
    } else {
      var rest := Reports(m, 0x10000, 256, addr + 256, reboot);
      NextAligned(addr);
      if Sent(m, addr, 256) {
        var block := Block(m, addr, 256);
        assert rs[0] == PageName(0x10000, addr) + block && rs[1..] == rest;
        var next := Turned(addr / 256 % 256, block);
        ReportTurns(boot, f, page, addr, block, ps[0]);
        ReportsTurn(boot, f, m, addr + 256, next, reboot, ps[1..]);
      } else {
        assert rs == rest;
        ReportsTurn(boot, f, m, addr + 256, page, reboot, ps);
      }
    }
  }

  lemma BootLeaves(boot: nat, d: Device, p: OutPipe)
    requires SixtyFourK(d.flash) && Delivers(p, BootReport(256))
    ensures SetReport(boot, d, p) == Done(d.(run := false))
  {
    hide SetReport;
    BootReported(boot, d, p);
  }

  lemma ReportTurns(boot: nat, f: Flash, page: seq<byte>, addr: nat, block: seq<byte>, p: OutPipe)
    requires SixtyFourK(f) && |page| == |block| == 256 && boot >= 256 && addr < 0x10000
    requires Delivers(p, PageName(0x10000, addr) + block)
    ensures SetReport(boot, Device(After(f, page), true), p) ==
            Done(Device(After(f, Turned(addr / 256 % 256, block)), true))
  {
    hide SetReport, Turned, Put, PageName;
    var name: byte := addr / 256 % 256;
    NameOf(addr);
    AfterAfter(f, page, Turned(name, block));
    TurnedReport(boot, Device(After(f, page), true), p, name, block);
  }

  /** The last page sent, which is the first if no other is. */
  function Survivor(m: Cells): (page: seq<byte>)
    ensures |page| == 256
  {
    LastPage(m, 0, Blank(256))
  }

  /**
   On every 64 KB part, for every image and every cut into packets: all of flash is
   unchanged but the first page, which is the last block sent, turned by its page number.
   */
  lemma SixtyFourKLeaves(boot: nat, f: Flash, m: Cells, reboot: bool, ps: seq<OutPipe>)
    requires SixtyFourK(f) && BufferBlank(f) && boot >= 256
    requires AllDelivered(ps, Reports(m, 0x10000, 256, 0, reboot))
    ensures HandleAll(boot, Device(f, true), ps) == Done(Device(After(f, Survivor(m)), !reboot))
  {
    hide HandleAll, Reports, AllDelivered, Turned;
    var page := f.mem[..256];
    assert After(f, page) == f;
    ReportsTurn(boot, f, m, 0, page, reboot, ps);
    assert Aligned(256, 0);
    FirstAlwaysSent(m, page);
  }

  lemma FirstAlwaysSent(m: Cells, page: seq<byte>)
    requires |page| == 256
    ensures LastPage(m, 0, page) == Survivor(m)
  {
    hide Turned, Block;
  }

  // ---- When that is right -----------------------------------------------------

  /** Each report in a single packet. */
  function Whole(reports: seq<seq<byte>>): (ps: seq<OutPipe>)
    ensures |ps| == |reports|
  {
    seq(|reports|, i requires 0 <= i < |reports| => OutPipe([], [reports[i]]))
  }

  lemma DeliversWhole(report: seq<byte>)
    requires |report| % 2 == 0 && report != []
    ensures Delivers(OutPipe([], [report]), report)
  {
    FlattenCons(report, []);
    assert [report] + [] == [report] && report + [] == report;
  }

  lemma {:induction false} ReportSizes(m: Cells, addr: nat, reboot: bool, r: seq<byte>)
    requires r in Reports(m, 0x10000, 256, addr, reboot)
    ensures |r| == 258
    decreases 0x10000 - addr
  {
    if addr < 0x10000 && r in Reports(m, 0x10000, 256, addr + 256, reboot) {
      ReportSizes(m, addr + 256, reboot, r);
    }
  }

  lemma WholeDelivers(m: Cells, reboot: bool)
    ensures var rs := Reports(m, 0x10000, 256, 0, reboot); AllDelivered(Whole(rs), rs)
  {
    hide Reports, Delivers;
    var rs := Reports(m, 0x10000, 256, 0, reboot);
    forall i | 0 <= i < |rs|
      ensures Delivers(Whole(rs)[i], rs[i])
    {
      ReportSizes(m, 0, reboot, rs[i]);
      DeliversWhole(rs[i]);
    }
  }

  /** A 64 KB part filled with one byte. */
  function Uniform(x: byte): (f: Flash)
    ensures SixtyFourK(f) && BufferBlank(f) && forall i :: 0 <= i < 0x10000 ==> f.mem[i] == x
  {
    BaseRemainder(256, 0x10000);
    Flash(seq(0x10000, i => x), Blank(256))
  }

  lemma PutDiffers(mem: seq<byte>, x: seq<byte>, y: seq<byte>)
    requires |x| == |y| <= |mem| && x != y
    ensures Put(mem, 0, x) != Put(mem, 0, y)
  {
    assert Put(mem, 0, x)[..|x|] == x && Put(mem, 0, y)[..|y|] == y;
  }

  /** The loader does on this flash, with these packets, what it is meant to. */
  predicate Right(boot: nat, f: Flash, m: Cells, ps: seq<OutPipe>) {
    HandleAll(boot, Device(f, true), ps).device.flash.mem == Wanted(boot, 256, m, f.mem, 0x10000)
  }

  predicate Applies(f: Flash, m: Cells, reboot: bool, ps: seq<OutPipe>) {
    SixtyFourK(f) && BufferBlank(f) && AllDelivered(ps, Reports(m, 0x10000, 256, 0, reboot))
  }

  /** Nothing is meant for the pages between the first and the bootloader. */
  predicate FirstPageImage(boot: nat, m: Cells) {
    forall a :: a in m ==> a < 256 || a >= boot
  }

  lemma FirstPageWanted(boot: nat, f: Flash, m: Cells)
    requires SixtyFourK(f) && boot >= 256 && Aligned(256, boot) && FirstPageImage(boot, m)
    ensures Wanted(boot, 256, m, f.mem, 0x10000) == Put(f.mem, 0, Block(m, 0, 256))
  {
    hide Block;
    forall i | 0 <= i < |f.mem|
      ensures Wanted(boot, 256, m, f.mem, 0x10000)[i] == if i < 256 then Block(m, 0, 256)[i] else f.mem[i]
    {
      var b := Base(256, i);
      BaseAligned(256, i);
      if i >= 256 {
        assert b >= 256;
        if b < boot {
          AlignedGap(256, b, boot);
          assert !Sent(m, b, 256);
        }
      }
    }
  }

  /**
   On 64 KB parts the loader is right on every starting flash and for every cut into
   packets if and only if nothing of the image lies between the first page and the
   bootloader and the last block sent, turned, is the first block.
   */
  lemma SixtyFourKIff(boot: nat, m: Cells, reboot: bool)
    requires Aligned(256, boot) && 256 <= boot <= 0x10000
    ensures (forall f: Flash, ps :: Applies(f, m, reboot, ps) ==> Right(boot, f, m, ps)) <==>
            FirstPageImage(boot, m) && Survivor(m) == Block(m, 0, 256)
  {
    hide Applies, Right, Block, Survivor;
    if FirstPageImage(boot, m) && Survivor(m) == Block(m, 0, 256) {
      forall f: Flash, ps | Applies(f, m, reboot, ps)
        ensures Right(boot, f, m, ps)
      {
        SurvivorRight(boot, f, m, reboot, ps);
      }
    } else if FirstPageImage(boot, m) {
      var f := FirstPageWrong(boot, m, reboot);
    } else {
      var a :| a in m && 256 <= a < boot;
      var f := FarByteLost(boot, m, a, reboot);
    }
  }

  lemma SurvivorRight(boot: nat, f: Flash, m: Cells, reboot: bool, ps: seq<OutPipe>)
    requires Aligned(256, boot) && 256 <= boot <= 0x10000 && Applies(f, m, reboot, ps)
    requires FirstPageImage(boot, m) && Survivor(m) == Block(m, 0, 256)
    ensures Right(boot, f, m, ps)
  {
    hide HandleAll, Reports, Wanted, Block, Survivor, AllDelivered;
    SixtyFourKLeaves(boot, f, m, reboot, ps);
    FirstPageWanted(boot, f, m);
  }

  lemma FirstPageWrong(boot: nat, m: Cells, reboot: bool) returns (f: Flash)
    requires Aligned(256, boot) && 256 <= boot <= 0x10000
    requires FirstPageImage(boot, m) && Survivor(m) != Block(m, 0, 256)
    ensures exists ps :: Applies(f, m, reboot, ps) && !Right(boot, f, m, ps)
  {
    hide HandleAll, Reports, Wanted, Block, Survivor, AllDelivered, Uniform, Put;
    f := Uniform(0);
    var ps := Whole(Reports(m, 0x10000, 256, 0, reboot));
    WholeDelivers(m, reboot);
    SixtyFourKLeaves(boot, f, m, reboot, ps);
    FirstPageWanted(boot, f, m);
    PutDiffers(f.mem, Survivor(m), Block(m, 0, 256));
    assert Applies(f, m, reboot, ps) && !Right(boot, f, m, ps);
  }

  /** Every byte meant for another page is lost on some flash. */
  lemma FarByteLost(boot: nat, m: Cells, a: nat, reboot: bool) returns (f: Flash)
    requires Aligned(256, boot) && boot <= 0x10000 && a in m && 256 <= a < boot
    ensures exists ps :: Applies(f, m, reboot, ps) && !Right(boot, f, m, ps)
  {
    hide HandleAll, Reports, Block, Survivor, AllDelivered, Uniform;
    var b := Base(256, a);
    var want := Block(m, b, 256)[a - b];
    var other: byte := if want == 0 then 1 else 0;
    f := Uniform(other);
    var ps := Whole(Reports(m, 0x10000, 256, 0, reboot));
    WholeDelivers(m, reboot);
    SixtyFourKLeaves(boot, f, m, reboot, ps);
    BaseAligned(256, a);
    AlignedGap(256, b, boot);
    assert Sent(m, b, 256);
    assert Wanted(boot, 256, m, f.mem, 0x10000)[a] == want;
    assert Put(f.mem, 0, Survivor(m))[a] == other;
    assert Applies(f, m, reboot, ps) && !Right(boot, f, m, ps);
  }

  /** For an image below the bootloader the condition is that it fits in the first page. */
  lemma SixtyFourKFits(boot: nat, m: Cells)
    requires Aligned(256, boot) && 256 <= boot <= 0x10000 && forall a :: a in m ==> a < boot
    ensures FirstPageImage(boot, m) && Survivor(m) == Block(m, 0, 256) <==> forall a :: a in m ==> a < 256
  {
    hide Survivor, Block;
    if forall a :: a in m ==> a < 256 {
      SurvivorFirst(m);
    }
  }

  lemma SurvivorFirst(m: Cells)
    requires forall a :: a in m ==> a < 256
    ensures Survivor(m) == Block(m, 0, 256)
  {
    hide Block, Turned, LastPage;
    var block := Block(m, 0, 256);
    NextAligned(0);
    FirstStep(m);
    NoneLater(m, 256, Turned(0, block));
    NotTurned(block);
  }

  lemma FirstStep(m: Cells)
    ensures Aligned(256, 256) && Survivor(m) == LastPage(m, 256, Turned(0, Block(m, 0, 256)))
  {
    hide Block, Turned;
  }

  lemma NotTurned(block: seq<byte>)
    requires |block| == 256
    ensures Turned(0, block) == block
  {
  }

  lemma {:induction false} NoneLater(m: Cells, addr: nat, page: seq<byte>)
    requires addr >= 256 && Aligned(256, addr) && |page| == 256 && forall a :: a in m ==> a < 256
    ensures LastPage(m, addr, page) == page
    decreases 0x10000 - addr
  {
    hide Turned, Block;
    if addr < 0x10000 {
      assert !Sent(m, addr, 256);
      NextAligned(addr);
      NoneLater(m, addr + 256, page);
    }
  }
}
