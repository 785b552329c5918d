/**
 The HID class bootloader: each Set_Report request (section 7.2.2 of the HID 1.11
 class definition) carries a page address and one page of data.
 */
module HidDevice {
  import opened Avr
  import opened Basics
  import opened Bits
  import opened Usb

  const COMMAND_STARTAPPLICATION := 0xFFFF

  datatype Device = Device(flash: Flash, run: bool)

  /** `Hung` is a device that waits for a packet the host never sends. */
  datatype Outcome = Done(device: Device) | Hung(device: Device)

  /** FLASHEND > 0xFFFF: page addresses are sent in units of 256 bytes. */
  predicate Large(f: Flash) {
    |f.mem| > 0x10000
  }

  function PageAddress(f: Flash, word: nat): nat {
    if Large(f) then word * 256 else word
  }

  function WordAddress(f: Flash, page: nat, w: nat): nat {
    if Large(f) then page + 2 * w else (page + 2 * w) % 0x10000
  }

  /** Fill the rest of the temporary buffer from word `w` on. */
  function FillPage(f: Flash, page: nat, w: nat, p: OutPipe): (r: (bool, Flash))
    requires w <= f.Page() / 2
    ensures r.1.Page() == f.Page()
    decreases f.Page() / 2 - w
  {
    if w == f.Page() / 2 then (true, f)
    else match Refill(p)
      case None => (false, f)
      case Some(q) => FillPage(Fill(f, WordAddress(f, page, w), Peek16(q)), page, w + 1, Drop16(q))
  }

  /** The Set_Report handler; `boot` is BOOT_START_ADDR. */
  function SetReport(boot: nat, d: Device, p: OutPipe): Outcome {
    match Refill(p)
    case None => Hung(d)
    case Some(q) =>
      var word, page := Peek16(q), PageAddress(d.flash, Peek16(q));
      if word == COMMAND_STARTAPPLICATION then Done(d.(run := false))
      else if page < boot then
        var (done, f) := FillPage(Erase(d.flash, page), page, 0, Drop16(q));
        if done then Done(d.(flash := Write(f, page))) else Hung(d.(flash := f))
      else Done(d)
  }

  // ---- Programming one page ---------------------------------------------------

  /** One round of the fill loop. */
  lemma FillPageStep(f: Flash, g: Flash, page: nat, data: seq<byte>, p: OutPipe, lo: byte, hi: byte, rest: seq<byte>)
    requires Filling(f, g, page, data) && |data| < f.Page()
    requires EvenPackets(p) && Stream(p) == [lo, hi] + rest
    ensures var g' := Fill(g, page + |data|, Word(lo, hi));
            var q := Refill(p);
            && q.Some? && EvenPackets(Drop16(q.value)) && Stream(Drop16(q.value)) == rest
            && Filling(f, g', page, data + [lo, hi])
            && FillPage(g, page, |data| / 2, p) == FillPage(g', page, |data + [lo, hi]| / 2, Drop16(q.value))
  {
    hide Put, Stream, Fill;
    WordRead(p, lo, hi, rest);
    FillStep(f, g, page, data, lo, hi);
    assert WordAddress(g, page, |data| / 2) == page + |data|;
  }

  lemma {:induction false} FillPageFills(f: Flash, g: Flash, page: nat, data: seq<byte>, rest: seq<byte>, p: OutPipe)
    requires Filling(f, g, page, data)
    requires EvenPackets(p) && Stream(p) == rest && |data| + |rest| == f.Page()
    ensures var (done, h) := FillPage(g, page, |data| / 2, p);
            done && Filling(f, h, page, data + rest)
    decreases |rest|
  {
    hide Put, Stream, Fill, Aligned, EvenPackets;
    if rest == [] {
      assert data + rest == data;
    } else {
      var lo, hi := rest[0], rest[1];
      assert rest == [lo, hi] + rest[2..];
      FillPageStep(f, g, page, data, p, lo, hi, rest[2..]);
      FillPageFills(f, Fill(g, page + |data|, Word(lo, hi)), page, data + [lo, hi], rest[2..], Drop16(Refill(p).value));
      Assoc(data, [lo, hi], rest[2..]);
    }
  }

  /** A report for a page boundary below the bootloader programs exactly that page. */
  lemma PageReport(boot: nat, d: Device, p: OutPipe, lo: byte, hi: byte, data: seq<byte>)
    requires BufferBlank(d.flash) && EvenPackets(p) && Stream(p) == [lo, hi] + data && |data| == d.flash.Page()
    requires Word(lo, hi) != COMMAND_STARTAPPLICATION
    requires var page := PageAddress(d.flash, Word(lo, hi));
             Aligned(d.flash.Page(), page) && page < |d.flash.mem|
    ensures var page := PageAddress(d.flash, Word(lo, hi));
            && page + |data| <= |d.flash.mem|
            && SetReport(boot, d, p) ==
               Done(if page < boot then d.(flash := d.flash.(mem := Put(d.flash.mem, page, data))) else d)
  {
    hide Put, Stream, Erase, Write;
    var f := d.flash;
    var page := PageAddress(f, Word(lo, hi));
    WordRead(p, lo, hi, data);
    var q := Refill(p).value;
    AlignedGap(f.Page(), page, |f.mem|);
    StartFilling(f, page);
    FillPageFills(f, Erase(f, page), page, [], data, Drop16(q));
    assert [] + data == data;
    var (done, g) := FillPage(Erase(f, page), page, 0, Drop16(q));
    CommitPage(f, g, page, data);
    assert data + Blank(0) == data;
  }

  // ---- Reports that are too short ---------------------------------------------

  lemma {:induction false} FillPageWaits(f: Flash, g: Flash, page: nat, data: seq<byte>, rest: seq<byte>, p: OutPipe)
    requires Filling(f, g, page, data)
    requires EvenPackets(p) && Stream(p) == rest && |rest| % 2 == 0 && |data| + |rest| < f.Page()
    ensures var (done, h) := FillPage(g, page, |data| / 2, p);
            !done && Filling(f, h, page, data + rest)
    decreases |rest|
  {
    hide Put, Stream, Fill, Aligned, EvenPackets, FillPage, Filling;
    FillingEven(f, g, page, data);
    if rest == [] {
      assert data + rest == data;
      NoPacket(p);
      StillWaiting(g, page, |data| / 2, p);
    } else {
      var lo, hi := rest[0], rest[1];
      assert rest == [lo, hi] + rest[2..];
      FillPageStep(f, g, page, data, p, lo, hi, rest[2..]);
      FillPageWaits(f, Fill(g, page + |data|, Word(lo, hi)), page, data + [lo, hi], rest[2..], Drop16(Refill(p).value));
      Assoc(data, [lo, hi], rest[2..]);
    }
  }

  lemma FillingEven(f: Flash, g: Flash, page: nat, data: seq<byte>)
    requires Filling(f, g, page, data) && |data| < f.Page()
    ensures |data| % 2 == 0 && |data| / 2 < g.Page() / 2
  {
  }

  lemma StillWaiting(g: Flash, page: nat, w: nat, p: OutPipe)
    requires w < g.Page() / 2 && Refill(p).None?
    ensures FillPage(g, page, w, p) == (false, g)
  {
  }

  /** A report for such a page with too little data leaves it erased, the data waiting, and the handler too. */
  lemma ShortReport(boot: nat, d: Device, p: OutPipe, lo: byte, hi: byte, data: seq<byte>)
    requires BufferBlank(d.flash) && EvenPackets(p) && Stream(p) == [lo, hi] + data
    requires |data| % 2 == 0 && |data| < d.flash.Page() && Word(lo, hi) != COMMAND_STARTAPPLICATION
    requires var page := PageAddress(d.flash, Word(lo, hi));
             Aligned(d.flash.Page(), page) && page < |d.flash.mem| && page < boot
    ensures var r := SetReport(boot, d, p);
            && r.Hung? && r.device.run == d.run
            && Filling(d.flash, r.device.flash, PageAddress(d.flash, Word(lo, hi)), data)
  {
    hide Put, Stream, Erase, Write;
    var f := d.flash;
    var page := PageAddress(f, Word(lo, hi));
    WordRead(p, lo, hi, data);
    var q := Refill(p).value;
    AlignedGap(f.Page(), page, |f.mem|);
    StartFilling(f, page);
    FillPageWaits(f, Erase(f, page), page, [], data, Drop16(q));
    assert [] + data == data;
  }

  lemma {:induction false} FillPageFrame(f: Flash, page: nat, w: nat, p: OutPipe)
    requires w <= f.Page() / 2
    ensures FillPage(f, page, w, p).1.mem == f.mem
    decreases f.Page() / 2 - w
  {
    if w < f.Page() / 2 && Refill(p).Some? {
      var q := Refill(p).value;
      FillPageFrame(Fill(f, WordAddress(f, page, w), Peek16(q)), page, w + 1, Drop16(q));
    }
  }

  /** The pages of `f` other than the one that contains `a` are those of `g`. */
  predicate SameButPage(f: Flash, g: Flash, a: nat) {
    var b := Base(f.Page(), a);
    && g.Page() == f.Page() && |g.mem| == |f.mem|
    && forall i :: 0 <= i < |f.mem| && !(b <= i < b + f.Page()) ==> g.mem[i] == f.mem[i]
  }

  /**
   Whatever the packets, and even if the handler is left waiting, a report cannot touch
   flash outside the page it names, nor any flash if that page is not below the bootloader.
   */
  lemma ReportFrame(boot: nat, d: Device, p: OutPipe)
    ensures var g := SetReport(boot, d, p).device.flash;
            if Refill(p).None? then g == d.flash
            else
              var page := PageAddress(d.flash, Peek16(Refill(p).value));
              SameButPage(d.flash, g, page) && (page >= boot ==> g == d.flash)
  {
    hide FillPage, Peek16, Drop16, Programmed;
    if Refill(p).Some? {
      var q := Refill(p).value;
      var page := PageAddress(d.flash, Peek16(q));
      FillPageFrame(Erase(d.flash, page), page, 0, Drop16(q));
    }
  }

  // ---- The program ------------------------------------------------------------

  class Bootloader {
    const boot: nat
    var flash: Flash
    var runBootloader: bool
    /** The control endpoint. */
    var pipe: OutPipe

    ghost function View(): Device
      reads this
    {
      Device(flash, runBootloader)
    }

    constructor (boot: nat, flash: Flash)
      ensures this.boot == boot && View() == Device(flash, true)
    {
      this.boot, this.flash, runBootloader, pipe := boot, flash, true, OutPipe([], []);
    }

    /** `ok` is false when the handler is still waiting for a packet. */
    method HandleSetReport(packets: seq<seq<byte>>) returns (ok: bool)
      modifies this
      ensures SetReport(boot, old(View()), OutPipe([], packets)) == (if ok then Done(View()) else Hung(View()))
    {
      hide Erase, Write, FillPage, Peek16, Drop16;
      pipe := OutPipe([], packets);
      if pipe.queue == [] {
        return false;
      }
      pipe := NextPacket(pipe).value;
      var word := Peek16(pipe);
      pipe := Drop16(pipe);
      var pageAddress := PageAddress(flash, word);
      if word == COMMAND_STARTAPPLICATION {
        runBootloader := false;
      } else if pageAddress < boot {
        flash := Erase(flash, pageAddress);
        ok := FillBuffer(pageAddress);
        if !ok {
          return false;
        }
        flash := Write(flash, pageAddress);
      }
      return true;
    }

    method FillBuffer(pageAddress: nat) returns (ok: bool)
      modifies this
      ensures runBootloader == old(runBootloader)
      ensures (ok, flash) == FillPage(old(flash), pageAddress, 0, old(pipe))
    {
      hide Fill, Peek16, Drop16, WordAddress;
      var pageWord := 0;
      while pageWord < flash.Page() / 2
        invariant flash.Page() == old(flash.Page()) && 0 <= pageWord <= flash.Page() / 2
        invariant runBootloader == old(runBootloader)
        invariant FillPage(flash, pageAddress, pageWord, pipe) == FillPage(old(flash), pageAddress, 0, old(pipe))
        decreases flash.Page() / 2 - pageWord
      {
        if pipe.bank == [] {
          if pipe.queue == [] {
            return false;
          }
          pipe := NextPacket(pipe).value;
        }
        flash := Fill(flash, WordAddress(flash, pageAddress, pageWord), Peek16(pipe));
        pipe := Drop16(pipe);
        pageWord := pageWord + 1;
      }
      return true;
    }
  }
}
