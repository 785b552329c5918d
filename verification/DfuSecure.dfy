/**
 Secure mode of the DFU bootloader over whole sessions.
 */
module DfuSecure {
  import opened Avr
  import opened Basics
  import opened Bits
  import opened Usb
  import opened Dfu

  /** A locked device as it can be found between two requests. */
  predicate Locked(d: Device) {
    && d.secure && !d.waitForExit && (d.state.Idle? || d.state.Error?)
    && BufferBlank(d.flash)
  }

  /** The application section is erased, the rest of memory is that of `d`. */
  predicate Wiped(part: Part, d: Device, e: Device) {
    && |e.flash.mem| == |d.flash.mem| && e.eeprom == d.eeprom
    && BufferBlank(e.flash) && e.flash.Page() == d.flash.Page()
    && forall i :: 0 <= i < |d.flash.mem| ==> e.flash.mem[i] == if i < part.boot then 255 else d.flash.mem[i]
  }

  predicate ValidPart(part: Part, d: Device) {
    Aligned(d.flash.Page(), part.boot) && part.boot <= |d.flash.mem|
  }

  /** A command given to a locked device. */
  lemma LockedCommand(part: Part, d: Device)
    requires Locked(d) && ValidPart(part, d)
    ensures var e := ProcessCommand(part, d);
            if e.secure then Locked(e) && e.flash == d.flash && e.eeprom == d.eeprom && e.startAddr == d.startAddr
            else Wiped(part, d, e) && !e.state.DnloadIdle? && !e.waitForExit &&
                 e == d.(flash := EraseFrom(d.flash, part.boot, 0), secure := false)
  {
    hide EraseFrom;
    EraseAll(d.flash, part.boot, 0);
  }

  lemma {:induction false} ParametersFrame(d: Device, p: OutPipe, i: nat)
    requires i <= 5
    ensures var e := ReadParameters(d, p, i).0;
            e == d.(data := e.data, dataSize := e.dataSize)
    decreases 5 - i
  {
    if i < 5 && p.bank != [] {
      ParametersFrame(d.(data := d.data[i := p.bank[0]], dataSize := (d.dataSize + U16 - 1) % U16), Drop8(p), i + 1);
    }
  }

  /** Reading a command changes SentCommand only, and not through the memories. */
  lemma CommandFrame(d: Device, p: OutPipe)
    ensures var e := ReadCommand(d, p).0;
            e == d.(command := Peek8(p), data := e.data, dataSize := e.dataSize)
  {
    hide ReadParameters;
    ParametersFrame(d.(command := Peek8(p), dataSize := (d.dataSize + U16 - 1) % U16), Drop8(p), 0);
  }

  lemma LockedDnload(part: Part, d: Device, packets: Packets)
    requires Locked(d) && ValidPart(part, d)
    ensures var e := HandleDnload(part, d, packets);
            if e.secure then Locked(e) && e.flash == d.flash && e.eeprom == d.eeprom && e.startAddr == d.startAddr
            else Wiped(part, d, e)
  {
    hide ReadCommand, ProcessCommand, ReceiveFirmware;
    var p := OutPipe([], packets);
    if d.dataSize != 0 && NextPacket(p).Some? {
      CommandFrame(d, NextPacket(p).value);
      var (e, q) := ReadCommand(d, NextPacket(p).value);
      LockedCommand(part, e);
    }
  }

  /**
   One request to a locked device: either it stays locked with all memory untouched,
   or it has carried out a chip erase.
   */
  lemma LockedStep(part: Part, d: Device, r: Request)
    requires Locked(d) && ValidPart(part, d)
    ensures var e := Handle(part, d, r).0;
            if e.secure then Locked(e) && e.flash == d.flash && e.eeprom == d.eeprom && e.startAddr == d.startAddr
            else Wiped(part, d, e)
  {
    hide HandleDnload, SendMemory;
    LockedDnload(part, d.(dataSize := r.wLength % U16), r.packets);
  }

  lemma UnlockedStep(part: Part, d: Device, r: Request)
    requires !d.secure
    ensures !Handle(part, d, r).0.secure
  {
    hide HandleDnload, ReadWords, ReadEeprom;
    UnlockedDnload(part, d.(dataSize := r.wLength % U16), r.packets);
  }

  lemma UnlockedCommand(part: Part, d: Device)
    requires !d.secure
    ensures !ProcessCommand(part, d).secure
  {
    hide EraseFrom, FirstUsed, Erase;
  }

  lemma UnlockedDnload(part: Part, d: Device, packets: Packets)
    requires !d.secure
    ensures !HandleDnload(part, d, packets).secure
  {
    hide ProcessCommand, ReadCommand, ProgramWords, ProgramEeprom, Discard;
    UnlockedCommand(part, d);
    var d' := if d.waitForExit then ProcessCommand(part, d).(waitForExit := false) else d;
    var p := NextPacket(OutPipe([], packets));
    if p.Some? {
      CommandFrame(d', p.value);
      UnlockedCommand(part, ReadCommand(d', p.value).0);
    }
  }

  /**
   In every session that starts locked: while the device is still secure its flash and
   EEPROM are those it started with, its temporary buffer is blank and it is idle or in
   error; and security is not given up before a chip erase.
   */
  lemma {:induction false} SecureSession(part: Part, d: Device, rs: seq<Request>)
    requires Locked(d) && ValidPart(part, d)
    ensures var e := Session(part, d, rs).0;
            e.secure ==> Locked(e) && e.flash == d.flash && e.eeprom == d.eeprom
    ensures !Session(part, d, rs).0.secure ==>
            exists k :: 0 < k <= |rs| && Session(part, d, rs[..k - 1]).0.secure &&
                        Wiped(part, d, Session(part, d, rs[..k]).0)
    decreases rs
  {
    hide Handle, Wiped, BufferBlank;
    if rs != [] {
      var e := Handle(part, d, rs[0]).0;
      LockedStep(part, d, rs[0]);
      assert rs[..0] == [] && Session(part, d, rs[..0]).0 == d;
      OneMore(part, d, rs, 1);
      assert rs[1..][..0] == [];
      if e.secure {
        SecureSession(part, e, rs[1..]);
        if !Session(part, d, rs).0.secure {
          var k :| 0 < k <= |rs[1..]| && Session(part, e, rs[1..][..k - 1]).0.secure &&
                   Wiped(part, e, Session(part, e, rs[1..][..k]).0);
          OneMore(part, d, rs, k + 1);
          OneMore(part, d, rs, k);
          WipedFrom(part, d, e, Session(part, d, rs[..k + 1]).0);
        }
      } else {
        StillUnlocked(part, e, rs[1..]);
      }
    }
  }

  lemma OneMore(part: Part, d: Device, rs: seq<Request>, k: nat)
    requires 0 < k <= |rs|
    ensures Session(part, d, rs[..k]).0 == Session(part, Handle(part, d, rs[0]).0, rs[1..][..k - 1]).0
  {
    hide Handle;
    assert rs[..k][0] == rs[0] && rs[..k][1..] == rs[1..][..k - 1];
  }

  lemma WipedFrom(part: Part, d: Device, e: Device, g: Device)
    requires Wiped(part, e, g) && e.flash == d.flash && e.eeprom == d.eeprom
    ensures Wiped(part, d, g)
  {
  }

  /** Once given up, security does not come back. */
  lemma {:induction false} StillUnlocked(part: Part, d: Device, rs: seq<Request>)
    requires !d.secure
    ensures !Session(part, d, rs).0.secure
    decreases rs
  {
    hide Handle;
    if rs != [] {
      UnlockedStep(part, d, rs[0]);
      StillUnlocked(part, Handle(part, d, rs[0]).0, rs[1..]);
    }
  }

  // ---- What a locked device can tell ------------------------------------------

  /** Two locked devices that differ in their memories only. */
  predicate Twins(part: Part, d: Device, e: Device) {
    && Locked(d) && Locked(e) && ValidPart(part, d) && ValidPart(part, e)
    && e == d.(flash := e.flash, eeprom := e.eeprom)
  }

  /** They differ in the application section of flash only. */
  predicate SameButApplication(part: Part, d: Device, e: Device) {
    && e.eeprom == d.eeprom && e.flash.Page() == d.flash.Page() && |e.flash.mem| == |d.flash.mem|
    && forall i :: part.boot <= i < |d.flash.mem| ==> e.flash.mem[i] == d.flash.mem[i]
  }

  lemma {:induction false} ParametersTwin(d: Device, e: Device, p: OutPipe, i: nat)
    requires i <= 5 && e == d.(flash := e.flash, eeprom := e.eeprom)
    ensures var (d', q) := ReadParameters(d, p, i);
            ReadParameters(e, p, i) == (d'.(flash := e.flash, eeprom := e.eeprom), q)
    decreases 5 - i
  {
    if i < 5 && p.bank != [] {
      var size := (d.dataSize + U16 - 1) % U16;
      ParametersTwin(d.(data := d.data[i := p.bank[0]], dataSize := size),
                     e.(data := e.data[i := p.bank[0]], dataSize := size), Drop8(p), i + 1);
    } else {
      assert d.(flash := e.flash, eeprom := e.eeprom) == e;
    }
  }

  lemma CommandTwin(d: Device, e: Device, p: OutPipe)
    requires e == d.(flash := e.flash, eeprom := e.eeprom)
    ensures var (d', q) := ReadCommand(d, p);
            ReadCommand(e, p) == (d'.(flash := e.flash, eeprom := e.eeprom), q)
  {
    hide ReadParameters;
    var size := (d.dataSize + U16 - 1) % U16;
    ParametersTwin(d.(command := Peek8(p), dataSize := size), e.(command := Peek8(p), dataSize := size), Drop8(p), 0);
  }

  /** Commands act alike on twins. */
  lemma ProcessTwin(part: Part, d: Device, e: Device)
    requires Twins(part, d, e)
    ensures var d', e' := ProcessCommand(part, d), ProcessCommand(part, e);
            && d'.secure == e'.secure && d'.state == e'.state && !d'.state.DnloadIdle?
            && e' == d'.(flash := e'.flash, eeprom := e'.eeprom)
            && (!d'.secure && SameButApplication(part, d, e) ==> d' == e')
  {
    hide EraseFrom, SameButApplication, ValidPart, BufferBlank, ProcessMemProg, ProcessMemRead;
    if SameButApplication(part, d, e) {
      EraseTwin(part, d, e);
    }
  }

  lemma EraseTwin(part: Part, d: Device, e: Device)
    requires Twins(part, d, e) && SameButApplication(part, d, e)
    ensures EraseFrom(d.flash, part.boot, 0) == EraseFrom(e.flash, part.boot, 0) && d.eeprom == e.eeprom
  {
    hide EraseFrom;
    EraseAll(d.flash, part.boot, 0);
    EraseAll(e.flash, part.boot, 0);
    assert EraseFrom(d.flash, part.boot, 0).mem == EraseFrom(e.flash, part.boot, 0).mem;
  }

  lemma DnloadTwin(part: Part, d: Device, e: Device, packets: Packets)
    requires Twins(part, d, e)
    ensures var d', e' := HandleDnload(part, d, packets), HandleDnload(part, e, packets);
            && d'.secure == e'.secure
            && e' == d'.(flash := e'.flash, eeprom := e'.eeprom)
            && (!d'.secure && SameButApplication(part, d, e) ==> d' == e')
  {
    hide ReadCommand, ProcessCommand, ReceiveFirmware, SameButApplication;
    var p := NextPacket(OutPipe([], packets));
    if d.dataSize != 0 && p.Some? {
      CommandFrame(d, p.value);
      CommandTwin(d, e, p.value);
      var (d1, q) := ReadCommand(d, p.value);
      var e1 := d1.(flash := e.flash, eeprom := e.eeprom);
      assert Twins(part, d1, e1);
      SameApplicationFrame(part, d, e, d1, e1);
      ProcessTwin(part, d1, e1);
    }
  }

  lemma SameApplicationFrame(part: Part, d: Device, e: Device, d1: Device, e1: Device)
    requires d1.flash == d.flash && d1.eeprom == d.eeprom && e1.flash == e.flash && e1.eeprom == e.eeprom
    ensures SameButApplication(part, d1, e1) == SameButApplication(part, d, e)
  {
  }

  /** Requests other than downloads neither show nor change the memories of a locked device. */
  lemma QuietTwin(part: Part, d: Device, e: Device, r: Request)
    requires Locked(d) && e == d.(flash := e.flash, eeprom := e.eeprom) && !r.kind.Dnload?
    ensures var (d', out) := Handle(part, d, r);
            Handle(part, e, r) == (d'.(flash := e.flash, eeprom := e.eeprom), out)
            && d'.secure && d'.flash == d.flash && d'.eeprom == d.eeprom
  {
    hide HandleDnload, SendMemory, StatusCode, StateCode, Lo, Hi, BufferBlank;
  }

  /** One request to both, when it does not end in an erase. */
  lemma TwinsKept(part: Part, d: Device, e: Device, d': Device, e': Device)
    requires Twins(part, d, e) && e' == d'.(flash := e'.flash, eeprom := e'.eeprom)
    requires Locked(d') && d'.flash == d.flash && d'.eeprom == d.eeprom
    requires Locked(e') && e'.flash == e.flash && e'.eeprom == e.eeprom
    ensures Twins(part, d', e') && SameButApplication(part, d', e') == SameButApplication(part, d, e)
  {
    hide SameButApplication;
    SameApplicationFrame(part, d, e, d', e');
  }

  lemma TwinStep(part: Part, d: Device, e: Device, r: Request)
    requires Twins(part, d, e)
    ensures var (d', out) := Handle(part, d, r);
            var (e', out') := Handle(part, e, r);
            && out == out' && d'.secure == e'.secure
            && (d'.secure ==> Twins(part, d', e') && SameButApplication(part, d', e') == SameButApplication(part, d, e))
            && (!d'.secure && SameButApplication(part, d, e) ==> d' == e')
  {
    hide HandleDnload, HandleUpload, HandleShort, SameButApplication, Wiped;
    LockedStep(part, d, r);
    LockedStep(part, e, r);
    var d', e' := Handle(part, d, r).0, Handle(part, e, r).0;
    if r.kind.Dnload? {
      var d0, e0 := d.(dataSize := r.wLength % U16), e.(dataSize := r.wLength % U16);
      TwinsKept(part, d, e, d0, e0);
      DnloadTwin(part, d0, e0, r.packets);
    } else {
      QuietTwin(part, d, e, r);
    }
    if d'.secure {
      TwinsKept(part, d, e, d', e');
    }
  }

  /**
   The application section never leaks: two locked devices that differ there and nowhere
   else answer every session, including a later chip erase and readout, alike.
   */
  lemma {:induction false} ApplicationNeverLeaks(part: Part, d: Device, e: Device, rs: seq<Request>)
    requires Twins(part, d, e) && SameButApplication(part, d, e)
    ensures Session(part, d, rs).1 == Session(part, e, rs).1
    decreases rs
  {
    hide Handle, Twins, SameButApplication;
    if rs != [] {
      TwinStep(part, d, e, rs[0]);
      var d', e' := Handle(part, d, rs[0]).0, Handle(part, e, rs[0]).0;
      if d'.secure {
        ApplicationNeverLeaks(part, d', e', rs[1..]);
      }
    }
  }

  /** While it stays secure, a device says nothing about any of its memories. */
  lemma {:induction false} NothingReadWhileSecure(part: Part, d: Device, e: Device, rs: seq<Request>)
    requires Twins(part, d, e) && Session(part, d, rs).0.secure
    ensures Session(part, d, rs).1 == Session(part, e, rs).1
    decreases rs
  {
    hide Handle, Twins, SameButApplication;
    if rs != [] {
      TwinStep(part, d, e, rs[0]);
      var d', e' := Handle(part, d, rs[0]).0, Handle(part, e, rs[0]).0;
      if d'.secure {
        NothingReadWhileSecure(part, d', e', rs[1..]);
      } else {
        StillUnlocked(part, d', rs[1..]);
      }
    }
  }
}
