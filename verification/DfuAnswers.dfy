/**
 What the DFU bootloader tells the host: information bytes, the address found by a blank
 check, status and state; and the choice of the 64 KB page.
 */
module DfuAnswers {
  import opened Avr
  import opened Basics
  import opened Bits
  import opened Dfu
  import opened DfuProgram
  import opened Usb

  // ---- The 64 KB page ---------------------------------------------------------

  /** DFU_DNLOAD with a command that chooses the 64 KB page. */
  function SelectRequest(page: byte): Request {
    Request(Dnload, 6, [CommandPacket(COMMAND_CHANGE_BASE_ADDR, [3, 0, page, 0, 0], [])], 0)
  }

  /** The state after a command without firmware. */
  function Settled(s: State): State {
    if s.DnloadIdle? then Idle else s
  }

  lemma PageSelected(part: Part, d: Device, page: byte)
    requires !d.secure && !d.waitForExit
    ensures Handle(part, d, SelectRequest(page)) ==
            (d.(dataSize := 0, command := COMMAND_CHANGE_BASE_ADDR, data := [3, 0, page, 0, 0], page64 := page,
                state := Settled(d.state)), [])
  {
    hide Handle, CommandPacket, ProcessMemProg, ProcessMemRead, ProcessWrite, ProcessRead;
    var packets := SelectRequest(page).packets;
    assert packets + [] == packets;
    CommandHandled(part, d, COMMAND_CHANGE_BASE_ADDR, [3, 0, page, 0, 0], [], [], 6);
  }

  /**
   The page chosen last is the one that is programmed and read, whatever page was chosen
   before: the payload is at `page` times 64 KB plus the start.
   */
  lemma SelectedRoundTrip(part: Part, d: Device, page: byte, start: nat, payload: seq<byte>, filler: seq<byte>,
                          packets: Packets, suffix: seq<byte>, wLength: nat, polls: nat)
    returns (e: Device, g: Device, out: Packets)
    requires Ready(d) && payload != [] && |payload| % 2 == 0 && |payload| < U16 && start + |payload| <= U16
    requires var a := page * 0x10000 + start; Aligned(d.flash.Page(), a) && a + |payload| <= |d.flash.mem|
    requires |filler| == FILLER_BYTES_SIZE && 6 < wLength < U16 && polls > |payload|
    requires EvenPackets(OutPipe([], packets)) && Flatten(packets) == payload + suffix
    ensures var end := start + |payload| - 1;
            var s := Handle(part, d, SelectRequest(page)).0;
            e == Handle(part, s, ProgramRequest(0, start, end, filler, packets, wLength)).0
    ensures (g, out) == Handle(part, Handle(part, e, DisplayRequest(0, start, start + |payload| - 1)).0,
                               Request(Upload, |payload|, [], polls))
    ensures g.flash == Committed(d.flash, page * 0x10000 + start, payload) && Flatten(out) == payload
  {
    hide Handle, Committed, EvenPackets, Flatten, Aligned;
    PageSelected(part, d, page);
    var s := Handle(part, d, SelectRequest(page)).0;
    var end := start + |payload| - 1;
    e := Handle(part, s, ProgramRequest(0, start, end, filler, packets, wLength)).0;
    DfuRoundTrip(part, s, start, payload, filler, packets, suffix, wLength, polls);
    var r := Handle(part, Handle(part, e, DisplayRequest(0, start, end)).0, Request(Upload, |payload|, [], polls));
    g, out := r.0, r.1;
  }

  // ---- Information ------------------------------------------------------------

  /** DFU_DNLOAD with a read command: bootloader information (0) or signature (1). */
  function ReadRequest(which: byte, index: byte): Request {
    Request(Dnload, 6, [CommandPacket(COMMAND_READ, [which, index, 0, 0, 0], [])], 0)
  }

  /** The bytes that can be asked for, by what they are and their index. */
  function Catalogue(part: Part): map<(byte, byte), byte> {
    map[
      (0, 0) := 0x20, (0, 1) := 0xDC, (0, 2) := 0xFB,
      (1, 0x30) := 0x58, (1, 0x31) := part.signature1, (1, 0x60) := part.signature2, (1, 0x61) := part.signature3
    ]
  }

  lemma ReadMeans(part: Part, d: Device, which: byte, index: byte)
    requires d.data == [which, index, 0, 0, 0] && which < 2
    ensures ProcessRead(part, d) ==
            if (which, index) in Catalogue(part) then d.(response := Catalogue(part)[(which, index)])
            else d.(state := Error, status := ErrAddress)
  {
  }

  lemma ReadHandled(part: Part, d: Device, which: byte, index: byte)
    requires !d.waitForExit && which < 2
    ensures var s := d.(dataSize := 0, command := COMMAND_READ, data := [which, index, 0, 0, 0]);
            Handle(part, d, ReadRequest(which, index)) ==
            (if (which, index) in Catalogue(part)
             then s.(response := Catalogue(part)[(which, index)], state := Settled(d.state))
             else s.(state := Error, status := ErrAddress), [])
  {
    hide Handle, CommandPacket, ProcessMemProg, ProcessMemRead, ProcessWrite, ProcessRead, Catalogue;
    var packets := ReadRequest(which, index).packets;
    assert packets + [] == packets;
    CommandHandled(part, d, COMMAND_READ, [which, index, 0, 0, 0], [], [], 6);
    ReadMeans(part, d.(dataSize := 0, command := COMMAND_READ, data := [which, index, 0, 0, 0]), which, index);
  }

  /**
   Locked or not, a device that is neither in error nor about to send memory answers the
   upload after a read command with the byte asked for, and keeps its memories.
   */
  lemma InformationTold(part: Part, d: Device, which: byte, index: byte, polls: nat, wLength: nat)
    requires !d.waitForExit && (which, index) in Catalogue(part) && polls > 0
    requires !d.state.UploadIdle? && !d.state.Error?
    ensures var e := Handle(part, d, ReadRequest(which, index)).0;
            var (g, out) := Handle(part, e, Request(Upload, wLength, [], polls));
            out == [[Catalogue(part)[(which, index)]]] && g.flash == d.flash && g.eeprom == d.eeprom
  {
    ReadHandled(part, d, which, index);
    var e := Handle(part, d, ReadRequest(which, index)).0;
    ResponseSent(part, e, polls, wLength);
  }

  lemma ResponseSent(part: Part, e: Device, polls: nat, wLength: nat)
    requires polls > 0 && !e.state.UploadIdle? && !e.state.Error?
    ensures Handle(part, e, Request(Upload, wLength, [], polls)) == (e.(dataSize := wLength % U16), [[e.response]])
  {
  }

  /** Any other index is answered by the status: errADDRESS in dfuERROR. */
  lemma UnknownIndexTold(part: Part, d: Device, which: byte, index: byte, polls: nat)
    requires !d.waitForExit && which < 2 && (which, index) !in Catalogue(part) && polls > 0
    ensures var e := Handle(part, d, ReadRequest(which, index)).0;
            Handle(part, e, Request(GetStatus, 6, [], polls)).1 == [[8, 0, 0, 0, 10, 0]]
  {
    hide HandleDnload, HandleUpload;
    ReadHandled(part, d, which, index);
  }

  // ---- Blank check ------------------------------------------------------------

  /** After a blank check that failed the upload is the address in its 64 KB page, low byte first. */
  lemma UsedAddressTold(part: Part, d: Device, polls: nat, wLength: nat)
    requires !d.secure && !d.waitForExit && part.boot <= |d.flash.mem| <= 0x100_0000 && polls > 0
    requires !BlankApplication(d.flash, part.boot)
    ensures var e := Handle(part, d, BLANK_CHECK_REQUEST).0;
            var out := Handle(part, e, Request(Upload, wLength, [], polls)).1;
            && |out| == 1 && |out[0]| == 2
            && LeastUsed(d.flash, part.boot, e.page64 * 0x10000 + Word(out[0][0], out[0][1]))
  {
    hide LeastUsed, BlankApplication, FirstUsed, HandleDnload, SendMemory, Lo, Hi, Word;
    BlankCheckFinds(part, d);
    BlankCheckHandled(part, d);
    var e := Handle(part, d, BLANK_CHECK_REQUEST).0;
    WordSplit(e.startAddr);
  }

  // ---- Status and state -------------------------------------------------------

  /** A short request. */
  function Short(kind: Kind): Request {
    Request(kind, 0, [], 1)
  }

  /** What DFU_GETSTATUS says. */
  function Report(part: Part, d: Device): Packets {
    Handle(part, d, Short(GetStatus)).1
  }

  /**
   Section 6.1.3 of USB DFU 1.1 takes a device in error to dfuIDLE by DFU_CLRSTATUS. Here the
   status is cleared and the state stays: the host is told OK in dfuIDLE if and only if the
   device was idle before.
   */
  lemma ClearedIff(part: Part, d: Device)
    ensures var e := Handle(part, d, Short(ClrStatus)).0;
            && Report(part, e) == [[0, 0, 0, 0, StateCode(d.state), 0]]
            && (Report(part, e) == [[0, 0, 0, 0, 2, 0]] <==> d.state.Idle?)
  {
    hide HandleDnload, HandleUpload;
    var told := Report(part, Handle(part, d, Short(ClrStatus)).0);
    if told == [[0, 0, 0, 0, 2, 0]] {
      assert told[0][4] == 2;
    }
  }

  /** DFU_ABORT leaves the status and makes the state dfuIDLE; both together take any device to OK in dfuIDLE. */
  lemma AbortedAndCleared(part: Part, d: Device)
    ensures var e := Handle(part, d, Short(Abort)).0;
            && Report(part, e) == [[StatusCode(d.status), 0, 0, 0, 2, 0]]
            && Handle(part, e, Short(GetState)).1 == [[2]]
            && Report(part, Handle(part, e, Short(ClrStatus)).0) == [[0, 0, 0, 0, 2, 0]]
  {
    hide HandleDnload, HandleUpload;
  }

  /** What DFU_GETSTATE says. */
  function StateTold(part: Part, d: Device): Packets {
    Handle(part, d, Short(GetState)).1
  }

  lemma CodesTold(part: Part, d: Device)
    ensures Report(part, d) == [[StatusCode(d.status), 0, 0, 0, StateCode(d.state), 0]]
    ensures StateTold(part, d) == [[StateCode(d.state)]]
  {
    hide HandleDnload, HandleUpload;
  }

  /** After firmware the host is told dfuDNLOAD-IDLE, and after a display command dfuUPLOAD-IDLE, by their codes. */
  lemma TransfersTold(part: Part, d: Device, start: nat, payload: seq<byte>, filler: seq<byte>, packets: Packets,
                      suffix: seq<byte>, wLength: nat)
    requires Ready(d) && payload != [] && |payload| % 2 == 0 && |payload| < U16 && start + |payload| <= U16
    requires Aligned(d.flash.Page(), FlashAddress(d, start)) && FlashAddress(d, start) + |payload| <= |d.flash.mem|
    requires |filler| == FILLER_BYTES_SIZE && 6 < wLength < U16
    requires EvenPackets(OutPipe([], packets)) && Flatten(packets) == payload + suffix
    ensures var end := start + |payload| - 1;
            && StateTold(part, Handle(part, d, ProgramRequest(0, start, end, filler, packets, wLength)).0) == [[5]]
            && StateTold(part, Handle(part, d, DisplayRequest(0, start, end)).0) == [[9]]
  {
    hide Handle, Committed, EvenPackets, Flatten, Aligned, Ready;
    var end := start + |payload| - 1;
    DfuPrograms(part, d, start, payload, filler, packets, suffix, wLength);
    CodesTold(part, Handle(part, d, ProgramRequest(0, start, end, filler, packets, wLength)).0);
    ReadyUnlocked(d);
    DisplayHeader(part, d, 0, start, end);
    CodesTold(part, Handle(part, d, DisplayRequest(0, start, end)).0);
  }

  /** A locked device refuses every command but chip erase and reads: errWRITE in dfuERROR. */
  lemma LockedTold(part: Part, d: Device, command: byte, ps: seq<byte>)
    requires d.secure && !d.waitForExit && |ps| == 5 && command != COMMAND_READ
    requires command != COMMAND_WRITE || ps[0] != 0 || ps[1] != 255
    ensures var e := Handle(part, d, Request(Dnload, 6, [CommandPacket(command, ps, [])], 0)).0;
            Report(part, e) == [[3, 0, 0, 0, 10, 0]] && e.flash == d.flash && e.eeprom == d.eeprom && e.secure
  {
    hide Handle, CommandPacket, ProcessMemProg, ProcessMemRead, ProcessWrite, ProcessRead;
    var packets := [CommandPacket(command, ps, [])];
    assert packets + [] == packets;
    CommandHandled(part, d, command, ps, [], [], 6);
    CodesTold(part, Handle(part, d, Request(Dnload, 6, packets, 0)).0);
  }

  /** A read command given in between takes the place of the display command: the upload is one empty packet. */
  lemma NothingUploaded(part: Part, d: Device, index: byte, polls: nat, wLength: nat)
    requires !d.waitForExit && d.state.UploadIdle? && (1, index) in Catalogue(part) && polls > 0
    ensures var e := Handle(part, d, ReadRequest(1, index)).0;
            var (g, out) := Handle(part, e, Request(Upload, wLength, [], polls));
            out == [[]] && g == e.(dataSize := wLength % U16, state := Idle)
  {
    hide Handle, Catalogue;
    ReadHandled(part, d, 1, index);
    EmptyUpload(part, Handle(part, d, ReadRequest(1, index)).0, polls, wLength);
  }

  lemma EmptyUpload(part: Part, e: Device, polls: nat, wLength: nat)
    requires e.state.UploadIdle? && e.data[0] == 1 && polls > 0
    ensures Handle(part, e, Request(Upload, wLength, [], polls)) ==
            (e.(dataSize := wLength % U16, state := Idle), [[]])
  {
    hide HandleDnload, ReadWords, ReadEeprom;
  }

  /** A blank check that failed is told as errCHECK_ERASED in dfuERROR. */
  lemma NotBlankTold(part: Part, d: Device)
    requires !d.secure && !d.waitForExit && part.boot <= |d.flash.mem| <= 0x100_0000
    requires !BlankApplication(d.flash, part.boot)
    ensures Report(part, Handle(part, d, BLANK_CHECK_REQUEST).0) == [[5, 0, 0, 0, 10, 0]]
  {
    hide Handle, BlankApplication, LeastUsed;
    BlankCheckFinds(part, d);
    CodesTold(part, Handle(part, d, BLANK_CHECK_REQUEST).0);
  }
}
