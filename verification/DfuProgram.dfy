/**
 Programming, reading back and blank checking flash over DFU.
 */
module DfuProgram {
  import opened Avr
  import opened Basics
  import opened Bits
  import opened Usb
  import opened Dfu
  import opened DfuSecure

  // ---- The programming loop ---------------------------------------------------

  /**
   The loop has stored `done` from the page boundary `start` on: `done[..c]` is
   committed, and the page at `start + c` is erased with `done[c..]` waiting.
   */
  predicate Midway(f: Flash, g: Flash, start: nat, c: nat, done: seq<byte>) {
    && c <= |done| < c + f.Page()
    && Filling(Committed(f, start, done[..c]), g, start + c, done[c..])
  }

  lemma MidwayFill(f: Flash, g: Flash, start: nat, c: nat, done: seq<byte>, lo: byte, hi: byte)
    requires Midway(f, g, start, c, done)
    ensures Filling(Committed(f, start, (done + [lo, hi])[..c]), Fill(g, start + |done|, Word(lo, hi)),
                    start + c, (done + [lo, hi])[c..])
  {
    hide Filling, Fill, Committed;
    FillOn(f, g, start, c, done, lo, hi);
  }

  /** Moving on to the next page. */
  lemma MidwayNext(f: Flash, start: nat, done: seq<byte>)
    requires Aligned(f.Page(), start + |done|) && start + |done| < |f.mem|
    ensures Midway(f, Erase(Committed(f, start, done), start + |done|), start, |done|, done)
  {
    hide Filling, Erase, Committed;
    OpenPage(f, start, done);
  }

  /** One round of the loop. */
  lemma ProgramWordsStep(g: Flash, p: OutPipe, words: nat, addr: nat, pageStart: nat, inPage: nat, q: OutPipe)
    requires Refill(p) == Some(q) && words > 0 && inPage < g.Page() / 2
    ensures var h := Fill(g, addr, Peek16(q));
            ProgramWords(g, p, words, addr, pageStart, inPage) ==
            if words == 1 then (true, Write(h, pageStart))
            else if inPage + 1 == g.Page() / 2 then
              ProgramWords(Erase(Write(h, pageStart), addr + 2), Drop16(q), words - 1, addr + 2, addr + 2, 0)
            else ProgramWords(h, Drop16(q), words - 1, addr + 2, pageStart, inPage + 1)
  {
    hide Fill, Write, Erase, Refill, Peek16, Drop16;
    assert (inPage + 1) % 256 == inPage + 1;
  }

  lemma {:induction false} ProgramWordsLoads(f: Flash, g: Flash, p: OutPipe, start: nat, c: nat, done: seq<byte>,
                                             rest: seq<byte>, extra: seq<byte>)
    requires Midway(f, g, start, c, done) && rest != [] && |rest| % 2 == 0
    requires EvenPackets(p) && Stream(p) == rest + extra
    requires start + |done| + |rest| <= |f.mem|
    ensures ProgramWords(g, p, |rest| / 2, start + |done|, start + c, (|done| - c) / 2) ==
            (true, Committed(f, start, done + rest))
    decreases |rest|
  {
    hide Put, Fill, Write, Erase, Loaded, Committed, Stream, EvenPackets, Filling, ProgramWords, Aligned, Midway,
         Refill, Peek16, Drop16;
    var lo, hi, rest' := rest[0], rest[1], rest[2..];
    var done' := done + [lo, hi];
    var q := Refill(p);
    assert rest + extra == [lo, hi] + (rest' + extra);
    WordRead(p, lo, hi, rest' + extra);
    MidwayBounds(f, g, start, c, done);
    var n := (|done| - c) / 2;
    ProgramWordsStep(g, p, |rest| / 2, start + |done|, start + c, n, q.value);
    assert |rest'| / 2 == |rest| / 2 - 1 && (|done'| - c) / 2 == n + 1;
    MidwayFill(f, g, start, c, done, lo, hi);
    assert done + rest == done' + rest' by { Assoc(done, [lo, hi], rest'); }
    var g' := Fill(g, start + |done|, Word(lo, hi));
    if rest' == [] {
      assert done' + rest' == done';
      PageDone(f, g', start, c, done');
    } else if |done'| == c + f.Page() {
      PageDone(f, g', start, c, done');
      MidwayNext(f, start, done');
      ProgramWordsLoads(f, Erase(Committed(f, start, done'), start + |done'|), Drop16(q.value), start, |done'|, done',
                        rest', extra);
    } else {
      MidwaySame(f, g', start, c, done');
      ProgramWordsLoads(f, g', Drop16(q.value), start, c, done', rest', extra);
    }
  }

  lemma MidwaySame(f: Flash, g: Flash, start: nat, c: nat, done: seq<byte>)
    requires c <= |done| < c + f.Page()
    requires Filling(Committed(f, start, done[..c]), g, start + c, done[c..])
    ensures Midway(f, g, start, c, done)
  {
  }

  lemma MidwayBounds(f: Flash, g: Flash, start: nat, c: nat, done: seq<byte>)
    requires Midway(f, g, start, c, done)
    ensures Aligned(f.Page(), start + c) && start + c + f.Page() <= |f.mem| && g.Page() == f.Page()
    ensures Aligned(f.Page(), start + c + f.Page())
    ensures (|done| - c) % 2 == 0 && f.Page() % 2 == 0 && c <= |done| < c + f.Page()
  {
    AlignedSum(f.Page(), start + c, f.Page());
  }

  // ---- The requests -----------------------------------------------------------

  /** The state after the parameters from the `i`-th on have been read. */
  function AfterParameters(d: Device, p: OutPipe, i: nat): (Device, OutPipe)
    requires i <= 5 && |p.bank| >= 5 - i && 5 - i <= d.dataSize
  {
    (d.(data := d.data[..i] + p.bank[..5 - i], dataSize := d.dataSize - (5 - i)), p.(bank := p.bank[5 - i..]))
  }

  lemma AfterParametersStep(d: Device, p: OutPipe, i: nat)
    requires i < 5 && |p.bank| >= 5 - i && 5 - i <= d.dataSize
    ensures AfterParameters(d.(data := d.data[i := p.bank[0]], dataSize := d.dataSize - 1), Drop8(p), i + 1) ==
            AfterParameters(d, p, i)
  {
    ShiftOne(d.data, i, p.bank, 5 - i);
  }

  lemma {:induction false} ParametersRead(d: Device, p: OutPipe, i: nat)
    requires i <= 5 && |p.bank| >= 5 - i && 5 - i <= d.dataSize < U16
    ensures ReadParameters(d, p, i) == AfterParameters(d, p, i)
    decreases 5 - i
  {
    if i == 5 {
      assert d.data[..5] + p.bank[..0] == d.data;
    } else {
      hide ReadParameters, AfterParameters;
      ParameterStep(d, p, i);
      ParametersRead(d.(data := d.data[i := p.bank[0]], dataSize := d.dataSize - 1), Drop8(p), i + 1);
      AfterParametersStep(d, p, i);
    }
  }

  lemma SizeStep(n: nat)
    requires 1 <= n < U16
    ensures (n + U16 - 1) % U16 == n - 1
  {
  }

  lemma ParameterStep(d: Device, p: OutPipe, i: nat)
    requires i < 5 && p.bank != [] && 1 <= d.dataSize < U16
    ensures ReadParameters(d, p, i) ==
            ReadParameters(d.(data := d.data[i := p.bank[0]], dataSize := d.dataSize - 1), Drop8(p), i + 1)
  {
    SizeStep(d.dataSize);
  }

  lemma ShiftOne(s: seq<byte>, i: nat, t: seq<byte>, n: nat)
    requires i < |s| && 0 < n <= |t|
    ensures s[i := t[0]][..i + 1] + t[1..][..n - 1] == s[..i] + t[..n]
    ensures t[1..][n - 1..] == t[n..]
  {
  }

  /** A first packet with a command, its five parameters and `filler`. */
  function CommandPacket(command: byte, parameters: seq<byte>, filler: seq<byte>): seq<byte> {
    [command] + parameters + filler
  }

  lemma PacketParts(command: byte, ps: seq<byte>, filler: seq<byte>)
    requires |ps| == 5
    ensures var packet := CommandPacket(command, ps, filler);
            packet != [] && packet[0] == command && packet[1..] == ps + filler
    ensures (ps + filler)[..5] == ps && (ps + filler)[5..] == filler
  {
  }

  lemma CommandRead(d: Device, command: byte, ps: seq<byte>, filler: seq<byte>, queue: Packets)
    requires |ps| == 5 && 6 <= d.dataSize < U16
    ensures ReadCommand(d, OutPipe(CommandPacket(command, ps, filler), queue)) ==
            (d.(command := command, data := ps, dataSize := d.dataSize - 6), OutPipe(filler, queue))
  {
    hide ReadParameters, CommandPacket;
    var p := OutPipe(CommandPacket(command, ps, filler), queue);
    PacketParts(command, ps, filler);
    SizeStep(d.dataSize);
    ParametersRead(d.(command := command, dataSize := d.dataSize - 1), OutPipe(ps + filler, queue), 0);
    assert d.data[..0] + ps == ps;
  }

  /** A DFU_DNLOAD request that starts with a command packet. */
  lemma CommandHandled(part: Part, d: Device, command: byte, ps: seq<byte>, filler: seq<byte>, queue: Packets,
                       wLength: nat)
    requires !d.waitForExit && |ps| == 5 && 6 <= wLength < U16
    ensures Handle(part, d, Request(Dnload, wLength, [CommandPacket(command, ps, filler)] + queue, 0)) ==
            (FinishDownload(ProcessCommand(part, d.(dataSize := wLength - 6, command := command, data := ps)),
                            OutPipe(filler, queue)), [])
  {
    hide FinishDownload, ProcessCommand, ReadCommand, CommandPacket;
    var packet := CommandPacket(command, ps, filler);
    assert ([packet] + queue)[1..] == queue;
    CommandRead(d.(dataSize := wLength), command, ps, filler, queue);
  }

  lemma WordSplit(a: nat)
    requires a < U16
    ensures Word(Lo(a), Hi(a)) == a
  {
  }

  lemma {:induction false} DiscardBank(p: OutPipe)
    ensures Discard(p, |p.bank|) == p.(bank := [])
    decreases |p.bank|
  {
    if p.bank != [] {
      DiscardBank(Drop8(p));
    }
  }

  /** Parameters that name the memory `kind` from `start` to `end`, both included. */
  function Range(kind: byte, start: nat, end: nat): (ps: seq<byte>)
    ensures |ps| == 5
  {
    [kind, Hi(start), Lo(start), Hi(end), Lo(end)]
  }

  /** The device is unlocked, not about to exit, and has nothing pending. */
  predicate Ready(d: Device) {
    !d.secure && !d.waitForExit && BufferBlank(d.flash)
  }

  /** DFU_DNLOAD with a program command for flash (0) or EEPROM (1): header packet, then packets of firmware. */
  function ProgramRequest(kind: byte, start: nat, end: nat, filler: seq<byte>, packets: Packets, wLength: nat): Request
  {
    Request(Dnload, wLength, [CommandPacket(COMMAND_PROG_START, Range(kind, start, end), filler)] + packets, 0)
  }

  /** The device when the firmware itself is about to be received. */
  lemma ProgramHeader(part: Part, d: Device, start: nat, end: nat, filler: seq<byte>, packets: Packets, wLength: nat)
    requires Ready(d) && start <= end < U16 && 6 < wLength < U16
    ensures var e := d.(dataSize := wLength - 6, command := COMMAND_PROG_START, data := Range(0, start, end),
                        startAddr := start, endAddr := end, state := DnloadIdle,
                        flash := Erase(d.flash, FlashAddress(d, start)));
            Handle(part, d, ProgramRequest(0, start, end, filler, packets, wLength)) ==
            (ReceiveFirmware(e, OutPipe(filler, packets)), [])
  {
    hide ReceiveFirmware, Erase, Handle, CommandPacket, Word, Lo, Hi, ProcessMemRead, ProcessWrite, ProcessRead;
    CommandHandled(part, d, COMMAND_PROG_START, Range(0, start, end), filler, packets, wLength);
    WordSplit(start);
    WordSplit(end);
  }

  lemma FirmwareReceived(d: Device, e: Device, payload: seq<byte>, filler: seq<byte>, packets: Packets,
                         suffix: seq<byte>)
    requires BufferBlank(d.flash) && |filler| == FILLER_BYTES_SIZE
    requires payload != [] && |payload| % 2 == 0 && e.startAddr + |payload| - 1 == e.endAddr && |payload| < U16
    requires e.data[0] == 0 && e.startAddr % ENDPOINT_SIZE == 0
    requires var a := FlashAddress(e, e.startAddr);
             Aligned(d.flash.Page(), a) && a + |payload| <= |d.flash.mem| && e.flash == Erase(d.flash, a)
    requires EvenPackets(OutPipe([], packets)) && Flatten(packets) == payload + suffix
    ensures ReceiveFirmware(e, OutPipe(filler, packets)) ==
            e.(flash := Committed(d.flash, FlashAddress(e, e.startAddr), payload), startAddr := e.endAddr)
  {
    hide ProgramWords, Erase, Committed, Discard;
    var a := FlashAddress(e, e.startAddr);
    DiscardBank(OutPipe(filler, packets));
    var p := OutPipe([], packets);
    assert Discard(p, 0) == p by { DiscardNothing(p); }
    assert Stream(p) == payload + suffix;
    MidwayStart(d.flash, a);
    ProgramWordsLoads(d.flash, e.flash, p, a, 0, [], payload, suffix);
    assert [] + payload == payload;
    assert BytesRemaining(e) == |payload|;
  }

  lemma DiscardNothing(p: OutPipe)
    ensures Discard(p, 0) == p
  {
  }

  lemma MidwayStart(f: Flash, a: nat)
    requires BufferBlank(f) && Aligned(f.Page(), a) && a < |f.mem|
    ensures Midway(f, Erase(f, a), a, 0, [])
  {
    hide Erase, Put;
    LoadedNothing(f.Page(), f.mem, a);
    StartFilling(f, a);
  }

  lemma AlignedForEndpoint(p: nat, page64: nat, start: nat)
    requires (p == 128 || p == 256) && Aligned(p, page64 * 0x10000 + start)
    ensures start % ENDPOINT_SIZE == 0
  {
    hide Base;
    var a := page64 * 0x10000 + start;
    BaseRemainder(p, a);
    if p == 128 {
      assert start == 32 * (4 * (a / 128) - 2048 * page64);
    } else {
      assert start == 32 * (8 * (a / 256) - 2048 * page64);
    }
  }

  /**
   Programming: for a page-aligned start and any even payload, however the firmware is
   cut into packets of even size, flash holds the payload, then 0xFF to the end of its
   last page, and is otherwise unchanged.
   */
  lemma DfuPrograms(part: Part, d: Device, start: nat, payload: seq<byte>, filler: seq<byte>, packets: Packets,
                    suffix: seq<byte>, wLength: nat)
    requires Ready(d) && payload != [] && |payload| % 2 == 0 && |payload| < U16 && start + |payload| <= U16
    requires Aligned(d.flash.Page(), FlashAddress(d, start)) && FlashAddress(d, start) + |payload| <= |d.flash.mem|
    requires |filler| == FILLER_BYTES_SIZE && 6 < wLength < U16
    requires EvenPackets(OutPipe([], packets)) && Flatten(packets) == payload + suffix
    ensures var end := start + |payload| - 1;
            var (e, out) := Handle(part, d, ProgramRequest(0, start, end, filler, packets, wLength));
            && out == [] && Ready(e) && e.state.DnloadIdle? && e.startAddr == e.endAddr == end
            && e.page64 == d.page64 && e.eeprom == d.eeprom
            && e.flash == Committed(d.flash, FlashAddress(d, start), payload)
  {
    hide Erase, Committed, ReceiveFirmware, Handle;
    var end := start + |payload| - 1;
    ProgramHeader(part, d, start, end, filler, packets, wLength);
    AlignedForEndpoint(d.flash.Page(), d.page64, start);
    var e := d.(dataSize := wLength - 6, command := COMMAND_PROG_START, data := Range(0, start, end),
                startAddr := start, endAddr := end, state := DnloadIdle,
                flash := Erase(d.flash, FlashAddress(d, start)));
    FirmwareReceived(d, e, payload, filler, packets, suffix);
    CommittedBlank(d.flash, FlashAddress(d, start), payload);
  }

  lemma CommittedBlank(f: Flash, start: nat, data: seq<byte>)
    ensures BufferBlank(Committed(f, start, data)) && |Committed(f, start, data).mem| == |f.mem|
  {
  }

  // ---- Reading back -----------------------------------------------------------

  /** The bytes read so far and to come, whole packets but for the last. */
  predicate Uploaded(r: (bool, Packets, seq<byte>), bytes: seq<byte>) {
    && r.0 && Flatten(r.1) + r.2 == bytes
    && (forall k :: k in r.1 ==> |k| == ENDPOINT_SIZE)
    && |r.2| <= ENDPOINT_SIZE && (bytes != [] ==> r.2 != [])
  }

  lemma UploadedFull(bank: seq<byte>, r: (bool, Packets, seq<byte>), bytes: seq<byte>)
    requires |bank| == ENDPOINT_SIZE && Uploaded(r, bytes) && bytes != []
    ensures Uploaded((r.0, [bank] + r.1, r.2), bank + bytes)
  {
    assert ([bank] + r.1)[1..] == r.1;
    Assoc(bank, Flatten(r.1), r.2);
  }

  lemma TakeTwo(m: seq<byte>, a: nat, n: nat)
    requires 2 <= n && a + n <= |m|
    ensures m[a..a + n] == [m[a], m[a + 1]] + m[a + 2..a + n]
  {
  }

  lemma {:induction false} ReadWordsReads(f: Flash, addr: nat, words: nat, bank: seq<byte>, polls: nat)
    requires addr + 2 * words <= |f.mem| && |bank| <= ENDPOINT_SIZE && |bank| % 2 == 0 && polls >= words
    ensures Uploaded(ReadWords(f, addr, words, bank, polls), bank + f.mem[addr..addr + 2 * words])
    decreases words
  {
    hide Uploaded;
    if words == 0 {
      assert bank + f.mem[addr..addr] == bank;
      NothingUploaded(bank);
    } else {
      var w := [f.mem[addr], f.mem[addr + 1]];
      var rest := f.mem[addr + 2..addr + 2 * words];
      TakeTwo(f.mem, addr, 2 * words);
      if |bank| == ENDPOINT_SIZE {
        ReadWordsReads(f, addr + 2, words - 1, w, polls - 1);
        UploadedFull(bank, ReadWords(f, addr + 2, words - 1, w, polls - 1), w + rest);
      } else {
        ReadWordsReads(f, addr + 2, words - 1, bank + w, polls);
        Assoc(bank, w, rest);
      }
    }
  }

  lemma NothingUploaded(bank: seq<byte>)
    requires |bank| <= ENDPOINT_SIZE
    ensures Uploaded((true, [], bank), bank)
  {
    assert [] + bank == bank;
  }

  /** DFU_DNLOAD with a display command for a range of flash (0) or EEPROM (2). */
  function DisplayRequest(kind: byte, start: nat, end: nat): Request {
    Request(Dnload, 6, [CommandPacket(COMMAND_DISP_DATA, Range(kind, start, end), [])], 0)
  }

  lemma DisplayHeader(part: Part, d: Device, kind: byte, start: nat, end: nat)
    requires !d.secure && !d.waitForExit && start <= end < U16 && (kind == 0 || kind == 2)
    ensures Handle(part, d, DisplayRequest(kind, start, end)) ==
            (d.(dataSize := 0, command := COMMAND_DISP_DATA, data := Range(kind, start, end),
                startAddr := start, endAddr := end, state := UploadIdle), [])
  {
    hide Handle, CommandPacket, Word, Lo, Hi, ProcessMemProg, ProcessWrite, ProcessRead, FirstUsed;
    var packets := DisplayRequest(kind, start, end).packets;
    assert packets + [] == packets;
    CommandHandled(part, d, COMMAND_DISP_DATA, Range(kind, start, end), [], [], 6);
    WordSplit(start);
    WordSplit(end);
  }

  /** DFU_UPLOAD of flash, in terms of its reading loop. */
  lemma UploadHandled(part: Part, d: Device, polls: nat, wLength: nat)
    requires d.state.UploadIdle? && d.data[0] == 0 && polls > 0
    requires ReadWords(d.flash, FlashAddress(d, d.startAddr), BytesRemaining(d) / 2, [], polls - 1).0
    ensures var r := ReadWords(d.flash, FlashAddress(d, d.startAddr), BytesRemaining(d) / 2, [], polls - 1);
            Handle(part, d, Request(Upload, wLength, [], polls)) ==
            (d.(dataSize := wLength % U16, startAddr := d.endAddr, state := Idle), r.1 + [r.2])
  {
    hide ReadWords, HandleDnload;
  }

  /** All packets are full but the last, which is neither empty nor too long. */
  predicate FullButLast(out: Packets) {
    && out != [] && 0 < |out[|out| - 1]| <= ENDPOINT_SIZE
    && forall i :: 0 <= i < |out| - 1 ==> |out[i]| == ENDPOINT_SIZE
  }

  lemma UploadedPackets(r: (bool, Packets, seq<byte>), bytes: seq<byte>)
    requires Uploaded(r, bytes) && bytes != []
    ensures r.0 && Flatten(r.1 + [r.2]) == bytes && FullButLast(r.1 + [r.2])
  {
    FlattenSnoc(r.1, r.2);
  }

  /** Reading: the packets of an upload hold the requested range, all full but the last. */
  lemma DfuReads(part: Part, d: Device, start: nat, n: nat, polls: nat, wLength: nat)
    requires Ready(d) && 0 < n < U16 && n % 2 == 0 && start + n <= U16
    requires FlashAddress(d, start) + n <= |d.flash.mem| && polls > n
    ensures var a := FlashAddress(d, start);
            var (e, none) := Handle(part, d, DisplayRequest(0, start, start + n - 1));
            var (g, out) := Handle(part, e, Request(Upload, wLength, [], polls));
            g.state.Idle? && g.flash == d.flash && Flatten(out) == d.flash.mem[a..a + n] && FullButLast(out)
  {
    hide ReadWords, Handle, FullButLast, Ready, Uploaded, Flatten, BytesRemaining;
    var a, bytes := FlashAddress(d, start), d.flash.mem[FlashAddress(d, start)..FlashAddress(d, start) + n];
    HalfTwice(n);
    ReadWordsReads(d.flash, a, n / 2, [], polls - 1);
    assert a + 2 * (n / 2) == a + n && [] + bytes == bytes;
    UploadedPackets(ReadWords(d.flash, a, n / 2, [], polls - 1), bytes);
    ReadyUnlocked(d);
    DisplayHeader(part, d, 0, start, start + n - 1);
    var e := Handle(part, d, DisplayRequest(0, start, start + n - 1)).0;
    Remaining(e, start, n);
    UploadHandled(part, e, polls, wLength);
  }

  lemma ReadyUnlocked(d: Device)
    requires Ready(d)
    ensures !d.secure && !d.waitForExit
  {
  }

  lemma HalfTwice(n: nat)
    requires n % 2 == 0
    ensures 2 * (n / 2) == n
  {
  }

  lemma Remaining(e: Device, start: nat, n: nat)
    requires e.startAddr == start && e.endAddr == start + n - 1 && 0 < n < U16
    ensures BytesRemaining(e) == n
  {
  }

  /** Programming a payload and reading the same range back returns the payload. */
  lemma DfuRoundTrip(part: Part, d: Device, start: nat, payload: seq<byte>, filler: seq<byte>, packets: Packets,
                     suffix: seq<byte>, wLength: nat, polls: nat)
    requires Ready(d) && payload != [] && |payload| % 2 == 0 && |payload| < U16 && start + |payload| <= U16
    requires Aligned(d.flash.Page(), FlashAddress(d, start)) && FlashAddress(d, start) + |payload| <= |d.flash.mem|
    requires |filler| == FILLER_BYTES_SIZE && 6 < wLength < U16 && polls > |payload|
    requires EvenPackets(OutPipe([], packets)) && Flatten(packets) == payload + suffix
    ensures var end := start + |payload| - 1;
            var (e0, o0) := Handle(part, d, ProgramRequest(0, start, end, filler, packets, wLength));
            var (e1, o1) := Handle(part, e0, DisplayRequest(0, start, end));
            var (e2, out) := Handle(part, e1, Request(Upload, |payload|, [], polls));
            && Flatten(out) == payload && e2.state.Idle?
            && e2.flash == Committed(d.flash, FlashAddress(d, start), payload)
  {
    hide Handle, Committed, Ready;
    var end, a := start + |payload| - 1, FlashAddress(d, start);
    DfuPrograms(part, d, start, payload, filler, packets, suffix, wLength);
    CommittedBlank(d.flash, a, payload);
    DfuReads(part, Handle(part, d, ProgramRequest(0, start, end, filler, packets, wLength)).0,
             start, |payload|, polls, |payload|);
    CommittedHolds(d.flash, a, payload);
  }

  // ---- Blank check ------------------------------------------------------------

  lemma {:induction false} FirstUsedIsLeast(f: Flash, boot: nat, a: nat)
    ensures match FirstUsed(f, boot, a)
            case None => forall i :: a <= i < boot ==> ReadByte(f, i) == 255
            case Some(u) => a <= u < boot && ReadByte(f, u) != 255 && forall i :: a <= i < u ==> ReadByte(f, i) == 255
    decreases boot - a
  {
    if a < boot {
      FirstUsedIsLeast(f, boot, a + 1);
    }
  }

  /** DFU_DNLOAD with a blank check command. */
  const BLANK_CHECK_REQUEST := Request(Dnload, 6, [CommandPacket(COMMAND_DISP_DATA, [1, 0, 0, 0, 0], [])], 0)

  /** `a` is the least application address that is not blank. */
  predicate LeastUsed(f: Flash, boot: nat, a: nat) {
    && a < boot <= |f.mem| && f.mem[a] != 255
    && forall i :: 0 <= i < a ==> f.mem[i] == 255
  }

  predicate BlankApplication(f: Flash, boot: nat) {
    boot <= |f.mem| && forall i :: 0 <= i < boot ==> f.mem[i] == 255
  }

  lemma FirstUsedMeans(f: Flash, boot: nat)
    requires boot <= |f.mem|
    ensures match FirstUsed(f, boot, 0)
            case None => BlankApplication(f, boot)
            case Some(a) => LeastUsed(f, boot, a) && !BlankApplication(f, boot)
  {
    hide FirstUsed;
    FirstUsedIsLeast(f, boot, 0);
    forall i | 0 <= i < boot ensures ReadByte(f, i) == f.mem[i] {
    }
  }

  lemma BlankCheckHandled(part: Part, d: Device)
    requires !d.secure && !d.waitForExit
    ensures var s := d.(dataSize := 0, command := COMMAND_DISP_DATA, data := [1, 0, 0, 0, 0]);
            Handle(part, d, BLANK_CHECK_REQUEST).0 ==
            match FirstUsed(d.flash, part.boot, 0)
            case None => if d.state.DnloadIdle? then s.(state := Idle) else s
            case Some(a) => s.(state := Error, status := ErrCheckErased, startAddr := a % U16,
                               page64 := a / 0x10000 % 256)
  {
    hide FirstUsed, Handle, CommandPacket, ProcessMemProg, ProcessWrite, ProcessRead;
    assert BLANK_CHECK_REQUEST.packets + [] == BLANK_CHECK_REQUEST.packets;
    CommandHandled(part, d, COMMAND_DISP_DATA, [1, 0, 0, 0, 0], [], [], 6);
  }

  /**
   Blank check reports the least application address that is not 0xFF, split into its
   64 KB page and the address in it; if there is none it reports no error.
   */
  lemma BlankCheckFinds(part: Part, d: Device)
    requires !d.secure && !d.waitForExit && part.boot <= |d.flash.mem| <= 0x100_0000
    ensures var e := Handle(part, d, BLANK_CHECK_REQUEST).0;
            if BlankApplication(d.flash, part.boot)
            then e.status == d.status && e.state == (if d.state.DnloadIdle? then Idle else d.state)
            else e.state.Error? && e.status.ErrCheckErased? &&
                 LeastUsed(d.flash, part.boot, FlashAddress(e, e.startAddr))
    ensures Handle(part, d, BLANK_CHECK_REQUEST).0.flash == d.flash
  {
    hide Handle, FirstUsed, LeastUsed, BlankApplication;
    BlankCheckHandled(part, d);
    FirstUsedMeans(d.flash, part.boot);
    if FirstUsed(d.flash, part.boot, 0).Some? {
      AddressSplit(d.flash, part.boot, FirstUsed(d.flash, part.boot, 0).value);
    }
  }

  lemma AddressSplit(f: Flash, boot: nat, a: nat)
    requires LeastUsed(f, boot, a) && |f.mem| <= 0x100_0000
    ensures a / 0x10000 % 256 * 0x10000 + a % U16 == a
  {
  }

  /** DFU_DNLOAD with a chip erase command. */
  const ERASE_REQUEST := Request(Dnload, 6, [CommandPacket(COMMAND_WRITE, [0, 255, 0, 0, 0], [])], 0)

  /** A blank check after a chip erase reports no error, whatever was in flash before. */
  lemma BlankAfterErase(part: Part, d: Device)
    requires !d.waitForExit && BufferBlank(d.flash) && ValidPart(part, d) && |d.flash.mem| <= 0x100_0000
    ensures var e := Handle(part, d, ERASE_REQUEST).0;
            var g := Handle(part, e, BLANK_CHECK_REQUEST).0;
            && Wiped(part, d, e) && !e.secure
            && g.state == (if d.state.DnloadIdle? then Idle else d.state) && g.status == d.status && g.flash == e.flash
  {
    hide EraseFrom, FirstUsed, Handle, CommandPacket, ProcessMemProg, ProcessMemRead, ProcessRead;
    assert ERASE_REQUEST.packets + [] == ERASE_REQUEST.packets;
    CommandHandled(part, d, COMMAND_WRITE, [0, 255, 0, 0, 0], [], [], 6);
    EraseAll(d.flash, part.boot, 0);
    var e := Handle(part, d, ERASE_REQUEST).0;
    assert e == d.(dataSize := 0, command := COMMAND_WRITE, data := [0, 255, 0, 0, 0],
                   flash := EraseFrom(d.flash, part.boot, 0), secure := false,
                   state := if d.state.DnloadIdle? then Idle else d.state);
    BlankCheckFinds(part, e);
  }

  // ---- Starts that are not on a packet boundary -------------------------------

  /**
   The alignment padding in front of a firmware image is not discarded whole: the header
   fills its packet, so the first count goes to the packet switch and one padding byte
   is left in front of the firmware.
   */
  lemma PaddingByteLeft(filler: seq<byte>, packet: seq<byte>, queue: Packets, k: nat)
    requires |filler| == FILLER_BYTES_SIZE && 0 < k < ENDPOINT_SIZE && k <= |packet|
    ensures Discard(Discard(OutPipe(filler, [packet] + queue), FILLER_BYTES_SIZE), k) ==
            OutPipe(packet[k - 1..], queue)
  {
    hide Discard;
    DiscardBank(OutPipe(filler, [packet] + queue));
    DiscardSwitch(packet, queue, k);
    DiscardSome(OutPipe(packet, queue), k - 1);
  }

  /** So the padding is gone, and the firmware next, if and only if there is none. */
  lemma PaddingDiscardedIff(filler: seq<byte>, packet: seq<byte>, queue: Packets, k: nat)
    requires |filler| == FILLER_BYTES_SIZE && k < ENDPOINT_SIZE && k <= |packet|
    ensures var p := Discard(Discard(OutPipe(filler, [packet] + queue), FILLER_BYTES_SIZE), k);
            Stream(p) == packet[k..] + Flatten(queue) <==> k == 0
  {
    if k == 0 {
      hide Discard, Flatten;
      DiscardBank(OutPipe(filler, [packet] + queue));
      DiscardNothing(OutPipe([], [packet] + queue));
      FlattenCons(packet, queue);
      assert [] + Flatten([packet] + queue) == packet[0..] + Flatten(queue);
    } else {
      hide Discard, Flatten;
      PaddingByteLeft(filler, packet, queue, k);
      assert |packet[k - 1..] + Flatten(queue)| == |packet[k..] + Flatten(queue)| + 1;
    }
  }

  lemma DiscardSwitch(packet: seq<byte>, queue: Packets, k: nat)
    requires k > 0
    ensures Discard(OutPipe([], [packet] + queue), k) == Discard(OutPipe(packet, queue), k - 1)
  {
    assert ([packet] + queue)[1..] == queue;
  }

  lemma {:induction false} DiscardSome(p: OutPipe, n: nat)
    requires n <= |p.bank|
    ensures Discard(p, n) == p.(bank := p.bank[n..])
    decreases n
  {
    if n > 0 {
      DiscardSome(Drop8(p), n - 1);
    }
  }
}
