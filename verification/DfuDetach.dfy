/**
 DFU transfers that do not go to their end: the host detaches in the middle of one, or
 announces a number of bytes that is not even.
 */
module DfuDetach {
  import opened Avr
  import opened Basics
  import opened Bits
  import opened Dfu
  import opened DfuEeprom
  import opened DfuProgram
  import opened Usb

  // ---- Programming ------------------------------------------------------------

  lemma WaitsForWords(g: Flash, p: OutPipe, words: nat, addr: nat, pageStart: nat, inPage: nat)
    requires words > 0 && Refill(p).None?
    ensures ProgramWords(g, p, words, addr, pageStart, inPage) == (false, g)
  {
  }

  /** The loop stops where the data does, in the middle of a download. */
  lemma {:induction false} ProgramWordsStops(f: Flash, g: Flash, p: OutPipe, start: nat, c: nat, done: seq<byte>,
                                             rest: seq<byte>, words: nat) returns (page: nat, h: Flash)
    requires Midway(f, g, start, c, done) && |rest| % 2 == 0 && |rest| < 2 * words
    requires EvenPackets(p) && Stream(p) == rest && start + |done| + 2 * words <= |f.mem|
    ensures ProgramWords(g, p, words, start + |done|, start + c, (|done| - c) / 2) == (false, h)
    ensures Midway(f, h, start, page, done + rest)
    decreases |rest|
  {
    hide Put, Fill, Write, Erase, Loaded, Committed, Stream, EvenPackets, Filling, ProgramWords, Aligned, Midway,
      Refill, Peek16, Drop16;
    MidwayBounds(f, g, start, c, done);
    if rest == [] {
      assert done + rest == done;
      NoPacket(p);
      WaitsForWords(g, p, words, start + |done|, start + c, (|done| - c) / 2);
      page, h := c, g;
    } else {
      var lo, hi, rest' := rest[0], rest[1], rest[2..];
      var done' := done + [lo, hi];
      var q := Refill(p);
      assert rest == [lo, hi] + rest';
      WordRead(p, lo, hi, rest');
      var n := (|done| - c) / 2;
      ProgramWordsStep(g, p, words, start + |done|, start + c, n, q.value);
      assert (|done'| - c) / 2 == n + 1;
      MidwayFill(f, g, start, c, done, lo, hi);
      assert done + rest == done' + rest' by { Assoc(done, [lo, hi], rest'); }
      var g' := Fill(g, start + |done|, Word(lo, hi));
      if |done'| == c + f.Page() {
        PageDone(f, g', start, c, done');
        MidwayNext(f, start, done');
        page, h := ProgramWordsStops(f, Erase(Committed(f, start, done'), start + |done'|), Drop16(q.value), start,
                                     |done'|, done', rest', words - 1);
      } else {
        MidwaySame(f, g', start, c, done');
        page, h := ProgramWordsStops(f, g', Drop16(q.value), start, c, done', rest', words - 1);
      }
    }
  }

  /**
   The host detaches after some of the firmware: its whole pages are in flash, the page at
   hand is erased and its part waits in the buffer, and the address has not moved.
   */
  lemma ProgramStops(part: Part, d: Device, start: nat, n: nat, received: seq<byte>, filler: seq<byte>,
                     packets: Packets, wLength: nat) returns (page: nat, e: Device)
    requires Ready(d) && 0 < n < U16 && n % 2 == 0 && start + n <= U16 && |received| % 2 == 0 && |received| < n
    requires Aligned(d.flash.Page(), FlashAddress(d, start)) && FlashAddress(d, start) + n <= |d.flash.mem|
    requires |filler| == FILLER_BYTES_SIZE && 6 < wLength < U16
    requires EvenPackets(OutPipe([], packets)) && Flatten(packets) == received
    ensures e == Handle(part, d, ProgramRequest(0, start, start + n - 1, filler, packets, wLength)).0
    ensures Midway(d.flash, e.flash, FlashAddress(d, start), page, received)
    ensures e.startAddr == start && e.endAddr == start + n - 1 && e.state.DnloadIdle? && e.eeprom == d.eeprom
  {
    hide Erase, Committed, ReceiveFirmware, Handle, Midway, ProgramWords, EvenPackets;
    var a, end := FlashAddress(d, start), start + n - 1;
    ProgramHeader(part, d, start, end, filler, packets, wLength);
    AlignedForEndpoint(d.flash.Page(), d.page64, start);
    var g := d.(dataSize := wLength - 6, command := COMMAND_PROG_START, data := Range(0, start, end),
                startAddr := start, endAddr := end, state := DnloadIdle, flash := Erase(d.flash, a));
    MidwayStart(d.flash, a);
    var p := OutPipe([], packets);
    assert Stream(p) == received;
    var h;
    page, h := ProgramWordsStops(d.flash, g.flash, p, a, 0, [], received, n / 2);
    assert [] + received == received;
    FirmwareStops(g, n, filler, packets, h);
    e := g.(flash := h);
  }

  lemma FirmwareStops(e: Device, n: nat, filler: seq<byte>, packets: Packets, h: Flash)
    requires |filler| == FILLER_BYTES_SIZE && e.data[0] == 0 && e.startAddr % ENDPOINT_SIZE == 0
    requires 0 < n < U16 && e.endAddr == e.startAddr + n - 1
    requires var a := FlashAddress(e, e.startAddr);
             ProgramWords(e.flash, OutPipe([], packets), n / 2, a, a, 0) == (false, h)
    ensures ReceiveFirmware(e, OutPipe(filler, packets)) == e.(flash := h)
  {
    hide ProgramWords, Discard, BytesRemaining;
    DiscardBank(OutPipe(filler, packets));
    DiscardNothing(OutPipe([], packets));
    Remaining(e, e.startAddr, n);
  }

  // ---- Odd numbers of bytes ---------------------------------------------------

  /**
   A payload of odd length loses its last byte: flash is as if it had never been sent, and
   still the address reaches the end.
   */
  lemma OddPrograms(part: Part, d: Device, start: nat, payload: seq<byte>, filler: seq<byte>, packets: Packets,
                    suffix: seq<byte>, wLength: nat) returns (e: Device)
    requires Ready(d) && |payload| % 2 == 1 && 3 <= |payload| < U16 && start + |payload| <= U16
    requires Aligned(d.flash.Page(), FlashAddress(d, start)) && FlashAddress(d, start) + |payload| <= |d.flash.mem|
    requires |filler| == FILLER_BYTES_SIZE && 6 < wLength < U16
    requires EvenPackets(OutPipe([], packets)) && Flatten(packets) == payload + suffix
    ensures e == Handle(part, d, ProgramRequest(0, start, start + |payload| - 1, filler, packets, wLength)).0
    ensures e.flash == Committed(d.flash, FlashAddress(d, start), payload[..|payload| - 1])
    ensures e.startAddr == e.endAddr == start + |payload| - 1 && e.state.DnloadIdle? && e.eeprom == d.eeprom
  {
    hide Erase, Committed, ReceiveFirmware, Handle, Midway, ProgramWords;
    var n := |payload|;
    var a, end, kept, more := FlashAddress(d, start), start + n - 1, payload[..n - 1], [payload[n - 1]] + suffix;
    ProgramHeader(part, d, start, end, filler, packets, wLength);
    AlignedForEndpoint(d.flash.Page(), d.page64, start);
    var g := d.(dataSize := wLength - 6, command := COMMAND_PROG_START, data := Range(0, start, end),
                startAddr := start, endAddr := end, state := DnloadIdle, flash := Erase(d.flash, a));
    MidwayStart(d.flash, a);
    var p := OutPipe([], packets);
    assert Stream(p) == kept + more;
    ProgramWordsLoads(d.flash, g.flash, p, a, 0, [], kept, more);
    assert [] + kept == kept && |kept| / 2 == n / 2;
    FirmwareDone(g, n, filler, packets, Committed(d.flash, a, kept));
    e := g.(flash := Committed(d.flash, a, kept), startAddr := end);
  }

  /** A payload of a single byte erases its page and is not stored at all. */
  lemma SingleByte(part: Part, d: Device, start: nat, filler: seq<byte>, packets: Packets, wLength: nat)
    returns (e: Device)
    requires Ready(d) && start < U16 && |filler| == FILLER_BYTES_SIZE && 6 < wLength < U16
    requires Aligned(d.flash.Page(), FlashAddress(d, start)) && FlashAddress(d, start) < |d.flash.mem|
    ensures e == Handle(part, d, ProgramRequest(0, start, start, filler, packets, wLength)).0
    ensures Filling(d.flash, e.flash, FlashAddress(d, start), []) && e.startAddr == e.endAddr == start
  {
    hide Erase, ReceiveFirmware, Handle, Filling;
    var a := FlashAddress(d, start);
    ProgramHeader(part, d, start, start, filler, packets, wLength);
    AlignedForEndpoint(d.flash.Page(), d.page64, start);
    var g := d.(dataSize := wLength - 6, command := COMMAND_PROG_START, data := Range(0, start, start),
                startAddr := start, endAddr := start, state := DnloadIdle, flash := Erase(d.flash, a));
    FirmwareDone(g, 1, filler, packets, g.flash);
    StartFilling(d.flash, a);
    e := g;
  }

  lemma FirmwareDone(e: Device, n: nat, filler: seq<byte>, packets: Packets, h: Flash)
    requires |filler| == FILLER_BYTES_SIZE && e.data[0] == 0 && e.startAddr % ENDPOINT_SIZE == 0
    requires 0 < n < U16 && e.endAddr == e.startAddr + n - 1
    requires var a := FlashAddress(e, e.startAddr);
             ProgramWords(e.flash, OutPipe([], packets), n / 2, a, a, 0) == (true, h)
    ensures ReceiveFirmware(e, OutPipe(filler, packets)) == e.(flash := h, startAddr := e.endAddr)
  {
    hide ProgramWords, Discard, BytesRemaining;
    DiscardBank(OutPipe(filler, packets));
    DiscardNothing(OutPipe([], packets));
    Remaining(e, e.startAddr, n);
  }

  // ---- EEPROM -----------------------------------------------------------------

  lemma WaitsForBytes(e: seq<byte>, p: OutPipe, bytes: nat, addr: nat)
    requires bytes > 0 && Refill(p).None?
    ensures ProgramEeprom(e, p, bytes, addr) == (false, e, addr)
  {
  }

  lemma NoMorePackets(p: OutPipe)
    requires SomePackets(p) && Stream(p) == []
    ensures Refill(p).None?
  {
  }

  lemma PutNone(e: seq<byte>, a: nat)
    requires a <= |e|
    ensures Put(e, a, []) == e
  {
  }

  /** The EEPROM loop stops where the data does, with all of it stored. */
  lemma {:induction false} EepromStops(e: seq<byte>, p: OutPipe, a: nat, w: seq<byte>, bytes: nat)
    requires SomePackets(p) && Stream(p) == w && |w| < bytes && a + bytes <= |e| && a + bytes <= U16
    ensures ProgramEeprom(e, p, bytes, a) == (false, Put(e, a, w), a + |w|)
    decreases |w|
  {
    hide Stream, SomePackets, Refill, Peek8, Drop8, Put, StoreEeprom, ProgramEeprom;
    if w == [] {
      NoMorePackets(p);
      WaitsForBytes(e, p, bytes, a);
      PutNone(e, a);
    } else {
      var b, rest := w[0], w[1..];
      assert w == [b] + rest;
      ByteRead(p, b, rest);
      EepromStep(e, p, bytes, a);
      EepromStops(StoreEeprom(e, a, b), Drop8(Refill(p).value), a + 1, rest, bytes - 1);
      PutFirst(e, a, b, rest);
    }
  }

  lemma EepromStep(e: seq<byte>, p: OutPipe, bytes: nat, a: nat)
    requires Refill(p).Some? && bytes > 0 && a + 1 < U16
    ensures var q := Refill(p).value;
            ProgramEeprom(e, p, bytes, a) ==
            ProgramEeprom(StoreEeprom(e, a, Peek8(q)), Drop8(q), bytes - 1, a + 1)
  {
  }

  // ---- Reading ----------------------------------------------------------------

  /** Full packets that hold `bytes` in order, and then nothing: the host asks for no more. */
  predicate CutOff(r: (bool, Packets, seq<byte>), bytes: seq<byte>) {
    !r.0 && Flatten(r.1) == bytes && (forall k :: k in r.1 ==> |k| == ENDPOINT_SIZE) && r.2 == []
  }

  lemma CutOffFull(bank: seq<byte>, r: (bool, Packets, seq<byte>), bytes: seq<byte>)
    requires |bank| == ENDPOINT_SIZE && CutOff(r, bytes)
    ensures CutOff((r.0, [bank] + r.1, r.2), bank + bytes)
  {
    hide Flatten;
    FlattenCons(bank, r.1);
  }

  lemma CutOffNow(bank: seq<byte>)
    requires |bank| == ENDPOINT_SIZE
    ensures CutOff((false, [bank], []), bank)
  {
    assert [bank][1..] == [];
    assert Flatten([bank]) == bank;
  }

  /** One round of the reading loop. */
  lemma ReadRound(f: Flash, addr: nat, words: nat, bank: seq<byte>, polls: nat)
    requires words > 0 && addr + 2 <= |f.mem|
    ensures var w := [f.mem[addr], f.mem[addr + 1]];
            ReadWords(f, addr, words, bank, polls) ==
            if |bank| != ENDPOINT_SIZE then ReadWords(f, addr + 2, words - 1, bank + w, polls)
            else if polls == 0 then (false, [bank], [])
            else
              var r := ReadWords(f, addr + 2, words - 1, w, polls - 1);
              (r.0, [bank] + r.1, r.2)
  {
  }

  /** A host that asks for too few packets gets those, all full, and the loop stops. */
  lemma {:induction false} ReadWordsStops(f: Flash, addr: nat, words: nat, bank: seq<byte>, polls: nat, n: nat)
    requires addr + 2 * words <= |f.mem| && |bank| <= ENDPOINT_SIZE && |bank| % 2 == 0
    requires n == ENDPOINT_SIZE * (polls + 1) && |bank| + 2 * words > n
    ensures CutOff(ReadWords(f, addr, words, bank, polls), (bank + f.mem[addr..addr + 2 * words])[..n])
    decreases words
  {
    hide CutOff, ReadWords;
    var w, rest := [f.mem[addr], f.mem[addr + 1]], f.mem[addr + 2..addr + 2 * words];
    TakeTwo(f.mem, addr, 2 * words);
    ReadRound(f, addr, words, bank, polls);
    if |bank| != ENDPOINT_SIZE {
      ReadWordsStops(f, addr + 2, words - 1, bank + w, polls, n);
      Assoc(bank, w, rest);
    } else if polls == 0 {
      CutOffNow(bank);
      assert (bank + (w + rest))[..n] == bank;
    } else {
      ReadWordsStops(f, addr + 2, words - 1, w, polls - 1, n - ENDPOINT_SIZE);
      CutOffFull(bank, ReadWords(f, addr + 2, words - 1, w, polls - 1), (w + rest)[..n - ENDPOINT_SIZE]);
      assert (bank + (w + rest))[..n] == bank + (w + rest)[..n - ENDPOINT_SIZE];
    }
  }

  /**
   The host asks for fewer packets than the range has: it gets the beginning of the range in
   full packets, and the device stays in dfuUPLOAD-IDLE, its address not moved.
   */
  lemma UploadStops(part: Part, d: Device, start: nat, n: nat, polls: nat, wLength: nat)
    returns (e: Device, g: Device, out: Packets)
    requires !d.secure && !d.waitForExit && 0 < n < U16 && n % 2 == 0 && start + n <= U16
    requires FlashAddress(d, start) + n <= |d.flash.mem| && 0 < polls && ENDPOINT_SIZE * polls < n
    ensures e == Handle(part, d, DisplayRequest(0, start, start + n - 1)).0
    ensures (g, out) == Handle(part, e, Request(Upload, wLength, [], polls))
    ensures g == e.(dataSize := wLength % U16) && g.state.UploadIdle?
    ensures var a := FlashAddress(d, start);
            Flatten(out) == d.flash.mem[a..a + ENDPOINT_SIZE * polls] && forall k :: k in out ==> |k| == ENDPOINT_SIZE
  {
    hide ReadWords, Handle, Flatten, BytesRemaining;
    var a, m := FlashAddress(d, start), ENDPOINT_SIZE * polls;
    HalfTwice(n);
    ReadWordsStops(d.flash, a, n / 2, [], polls - 1, m);
    var bytes := d.flash.mem[a..a + n];
    assert a + 2 * (n / 2) == a + n && [] + bytes == bytes;
    FirstOf(d.flash.mem, a, n, m);
    DisplayHeader(part, d, 0, start, start + n - 1);
    e := Handle(part, d, DisplayRequest(0, start, start + n - 1)).0;
    Remaining(e, start, n);
    UploadCut(part, e, polls, wLength);
    var r := Handle(part, e, Request(Upload, wLength, [], polls));
    g, out := r.0, r.1;
  }

  lemma FirstOf(m: seq<byte>, a: nat, n: nat, k: nat)
    requires k <= n && a + n <= |m|
    ensures m[a..a + n][..k] == m[a..a + k]
  {
  }

  /** DFU_UPLOAD of flash whose reading loop stops. */
  lemma UploadCut(part: Part, d: Device, polls: nat, wLength: nat)
    requires d.state.UploadIdle? && d.data[0] == 0 && polls > 0
    requires !ReadWords(d.flash, FlashAddress(d, d.startAddr), BytesRemaining(d) / 2, [], polls - 1).0
    ensures var r := ReadWords(d.flash, FlashAddress(d, d.startAddr), BytesRemaining(d) / 2, [], polls - 1);
            Handle(part, d, Request(Upload, wLength, [], polls)) == (d.(dataSize := wLength % U16), r.1)
  {
    hide ReadWords, HandleDnload;
  }
}
