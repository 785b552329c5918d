/**
 When the DFU bootloader gives way to the application. Its main loop ends once RunBootloader
 and WaitForExit are both false: after a command to start the application by a jump, given
 while the first word of flash is blank, and the download that closes it. The watchdog form
 of the command resets the part instead.
 */
module DfuExit {
  import opened Avr
  import opened Basics
  import opened Bits
  import opened Dfu
  import opened DfuProgram
  import opened DfuSecure
  import opened Usb

  /** The test of the main loop. */
  predicate Left(d: Device) {
    !d.run && !d.waitForExit
  }

  // ---- What commands do to the flags ------------------------------------------

  /** The command at hand starts the application, in one of its forms. */
  predicate StartCommand(d: Device) {
    !d.secure && d.command == COMMAND_WRITE && d.data[0] == 3
  }

  /** It clears RunBootloader. */
  predicate StartsApplication(d: Device) {
    StartCommand(d) && d.dataSize == 0 && d.data[1] != 0 && ReadWord(d.flash, 0) == 0xFFFF
  }

  /** It starts the watchdog. */
  predicate ArmsWatchdog(d: Device) {
    StartCommand(d) && d.dataSize == 0 && d.data[1] == 0
  }

  /** Where the main loop jumps to at its end, after the command at hand. */
  function JumpTarget(d: Device): nat {
    if StartCommand(d) && d.dataSize != 0 && d.data[1] == 1 then Word(d.data[4], d.data[3]) else d.appStart
  }

  lemma WriteFlags(part: Part, d: Device)
    requires !d.secure && d.command == COMMAND_WRITE
    ensures var e := ProcessWrite(part, d);
            && e.dataSize == d.dataSize && e.run == (d.run && !StartsApplication(d))
            && e.waitForExit == (d.waitForExit || StartCommand(d))
            && e.watchdog == (d.watchdog || ArmsWatchdog(d)) && e.appStart == JumpTarget(d)
  {
    hide EraseFrom, ReadWord, Word;
  }

  lemma MemProgFlags(d: Device)
    ensures SameFlags(d, ProcessMemProg(d))
  {
    hide Erase, Word, FlashAddress;
  }

  lemma MemReadFlags(part: Part, d: Device)
    ensures SameFlags(d, ProcessMemRead(part, d))
  {
    hide FirstUsed, Word;
  }

  lemma ReadFlags(part: Part, d: Device)
    ensures SameFlags(d, ProcessRead(part, d))
  {
  }

  predicate SameFlags(d: Device, e: Device) {
    && e.run == d.run && e.waitForExit == d.waitForExit && e.watchdog == d.watchdog
    && e.dataSize == d.dataSize && e.appStart == d.appStart
  }

  lemma CommandFlags(part: Part, d: Device)
    ensures var e := ProcessCommand(part, d);
            && e.dataSize == d.dataSize && e.run == (d.run && !StartsApplication(d))
            && e.waitForExit == (d.waitForExit || StartCommand(d))
            && e.watchdog == (d.watchdog || ArmsWatchdog(d)) && e.appStart == JumpTarget(d)
  {
    hide ProcessMemProg, ProcessMemRead, ProcessWrite, ProcessRead, ReadWord;
    if !d.secure && d.command == COMMAND_WRITE {
      WriteFlags(part, d);
    } else {
      MemProgFlags(d);
      MemReadFlags(part, d);
      ReadFlags(part, d);
      SecureWrite(part, d);
    }
  }

  lemma SecureWrite(part: Part, d: Device)
    ensures d.data[0] == 0 && d.data[1] == 255 ==> SameFlags(d, ProcessWrite(part, d))
  {
    hide EraseFrom;
  }

  lemma FinishFlags(d: Device, p: OutPipe)
    ensures var e := FinishDownload(d, p);
            && e.run == d.run && e.waitForExit == d.waitForExit && e.watchdog == d.watchdog
            && e.appStart == d.appStart
  {
    hide ProgramWords, ProgramEeprom, Discard, BytesRemaining, FlashAddress;
  }

  // ---- What requests do to the flags ------------------------------------------

  /** The device once a command it was waiting to finish has been dealt with. */
  function Settled(part: Part, d: Device): Device {
    if d.waitForExit then ProcessCommand(part, d).(waitForExit := false) else d
  }

  /** The command that a request's first packet holds. */
  function Received(d: Device, packets: Packets): Device
    requires packets != []
  {
    ReadCommand(d, OutPipe(packets[0], packets[1..])).0
  }

  /** The device as a request finds it. */
  function Asked(d: Device, r: Request): Device {
    d.(dataSize := r.wLength % U16)
  }

  /** A download that carries a command of its own. */
  predicate Commands(r: Request) {
    r.kind.Dnload? && r.wLength % U16 != 0 && r.packets != []
  }

  /** The command of such a download, as it is carried out. */
  function Own(part: Part, d: Device, r: Request): Device
    requires Commands(r)
  {
    Received(Settled(part, Asked(d, r)), r.packets)
  }

  /** A request that clears RunBootloader: by a pending command, or by its own. */
  predicate Leaves(part: Part, d: Device, r: Request) {
    || (r.kind.Dnload? && d.waitForExit && StartsApplication(Asked(d, r)))
    || (Commands(r) && StartsApplication(Own(part, d, r)))
  }

  /** A request after which the bootloader waits for another before it may leave. */
  predicate Waits(part: Part, d: Device, r: Request) {
    if r.kind.Dnload? then Commands(r) && StartCommand(Own(part, d, r)) else d.waitForExit
  }

  /** A request that starts the watchdog: by a pending command, or by its own. */
  predicate Arms(part: Part, d: Device, r: Request) {
    || (r.kind.Dnload? && d.waitForExit && ArmsWatchdog(Asked(d, r)))
    || (Commands(r) && ArmsWatchdog(Own(part, d, r)))
  }

  /** The jump target after a request: that of its own command, or of a pending one. */
  function TargetAfter(part: Part, d: Device, r: Request): nat {
    if Commands(r) then JumpTarget(Own(part, d, r))
    else if r.kind.Dnload? && d.waitForExit then JumpTarget(Asked(d, r))
    else d.appStart
  }

  lemma SettledFlags(part: Part, d: Device)
    ensures var e := Settled(part, d);
            && e.dataSize == d.dataSize && !e.waitForExit
            && e.run == (d.run && !(d.waitForExit && StartsApplication(d)))
            && e.watchdog == (d.watchdog || (d.waitForExit && ArmsWatchdog(d)))
            && e.appStart == if d.waitForExit then JumpTarget(d) else d.appStart
  {
    hide ProcessCommand, StartsApplication, StartCommand, ArmsWatchdog, JumpTarget;
    CommandFlags(part, d);
  }

  lemma OwnFlags(part: Part, e: Device, packets: Packets)
    requires packets != []
    ensures var g := Received(e, packets);
            var h := HandleCommand(part, e, packets);
            && h.run == (e.run && !StartsApplication(g)) && h.waitForExit == (e.waitForExit || StartCommand(g))
            && h.watchdog == (e.watchdog || ArmsWatchdog(g)) && h.appStart == JumpTarget(g)
  {
    hide ProcessCommand, FinishDownload, ReadCommand, StartsApplication, StartCommand, ArmsWatchdog, JumpTarget;
    var q := OutPipe(packets[0], packets[1..]);
    CommandFrame(e, q);
    var (g, rest) := ReadCommand(e, q);
    CommandFlags(part, g);
    FinishFlags(ProcessCommand(part, g), rest);
  }

  /** A download's own command, from reading it on. */
  function HandleCommand(part: Part, e: Device, packets: Packets): Device
    requires packets != []
  {
    var (g, rest) := ReadCommand(e, OutPipe(packets[0], packets[1..]));
    FinishDownload(ProcessCommand(part, g), rest)
  }

  lemma DnloadIs(part: Part, d: Device, packets: Packets)
    ensures var e := Settled(part, d);
            HandleDnload(part, d, packets) ==
            if e.dataSize == 0 then FinishDownload(e, OutPipe([], packets))
            else if packets == [] then e
            else HandleCommand(part, e, packets)
  {
    hide ProcessCommand, FinishDownload, ReadCommand;
  }

  lemma DnloadFlags(part: Part, d: Device, r: Request)
    requires r.kind.Dnload?
    ensures var g := HandleDnload(part, Asked(d, r), r.packets);
            && g.run == (d.run && !Leaves(part, d, r))
            && g.waitForExit == Waits(part, d, r)
            && g.watchdog == (d.watchdog || Arms(part, d, r)) && g.appStart == TargetAfter(part, d, r)
  {
    hide HandleDnload, StartsApplication, StartCommand, ArmsWatchdog, Settled, Received, FinishDownload, HandleCommand,
      JumpTarget;
    var e := Asked(d, r);
    DnloadIs(part, e, r.packets);
    SettledFlags(part, e);
    FinishFlags(Settled(part, e), OutPipe([], r.packets));
    if r.packets != [] {
      OwnFlags(part, Settled(part, e), r.packets);
    }
  }

  lemma QuietFlags(part: Part, d: Device, r: Request)
    requires !r.kind.Dnload?
    ensures var g := Handle(part, d, r).0;
            g.run == d.run && g.waitForExit == d.waitForExit && g.watchdog == d.watchdog && g.appStart == d.appStart
  {
    hide ReadWords, ReadEeprom, BytesRemaining, FlashAddress, StatusCode, StateCode;
  }

  /** For every device and request: the three flags and the jump target afterwards. */
  lemma RequestFlags(part: Part, d: Device, r: Request)
    ensures var g := Handle(part, d, r).0;
            && g.run == (d.run && !Leaves(part, d, r))
            && g.waitForExit == Waits(part, d, r)
            && g.watchdog == (d.watchdog || Arms(part, d, r)) && g.appStart == TargetAfter(part, d, r)
  {
    hide HandleDnload, HandleUpload, HandleShort, StartsApplication, StartCommand, ArmsWatchdog, Own, JumpTarget;
    if r.kind.Dnload? {
      DnloadFlags(part, d, r);
    } else {
      QuietFlags(part, d, r);
    }
  }

  /** For every device and request: RunBootloader stays unless the request clears it. */
  lemma LeavesIff(part: Part, d: Device, r: Request)
    ensures Handle(part, d, r).0.run == (d.run && !Leaves(part, d, r))
  {
    hide Handle, Leaves, Waits, Arms;
    RequestFlags(part, d, r);
  }

  /** For every device and request: when the main loop ends. */
  lemma LeftIff(part: Part, d: Device, r: Request)
    ensures Left(Handle(part, d, r).0) <==> (!d.run || Leaves(part, d, r)) && !Waits(part, d, r)
  {
    hide Handle, Leaves, Waits, Arms;
    RequestFlags(part, d, r);
  }

  // ---- Sessions ---------------------------------------------------------------

  lemma {:induction false} SessionStep(part: Part, d: Device, rs: seq<Request>)
    requires rs != []
    ensures Session(part, d, rs).0 == Handle(part, Session(part, d, rs[..|rs| - 1]).0, rs[|rs| - 1]).0
    decreases rs
  {
    hide Handle;
    if |rs| > 1 {
      var e := Handle(part, d, rs[0]).0;
      SessionStep(part, e, rs[1..]);
      assert rs[1..][..|rs| - 2] == rs[..|rs| - 1][1..];
    }
  }

  /** The device after the first `k` requests. */
  function At(part: Part, d: Device, rs: seq<Request>, k: nat): Device
    requires k <= |rs|
  {
    Session(part, d, rs[..k]).0
  }

  lemma AtNext(part: Part, d: Device, rs: seq<Request>, k: nat)
    requires k < |rs|
    ensures At(part, d, rs, k + 1) == Handle(part, At(part, d, rs, k), rs[k]).0
  {
    hide Handle, Session;
    SessionStep(part, d, rs[..k + 1]);
    assert rs[..k + 1][..k] == rs[..k];
  }

  lemma AtStart(part: Part, d: Device, rs: seq<Request>)
    ensures At(part, d, rs, 0) == d
  {
  }

  /** RunBootloader has been cleared by one of the first `k` requests. */
  lemma {:induction false} ClearedIff(part: Part, d: Device, rs: seq<Request>, k: nat)
    requires d.run && k <= |rs|
    ensures !At(part, d, rs, k).run <==> exists j :: 0 <= j < k && Leaves(part, At(part, d, rs, j), rs[j])
  {
    hide At, Leaves, Handle;
    if k == 0 {
      AtStart(part, d, rs);
    } else {
      ClearedIff(part, d, rs, k - 1);
      AtNext(part, d, rs, k - 1);
      LeavesIff(part, At(part, d, rs, k - 1), rs[k - 1]);
    }
  }

  /**
   Over every session: the main loop has ended at some point if and only if some request
   cleared RunBootloader and the same or a later one did not leave it waiting.
   */
  lemma SessionLeftIff(part: Part, d: Device, rs: seq<Request>)
    requires d.run
    ensures (exists k :: 0 <= k <= |rs| && Left(At(part, d, rs, k))) <==>
            exists j, k :: 0 <= j <= k < |rs| &&
                           Leaves(part, At(part, d, rs, j), rs[j]) && !Waits(part, At(part, d, rs, k), rs[k])
  {
    hide At, Leaves, Waits, Handle;
    if k :| 0 <= k <= |rs| && Left(At(part, d, rs, k)) {
      ClearedIff(part, d, rs, k);
      var j :| 0 <= j < k && Leaves(part, At(part, d, rs, j), rs[j]);
      AtNext(part, d, rs, k - 1);
      LeftIff(part, At(part, d, rs, k - 1), rs[k - 1]);
      assert !Waits(part, At(part, d, rs, k - 1), rs[k - 1]);
    }
    if j, k :| 0 <= j <= k < |rs| &&
               Leaves(part, At(part, d, rs, j), rs[j]) && !Waits(part, At(part, d, rs, k), rs[k])
    {
      ClearedIff(part, d, rs, k + 1);
      AtNext(part, d, rs, k);
      LeftIff(part, At(part, d, rs, k), rs[k]);
      ClearedIff(part, d, rs, k);
      assert Left(At(part, d, rs, k + 1));
    }
  }

  // ---- Devices that have an application ---------------------------------------

  /** What waits to be finished is a command to start the application. */
  predicate Pending(d: Device) {
    d.waitForExit ==> StartCommand(d)
  }

  /** The command at hand erases the application or opens memory for programming. */
  predicate Rewrites(d: Device) {
    d.command == COMMAND_PROG_START || (d.command == COMMAND_WRITE && d.data[0] == 0 && d.data[1] == 255)
  }

  /** A request that, by its bytes alone, neither erases nor programs. */
  predicate Harmless(r: Request) {
    Commands(r) ==>
      var packet := r.packets[0];
      packet != [] ==>
        && packet[0] != COMMAND_PROG_START
        && (packet[0] == COMMAND_WRITE ==>
            (|packet| > 1 && packet[1] != 0) || (|packet| > 2 && packet[2] != 255))
  }

  /** An application is there, nothing is being programmed, and the bootloader runs. */
  predicate Programmed(d: Device) {
    d.run && Pending(d) && !d.state.DnloadIdle? && ReadWord(d.flash, 0) != 0xFFFF
  }

  predicate Spared(d: Device, e: Device) {
    && e.flash == d.flash && e.command == d.command && e.data == d.data && e.secure == d.secure
    && (e.state.DnloadIdle? ==> d.state.DnloadIdle?)
  }

  lemma MemReadSpares(part: Part, d: Device)
    ensures Spared(d, ProcessMemRead(part, d))
  {
    hide FirstUsed, Word;
  }

  lemma WriteSpares(part: Part, d: Device)
    requires !(d.data[0] == 0 && d.data[1] == 255)
    ensures Spared(d, ProcessWrite(part, d))
  {
    hide ReadWord, Word;
  }

  lemma ReadSpares(part: Part, d: Device)
    ensures Spared(d, ProcessRead(part, d))
  {
  }

  /** A command that does not rewrite leaves flash, and the programming state, alone. */
  lemma CommandSpares(part: Part, d: Device)
    requires !Rewrites(d)
    ensures Spared(d, ProcessCommand(part, d))
  {
    hide ProcessMemRead, ProcessWrite, ProcessRead;
    MemReadSpares(part, d);
    ReadSpares(part, d);
    if d.command == COMMAND_WRITE {
      WriteSpares(part, d);
    }
  }

  lemma {:induction false} EarlierParameters(d: Device, p: OutPipe, i: nat, j: nat)
    requires j < i <= 5
    ensures ReadParameters(d, p, i).0.data[j] == d.data[j]
    decreases 5 - i
  {
    if i < 5 && p.bank != [] {
      var e := d.(data := d.data[i := p.bank[0]], dataSize := (d.dataSize + U16 - 1) % U16);
      EarlierParameters(e, Drop8(p), i + 1, j);
    }
  }

  lemma ParameterTaken(d: Device, p: OutPipe, i: nat)
    requires i < 5 && p.bank != []
    ensures var e := d.(data := d.data[i := p.bank[0]], dataSize := (d.dataSize + U16 - 1) % U16);
            ReadParameters(d, p, i) == ReadParameters(e, Drop8(p), i + 1)
  {
  }

  /** The first two parameters are the bytes behind the command, as far as there are any. */
  lemma FirstParameters(d: Device, packets: Packets)
    requires packets != []
    ensures var e, packet := Received(d, packets), packets[0];
            && e.command == (if packet == [] then 0 else packet[0])
            && (|packet| > 1 ==> e.data[0] == packet[1]) && (|packet| > 2 ==> e.data[1] == packet[2])
  {
    hide ReadParameters;
    var packet := packets[0];
    var p := OutPipe(packet, packets[1..]);
    CommandFrame(d, p);
    var e := d.(command := Peek8(p), dataSize := (d.dataSize + U16 - 1) % U16);
    if |packet| > 1 {
      var q := Drop8(p);
      var g := e.(data := e.data[0 := packet[1]], dataSize := (e.dataSize + U16 - 1) % U16);
      ParameterTaken(e, q, 0);
      EarlierParameters(g, Drop8(q), 1, 0);
      if |packet| > 2 {
        var h := g.(data := g.data[1 := packet[2]], dataSize := (g.dataSize + U16 - 1) % U16);
        ParameterTaken(g, Drop8(q), 1);
        EarlierParameters(h, Drop8(Drop8(q)), 2, 1);
      }
    }
  }

  lemma OwnHarmless(d: Device, r: Request)
    requires Commands(r) && Harmless(r)
    ensures !Rewrites(Received(d, r.packets))
  {
    hide Received;
    FirstParameters(d, r.packets);
  }

  lemma SettledSpares(part: Part, d: Device)
    requires Pending(d)
    ensures var e := Settled(part, d);
            e.flash == d.flash && e.secure == d.secure && (e.state.DnloadIdle? ==> d.state.DnloadIdle?)
  {
    hide ProcessCommand;
    if d.waitForExit {
      CommandSpares(part, d);
    }
  }

  /** After a harmless command: flash, what waits, and nothing to be programmed. */
  lemma HandleCommandSpares(part: Part, e: Device, packets: Packets)
    requires packets != [] && !e.waitForExit && !e.state.DnloadIdle? && !Rewrites(Received(e, packets))
    ensures var g := HandleCommand(part, e, packets);
            g.flash == e.flash && !g.state.DnloadIdle? && Pending(g)
  {
    hide ProcessCommand, ReadCommand;
    var q := OutPipe(packets[0], packets[1..]);
    CommandFrame(e, q);
    var g := ReadCommand(e, q).0;
    CommandSpares(part, g);
    CommandFlags(part, g);
  }

  lemma DnloadSpares(part: Part, d: Device, r: Request)
    requires Pending(d) && !d.state.DnloadIdle? && Harmless(r) && r.kind.Dnload?
    ensures var g := HandleDnload(part, Asked(d, r), r.packets);
            g.flash == d.flash && !g.state.DnloadIdle? && Pending(g)
  {
    hide Settled, HandleCommand, HandleDnload, Harmless, Rewrites, Received;
    var e := Asked(d, r);
    DnloadIs(part, e, r.packets);
    SettledSpares(part, e);
    SettledFlags(part, e);
    if Commands(r) {
      OwnHarmless(Settled(part, e), r);
      HandleCommandSpares(part, Settled(part, e), r.packets);
    }
  }

  lemma UploadSpares(d: Device, polls: nat)
    ensures Spared(d, HandleUpload(d, polls).0)
  {
    hide ReadWords, ReadEeprom, BytesRemaining, FlashAddress;
  }

  lemma ShortSpares(d: Device, kind: Kind, polls: nat)
    ensures Spared(d, HandleShort(d, kind, polls).0)
  {
    hide StatusCode, StateCode;
  }

  lemma QuietSpares(part: Part, d: Device, r: Request)
    requires !r.kind.Dnload?
    ensures Spared(d, Handle(part, d, r).0)
  {
    hide HandleUpload, HandleShort;
    UploadSpares(Asked(d, r), r.polls);
    ShortSpares(Asked(d, r), r.kind, r.polls);
  }

  lemma FinishKeepsCommand(d: Device, p: OutPipe)
    ensures var e := FinishDownload(d, p);
            e.secure == d.secure && e.command == d.command && e.data == d.data
  {
    hide ProgramWords, ProgramEeprom, Discard, BytesRemaining, FlashAddress;
  }

  lemma OwnPending(part: Part, e: Device, packets: Packets)
    requires packets != [] && !e.waitForExit
    ensures Pending(HandleCommand(part, e, packets))
  {
    hide ProcessCommand, ReadCommand, FinishDownload, StartsApplication, ArmsWatchdog;
    OwnFlags(part, e, packets);
    var (g, rest) := ReadCommand(e, OutPipe(packets[0], packets[1..]));
    FinishKeepsCommand(ProcessCommand(part, g), rest);
    if StartCommand(g) {
      CommandSpares(part, g);
    }
  }

  /** Every request keeps `Pending`, so it holds of every device that has been started up. */
  lemma PendingKept(part: Part, d: Device, r: Request)
    requires Pending(d)
    ensures Pending(Handle(part, d, r).0)
  {
    hide HandleDnload, HandleUpload, HandleShort, Settled, HandleCommand, FinishDownload, StartCommand;
    if r.kind.Dnload? {
      var e := Asked(d, r);
      DnloadIs(part, e, r.packets);
      SettledFlags(part, e);
      FinishFlags(Settled(part, e), OutPipe([], r.packets));
      if r.packets != [] {
        OwnPending(part, Settled(part, e), r.packets);
      }
    } else {
      QuietPending(part, d, r);
    }
  }

  lemma NotCleared(part: Part, d: Device, r: Request)
    requires Pending(d) && ReadWord(d.flash, 0) != 0xFFFF
    ensures !Leaves(part, d, r)
  {
    hide ReadWord, ReadCommand, Settled;
    SettledSpares(part, Asked(d, r));
    if Commands(r) {
      CommandFrame(Settled(part, Asked(d, r)), OutPipe(r.packets[0], r.packets[1..]));
    }
  }

  lemma ProgrammedStep(part: Part, d: Device, r: Request)
    requires Programmed(d) && Harmless(r)
    ensures Programmed(Handle(part, d, r).0) && Handle(part, d, r).0.flash == d.flash
  {
    hide HandleDnload, HandleUpload, HandleShort, Harmless, Leaves, Pending, ReadWord;
    NotCleared(part, d, r);
    LeavesIff(part, d, r);
    if r.kind.Dnload? {
      DnloadSpares(part, d, r);
    } else {
      QuietSpares(part, d, r);
      QuietPending(part, d, r);
    }
  }

  lemma QuietPending(part: Part, d: Device, r: Request)
    requires !r.kind.Dnload? && Pending(d)
    ensures Pending(Handle(part, d, r).0)
  {
    hide Handle;
    QuietSpares(part, d, r);
    QuietFlags(part, d, r);
  }

  /**
   A device that has an application is not left, at any point of any session whose requests
   neither erase nor program: no command to start the application clears RunBootloader.
   */
  lemma {:induction false} ProgrammedNeverLeft(part: Part, d: Device, rs: seq<Request>)
    requires Programmed(d) && forall r :: r in rs ==> Harmless(r)
    ensures var e := Session(part, d, rs).0;
            Programmed(e) && e.flash == d.flash && !Left(e)
    decreases rs
  {
    hide Handle, Pending, ReadWord, Harmless;
    if rs != [] {
      ProgrammedStep(part, d, rs[0]);
      ProgrammedNeverLeft(part, Handle(part, d, rs[0]).0, rs[1..]);
    }
  }

  // ---- Starting an application ------------------------------------------------

  /** The five-byte request to start the application at an address by a jump. */
  function JumpRequest(hi: byte, lo: byte): Request {
    Request(Dnload, 5, [[COMMAND_WRITE, 3, 1, hi, lo]], 0)
  }

  /** The three-byte request to start the application by a watchdog reset. */
  const WATCHDOG_REQUEST: Request := Request(Dnload, 3, [[COMMAND_WRITE, 3, 0]], 0)

  /** The empty download that closes a command. */
  const CLOSE_REQUEST: Request := Request(Dnload, 0, [], 0)

  lemma TwoParameters(d: Device, a: byte, b: byte, rest: seq<byte>, i: nat)
    requires i <= 3 && 2 <= d.dataSize < U16
    ensures ReadParameters(d, OutPipe([a, b] + rest, []), i) ==
            ReadParameters(d.(data := d.data[i := a][i + 1 := b], dataSize := d.dataSize - 2), OutPipe(rest, []), i + 2)
  {
    hide ReadParameters;
    var p := OutPipe([a, b] + rest, []);
    assert p.bank[1..] == [b] + rest && ([b] + rest)[1..] == rest;
    ParameterStep(d, p, i);
    ParameterStep(d.(data := d.data[i := a], dataSize := d.dataSize - 1), OutPipe([b] + rest, []), i + 1);
  }

  lemma JumpReceived(d: Device, hi: byte, lo: byte)
    requires d.dataSize == 5
    ensures Received(d, JumpRequest(hi, lo).packets) ==
            d.(command := COMMAND_WRITE, data := [3, 1, hi, lo, d.data[4]], dataSize := 0)
  {
    hide ReadParameters;
    var packets := JumpRequest(hi, lo).packets;
    assert packets[1..] == [];
    assert [COMMAND_WRITE, 3, 1, hi, lo][1..] == [3, 1] + [hi, lo] && [hi, lo] == [hi, lo] + [];
    var e := d.(command := COMMAND_WRITE, dataSize := 4);
    TwoParameters(e, 3, 1, [hi, lo], 0);
    var g := e.(data := e.data[0 := 3][1 := 1], dataSize := 2);
    TwoParameters(g, hi, lo, [], 2);
    var h := g.(data := g.data[2 := hi][3 := lo], dataSize := 0);
    NoParameters(h, [], 4);
    assert h.data == [3, 1, hi, lo, d.data[4]];
  }

  lemma WatchdogReceived(d: Device)
    requires d.dataSize == 3
    ensures Received(d, WATCHDOG_REQUEST.packets) ==
            d.(command := COMMAND_WRITE, data := d.data[0 := 3][1 := 0], dataSize := 0)
  {
    hide ReadParameters;
    var packets := WATCHDOG_REQUEST.packets;
    assert packets[1..] == [];
    assert [COMMAND_WRITE, 3, 0][1..] == [3, 0] + [];
    var e := d.(command := COMMAND_WRITE, dataSize := 2);
    TwoParameters(e, 3, 0, [], 0);
    NoParameters(e.(data := e.data[0 := 3][1 := 0], dataSize := 0), [], 2);
  }

  lemma NoParameters(d: Device, queue: Packets, i: nat)
    requires i <= 5
    ensures ReadParameters(d, OutPipe([], queue), i).0 == d
  {
  }

  /** An unlocked device takes a command to start the application, and keeps its flash. */
  lemma StartTaken(part: Part, d: Device, r: Request)
    requires !d.secure && Pending(d) && Commands(r) && StartCommand(Own(part, d, r)) && Own(part, d, r).dataSize == 0
    ensures var g, own := Handle(part, d, r).0, Own(part, d, r);
            && own.flash == d.flash && g.flash == d.flash && !g.secure && g.waitForExit
            && g.command == own.command && g.data == own.data
  {
    hide HandleDnload, HandleCommand, Received, Settled, StartsApplication;
    var e := Asked(d, r);
    RequestFlags(part, d, r);
    DnloadIs(part, e, r.packets);
    SettledFlags(part, e);
    SettledSpares(part, e);
    StartHandled(part, Settled(part, e), r.packets);
  }

  lemma StartHandled(part: Part, e: Device, packets: Packets)
    requires packets != [] && StartCommand(Received(e, packets)) && Received(e, packets).dataSize == 0
    ensures var g, own := HandleCommand(part, e, packets), Received(e, packets);
            && own.flash == e.flash && g.flash == e.flash && !g.secure
            && g.command == own.command && g.data == own.data
  {
    hide ProcessCommand, ReadCommand;
    var q := OutPipe(packets[0], packets[1..]);
    CommandFrame(e, q);
    CommandSpares(part, ReadCommand(e, q).0);
    CommandFlags(part, ReadCommand(e, q).0);
  }

  lemma JumpTaken(part: Part, d: Device, hi: byte, lo: byte)
    requires !d.secure && Pending(d)
    ensures var r := JumpRequest(hi, lo);
            var g := Handle(part, d, r).0;
            && g.flash == d.flash && g.waitForExit && StartCommand(g) && g.data[1] != 0
            && g.run == (d.run && ReadWord(d.flash, 0) != 0xFFFF)
  {
    hide Handle, Received, Settled, ReadWord;
    var r := JumpRequest(hi, lo);
    var e := Asked(d, r);
    SettledFlags(part, e);
    SettledSpares(part, e);
    JumpReceived(Settled(part, e), hi, lo);
    StartTaken(part, d, r);
    LeavesIff(part, d, r);
  }

  /**
   Told to start the application by a jump, an unlocked bootloader waits for the download that
   closes the command. After it the bootloader is left exactly if there is no application.
   */
  lemma JumpLeavesIff(part: Part, d: Device, hi: byte, lo: byte)
    requires !d.secure && Pending(d) && d.run
    ensures var g := Handle(part, d, JumpRequest(hi, lo)).0;
            !Left(g) && (Left(Handle(part, g, CLOSE_REQUEST).0) <==> ReadWord(d.flash, 0) == 0xFFFF)
  {
    hide Handle, ReadWord;
    JumpTaken(part, d, hi, lo);
    LeftIff(part, Handle(part, d, JumpRequest(hi, lo)).0, CLOSE_REQUEST);
  }

  /**
   After a watchdog reset with the boot key set, Application_Jump_Check starts the application
   exactly if there is one.
   */
  predicate StartsAfterReset(d: Device) {
    d.watchdog && ReadWord(d.flash, 0) != 0xFFFF
  }

  /** So by the watchdog an unlocked device starts its application exactly if there is one. */
  lemma WatchdogStartsIff(part: Part, d: Device)
    requires !d.secure && Pending(d)
    ensures StartsAfterReset(Handle(part, d, WATCHDOG_REQUEST).0) <==> ReadWord(d.flash, 0) != 0xFFFF
  {
    hide Handle, Received, Settled, ReadWord;
    var r := WATCHDOG_REQUEST;
    var e := Asked(d, r);
    SettledFlags(part, e);
    SettledSpares(part, e);
    WatchdogReceived(Settled(part, e));
    StartTaken(part, d, r);
    RequestFlags(part, d, r);
  }

  /**
   An application just programmed from address 0 is not started by a jump: the bootloader
   is not left, then or after the closing download. The watchdog does start it.
   */
  lemma ProgrammedStays(part: Part, d: Device, payload: seq<byte>, filler: seq<byte>, packets: Packets,
                        suffix: seq<byte>, wLength: nat, hi: byte, lo: byte)
    requires Ready(d) && d.page64 == 0 && d.run
    requires payload != [] && |payload| % 2 == 0 && |payload| < U16 && |payload| <= |d.flash.mem|
    requires |filler| == FILLER_BYTES_SIZE && 6 < wLength < U16
    requires EvenPackets(OutPipe([], packets)) && Flatten(packets) == payload + suffix
    requires payload[..2] != [255, 255]
    ensures var e := Handle(part, d, ProgramRequest(0, 0, |payload| - 1, filler, packets, wLength)).0;
            var g := Handle(part, e, JumpRequest(hi, lo)).0;
            && !Left(g) && !Left(Handle(part, g, CLOSE_REQUEST).0)
            && StartsAfterReset(Handle(part, e, WATCHDOG_REQUEST).0)
  {
    hide Handle, ReadWord, Ready, Committed, StartsAfterReset;
    var r := ProgramRequest(0, 0, |payload| - 1, filler, packets, wLength);
    assert Aligned(d.flash.Page(), 0);
    DfuPrograms(part, d, 0, payload, filler, packets, suffix, wLength);
    var e := Handle(part, d, r).0;
    ReadyUnlocked(d);
    ReadyUnlocked(e);
    LeavesIff(part, d, r);
    ProgramStays(part, d, r);
    FirstWordOf(d.flash, payload);
    JumpLeavesIff(part, e, hi, lo);
    WatchdogStartsIff(part, e);
  }

  lemma ProgramStays(part: Part, d: Device, r: Request)
    requires !d.waitForExit && r.packets != [] && r.packets[0] != [] && r.packets[0][0] == COMMAND_PROG_START
    ensures !Leaves(part, d, r)
  {
    hide Received, ReadWord;
    FirstParameters(Settled(part, Asked(d, r)), r.packets);
  }

  lemma FirstWordOf(f: Flash, payload: seq<byte>)
    requires 2 <= |payload| <= |f.mem| && payload[..2] != [255, 255]
    ensures ReadWord(Committed(f, 0, payload), 0) != 0xFFFF
  {
    hide Loaded, Base;
    assert payload[..2] == [payload[0], payload[1]];
    CommittedHolds(f, 0, payload);
    var m := Committed(f, 0, payload).mem;
    assert m[0..|payload|][0] == m[0] && m[0..|payload|][1] == m[1];
  }
}
