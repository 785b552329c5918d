/**
 The whole bridge as one system: the host that sends a line and waits for a `U`, the
 serial line, the receive interrupt with its ring, and the firmware's main loop. Steps of
 the parties interleave freely; a received byte is stored while fewer than 255 are unread.
 */
module SwitchProtocol {
  import opened Basics
  import opened Joystick
  import opened Bridge

  /** Where the main loop stands: HID_Task, USB_USBTask or Serial_Task. */
  datatype Phase = Hid | Usb | Serial

  /**
   `sent` are the messages the host has written and `waiting` says that it reads for a
   `U`; `channel` are bytes on the line, `acks` the `U`s not yet read by the host and
   `emitted` all `U`s so far; `reports` are the reports given to the console.
   */
  datatype System = System(
    sent: seq<Report>, waiting: bool, channel: seq<byte>, acks: nat, emitted: nat,
    ring: Ring, parser: Parser, phase: Phase, reports: seq<Report>)

  function Initial(): System {
    System([], false, [], 0, 0, EmptyRing(), INITIAL_PARSER, Hid, [])
  }

  datatype Step =
    | HostSend(message: Report)
    | HostRead
    | ByteArrives
    | SendReport
    | NoReport
    | ControlReport
    | UsbDone
    | ParseByte
    | SerialDone

  predicate Enabled(s: System, step: Step) {
    match step
    case HostSend(_) => !s.waiting
    case HostRead => s.waiting && s.acks > 0
    case ByteArrives => s.channel != [] && UnreadCount(s.ring) < 255
    case SendReport => s.phase.Hid?
    case NoReport => s.phase.Hid?
    case ControlReport => s.phase.Usb?
    case UsbDone => s.phase.Usb?
    case ParseByte => s.phase.Serial? && s.ring.tail != s.ring.head
    case SerialDone => s.phase.Serial? && s.ring.tail == s.ring.head
  }

  function Do(s: System, step: Step): System
    requires Enabled(s, step)
  {
    match step
    case HostSend(m) => s.(sent := s.sent + [m], channel := s.channel + Message(m), waiting := true)
    case HostRead => s.(acks := s.acks - 1, waiting := false)
    case ByteArrives => s.(channel := s.channel[1..], ring := Push(s.ring, s.channel[0]))
    case SendReport =>
      s.(reports := s.reports + [s.parser.report], acks := s.acks + 1, emitted := s.emitted + 1, phase := Usb)
    case NoReport => s.(phase := Usb)
    case ControlReport => s.(reports := s.reports + [s.parser.report])
    case UsbDone => s.(phase := Serial)
    case ParseByte => s.(parser := TakeChar(s.parser, Front(s.ring)), ring := Pop(s.ring))
    case SerialDone => s.(phase := Hid)
  }

  /** The system after a run, if every step of it was enabled. */
  function Run(steps: seq<Step>): Option<System> {
    if steps == [] then Some(Initial())
    else
      var s, step := Run(steps[..|steps| - 1]), steps[|steps| - 1];
      if s.Some? && Enabled(s.value, step) then Some(Do(s.value, step)) else None
  }

  // ---- What is where ----------------------------------------------------------

  /** Every byte the host has written, in order. */
  function AllBytes(sent: seq<Report>): (bs: seq<byte>)
    ensures |bs| == 15 * |sent|
  {
    if sent == [] then [] else AllBytes(sent[..|sent| - 1]) + Message(sent[|sent| - 1])
  }

  /** How many of them have left the line. */
  function Received(s: System): int {
    15 * |s.sent| - |s.channel|
  }

  /** How many of them the parser has taken. */
  function Taken(s: System): int {
    Received(s) - UnreadCount(s.ring)
  }

  /** Bytes taken, unread and on the line are what was written; acknowledgements add up. */
  predicate Consistent(s: System) {
    && 0 <= Received(s) && AllBytes(s.sent)[Received(s)..] == s.channel
    && Accounted(INITIAL_PARSER, s.ring, s.parser, AllBytes(s.sent)[..Received(s)])
    && s.acks <= s.emitted && |s.sent| == s.emitted - s.acks + Bit(s.waiting)
  }

  /** The message numbered `i` from one, or the zero state for number zero. */
  function Numbered(sent: seq<Report>, i: nat): Report
    requires i <= |sent|
  {
    if i == 0 then ZERO_REPORT else sent[i - 1]
  }

  /** `numbers` say which message each report shows, and they never decrease. */
  predicate Explains(numbers: seq<nat>, reports: seq<Report>, sent: seq<Report>, limit: nat) {
    && |numbers| == |reports| && limit <= |sent|
    && (forall i :: 0 <= i < |numbers| ==> numbers[i] <= limit && reports[i] == Numbered(sent, numbers[i]))
    && (forall i, j :: 0 <= i <= j < |numbers| ==> numbers[i] <= numbers[j])
  }

  // ---- Prefixes of the written bytes ------------------------------------------

  /** After `k` bytes the report shows the last whole message among them. */
  lemma {:induction false} PrefixShows(sent: seq<Report>, k: nat)
    requires k <= 15 * |sent|
    ensures var t := AllBytes(sent)[..k];
            ShortLines(t) && LastLine(t) == Numbered(sent, k / 15)
    ensures k == 15 * |sent| ==> Between(AllBytes(sent))
    decreases sent
  {
    hide Message, LineDigits, LastLine, ShortLines;
    if sent == [] {
      NothingTaken();
      assert AllBytes(sent)[..k] == [];
    } else {
      var before, m := sent[..|sent| - 1], sent[|sent| - 1];
      var all := AllBytes(before);
      PrefixShows(before, 15 * |before|);
      assert all[..15 * |before|] == all;
      if k < |all| {
        PrefixShows(before, k);
        assert AllBytes(sent)[..k] == all[..k];
        assert k / 15 < |before|;
      } else if k == |AllBytes(sent)| {
        WholeMessage(all, m);
        assert AllBytes(sent)[..k] == all + Message(m);
        assert k / 15 == |sent|;
      } else {
        PartOfMessage(all, m, k - |all|);
        assert AllBytes(sent)[..k] == all + Message(m)[..k - |all|];
        assert k / 15 == |before|;
      }
    }
  }

  lemma NothingTaken()
    ensures ShortLines([]) && LastLine([]) == ZERO_REPORT && LineDigits([]) == []
  {
  }

  /** In a consistent system the report shows the last message taken whole. */
  lemma ReportShows(s: System)
    requires Consistent(s)
    ensures 0 <= Taken(s) / 15 <= |s.sent| && s.parser.report == Numbered(s.sent, Taken(s) / 15) && !s.parser.corrupt
  {
    hide AllBytes, LastLine, ShortLines, TakeChars, UnreadCount, Unread, LineDigits, Packed;
    var taken := AllBytes(s.sent)[..Taken(s)];
    assert AllBytes(s.sent)[..Received(s)][..Taken(s)] == taken;
    PrefixShows(s.sent, Taken(s));
    TakenShows(taken);
  }

  // ---- Steps ------------------------------------------------------------------

  lemma InitialConsistent()
    ensures Consistent(Initial())
  {
    NothingArrived();
  }

  lemma SendConsistent(s: System, m: Report)
    requires Consistent(s) && !s.waiting
    ensures Consistent(Do(s, HostSend(m))) && Taken(Do(s, HostSend(m))) == Taken(s)
  {
    hide Message, Accounted;
    var t, n := Do(s, HostSend(m)), Received(s);
    assert t.sent[..|t.sent| - 1] == s.sent;
    var all := AllBytes(s.sent);
    assert AllBytes(t.sent) == all + Message(m);
    SplitAppend(all, n, Message(m));
  }

  lemma ArriveConsistent(s: System)
    requires Consistent(s) && Enabled(s, ByteArrives)
    ensures Consistent(Do(s, ByteArrives)) && Taken(Do(s, ByteArrives)) == Taken(s)
  {
    hide AllBytes, Accounted, Push, UnreadCount;
    var c, n, all := s.channel[0], Received(s), AllBytes(s.sent);
    ArriveAccounted(INITIAL_PARSER, s.ring, s.parser, all[..n], c);
    PushCount(s.ring, c);
    assert c == all[n..][0] == all[n];
    assert all[..n + 1] == all[..n] + [c];
    assert all[n..][1..] == all[n + 1..];
  }

  lemma ParseConsistent(s: System)
    requires Consistent(s) && Enabled(s, ParseByte)
    ensures Consistent(Do(s, ParseByte)) && Taken(Do(s, ParseByte)) == Taken(s) + 1
  {
    hide AllBytes, Accounted, TakeChar, Pop, Front, UnreadCount;
    ParseAccounted(INITIAL_PARSER, s.ring, s.parser, AllBytes(s.sent)[..Received(s)]);
    PopSlot(s.ring, 0);
  }

  /** Steps that move no byte. */
  lemma QuietConsistent(s: System, step: Step)
    requires Consistent(s) && Enabled(s, step) && !step.HostSend? && !step.ByteArrives? && !step.ParseByte?
    ensures Consistent(Do(s, step)) && Taken(s) == Taken(Do(s, step))
  {
    hide Accounted, AllBytes, UnreadCount;
  }

  lemma StepConsistent(s: System, step: Step)
    requires Consistent(s) && Enabled(s, step)
    ensures Consistent(Do(s, step)) && Taken(s) <= Taken(Do(s, step))
  {
    hide Consistent, Taken, Do;
    match step {
      case HostSend(m) => SendConsistent(s, m);
      case ByteArrives => ArriveConsistent(s);
      case ParseByte => ParseConsistent(s);
      case _ => QuietConsistent(s, step);
    }
  }

  /** Explanations survive more messages and a higher limit, and extend by the current report. */
  lemma ExplainsStep(s: System, step: Step, numbers: seq<nat>) returns (more: seq<nat>)
    requires Consistent(s) && Enabled(s, step) && Explains(numbers, s.reports, s.sent, Taken(s) / 15)
    ensures var t := Do(s, step);
            Consistent(t) && Explains(more, t.reports, t.sent, Taken(t) / 15)
  {
    hide Consistent, Taken;
    var t := Do(s, step);
    StepConsistent(s, step);
    ReportShows(s);
    ReportShows(t);
    TakenDiv(Taken(s), Taken(t));
    var shown: nat := Taken(s) / 15;
    more := if step.SendReport? || step.ControlReport? then numbers + [shown] else numbers;
  }

  lemma TakenDiv(a: int, b: int)
    requires a <= b
    ensures a / 15 <= b / 15
  {
  }

  /**
   Over every run: each report is the zero state or one whole message the host sent, the
   messages shown never go back, and no more messages are sent than `U`s emitted plus one.
   */
  lemma {:induction false} ReportsAreMessages(steps: seq<Step>) returns (numbers: seq<nat>)
    requires Run(steps).Some?
    ensures var s := Run(steps).value;
            && Consistent(s) && Explains(numbers, s.reports, s.sent, Taken(s) / 15)
            && |s.sent| <= s.emitted + 1
    decreases steps
  {
    hide Do, Enabled, Explains, Consistent, Taken, Initial;
    if steps == [] {
      InitialConsistent();
      numbers := [];
      NothingReported();
    } else {
      var before := ReportsAreMessages(steps[..|steps| - 1]);
      numbers := ExplainsStep(Run(steps[..|steps| - 1]).value, steps[|steps| - 1], before);
    }
    SentWithinEmitted(Run(steps).value);
  }

  lemma SentWithinEmitted(s: System)
    requires Consistent(s)
    ensures |s.sent| <= s.emitted + 1
  {
  }

  lemma NothingReported()
    ensures var s := Initial(); Explains([], s.reports, s.sent, Taken(s) / 15) && s.sent == []
  {
  }

  /** Once the line and the ring are drained, the next report is the last message sent. */
  lemma DrainedShowsLast(steps: seq<Step>)
    requires Run(steps).Some? && Run(steps).value.channel == [] && UnreadCount(Run(steps).value.ring) == 0
    ensures var s := Run(steps).value;
            s.parser.report == if s.sent == [] then ZERO_REPORT else s.sent[|s.sent| - 1]
    ensures var s := Run(steps).value;
            s.phase.Hid? ==>
              Do(s, SendReport).reports ==
              s.reports + [if s.sent == [] then ZERO_REPORT else s.sent[|s.sent| - 1]]
  {
    hide Run, Consistent;
    var s := Run(steps).value;
    var numbers := ReportsAreMessages(steps);
    ReportShows(s);
    assert Taken(s) / 15 == |s.sent|;
  }

  // ---- The main loop ----------------------------------------------------------

  predicate HidStep(step: Step) {
    step.SendReport? || step.NoReport?
  }

  /** HID_Task is next: since the last end of Serial_Task, or the start, it has not run. */
  predicate HidNext(steps: seq<Step>) {
    if steps == [] then true
    else
      var step := steps[|steps| - 1];
      step.SerialDone? || (!HidStep(step) && HidNext(steps[..|steps| - 1]))
  }

  lemma {:induction false} PhaseIsNext(steps: seq<Step>)
    requires Run(steps).Some?
    ensures Run(steps).value.phase.Hid? <==> HidNext(steps)
    decreases steps
  {
    if steps != [] {
      hide Push, Pop, TakeChar, Message;
      PhaseIsNext(steps[..|steps| - 1]);
    }
  }

  /** The tasks take turns: HID_Task runs exactly once between two ends of Serial_Task. */
  lemma {:induction false} TasksTakeTurns(steps: seq<Step>, i: nat, j: nat)
    requires Run(steps).Some? && i < j < |steps| && HidStep(steps[i]) && HidStep(steps[j])
    ensures exists k :: i < k < j && steps[k].SerialDone?
    decreases steps
  {
    var front, last := steps[..|steps| - 1], |steps| - 1;
    if j < last {
      TasksTakeTurns(front, i, j);
      var k :| i < k < j && front[k].SerialDone?;
      assert steps[k].SerialDone?;
    } else {
      PhaseIsNext(front);
      SerialSince(front, i);
      var k :| i < k < |front| && front[k].SerialDone?;
      assert steps[k].SerialDone?;
    }
  }

  lemma {:induction false} SerialSince(steps: seq<Step>, i: nat)
    requires HidNext(steps) && i < |steps| && HidStep(steps[i])
    ensures exists k :: i < k < |steps| && steps[k].SerialDone?
    decreases steps
  {
    var front, last := steps[..|steps| - 1], |steps| - 1;
    if !steps[last].SerialDone? {
      SerialSince(front, i);
      var k :| i < k < |front| && front[k].SerialDone?;
      assert steps[k].SerialDone?;
    }
  }

  /** How many bytes had arrived when Serial_Task last ended. */
  function ArrivedBefore(steps: seq<Step>): int
    requires Run(steps).Some?
  {
    if steps == [] then 0
    else if steps[|steps| - 1].SerialDone? then Received(Run(steps).value)
    else ArrivedBefore(steps[..|steps| - 1])
  }

  /** Every report shows at least what had arrived when Serial_Task last ended. */
  lemma {:induction false} CaughtUp(steps: seq<Step>)
    requires Run(steps).Some?
    ensures var s := Run(steps).value;
            && Consistent(s) && ArrivedBefore(steps) <= Taken(s)
            && s.parser.report == Numbered(s.sent, Taken(s) / 15)
    decreases steps
  {
    hide Consistent, Initial;
    var numbers := ReportsAreMessages(steps);
    ReportShows(Run(steps).value);
    if steps == [] {
      NothingReceived();
    } else {
      var front, step := steps[..|steps| - 1], steps[|steps| - 1];
      CaughtUp(front);
      if step.SerialDone? {
        EmptyCount(Run(front).value.ring);
      } else {
        StepConsistent(Run(front).value, step);
      }
    }
  }

  lemma NothingReceived()
    ensures Received(Initial()) == 0 && Taken(Initial()) == 0
  {
  }

  lemma EmptyCount(r: Ring)
    requires r.tail == r.head
    ensures UnreadCount(r) == 0
  {
  }

  // ---- Every message can be shown ---------------------------------------------

  /** The system after further steps, if every one is enabled in its turn. */
  function After(s: System, steps: seq<Step>): Option<System>
    decreases steps
  {
    if steps == [] then Some(s)
    else if Enabled(s, steps[0]) then After(Do(s, steps[0]), steps[1..])
    else None
  }

  lemma {:induction false} RunAfter(steps: seq<Step>, more: seq<Step>)
    requires Run(steps).Some? && After(Run(steps).value, more).Some?
    ensures Run(steps + more) == After(Run(steps).value, more)
    decreases more
  {
    hide Enabled, Do;
    if more == [] {
      assert steps + more == steps;
    } else {
      var steps' := steps + [more[0]];
      assert steps'[..|steps'| - 1] == steps;
      RunAfter(steps', more[1..]);
      assert steps' + more[1..] == steps + more;
    }
  }

  lemma AfterOne(s: System, step: Step, more: seq<Step>)
    requires Enabled(s, step)
    ensures After(s, [step] + more) == After(Do(s, step), more)
  {
    hide Enabled, Do;
    assert ([step] + more)[1..] == more;
  }

  lemma AfterNothing(s: System)
    ensures After(s, []) == Some(s)
  {
  }

  lemma {:induction false} AfterAppend(s: System, a: seq<Step>, b: seq<Step>)
    requires After(s, a).Some?
    ensures After(s, a + b) == After(After(s, a).value, b)
    decreases a
  {
    hide Enabled, Do;
    if a == [] {
      assert a + b == b;
    } else {
      AfterAppend(Do(s, a[0]), a[1..], b);
      assert (a + b)[1..] == a[1..] + b;
    }
  }

  /** The main loop gets to Serial_Task. */
  lemma ToSerial(s: System) returns (more: seq<Step>)
    ensures After(s, more) == Some(s.(phase := Serial))
  {
    more := match s.phase case Hid => [NoReport, UsbDone] case Usb => [UsbDone] case Serial => [];
    match s.phase {
      case Hid =>
        assert [NoReport, UsbDone] == [NoReport] + ([UsbDone] + []);
        AfterOne(s, NoReport, [UsbDone]);
        AfterOne(s.(phase := Usb), UsbDone, []);
      case Usb =>
        assert [UsbDone] == [UsbDone] + [];
        AfterOne(s, UsbDone, []);
      case Serial =>
    }
  }

  /** What stays as it is while the line is drained. */
  predicate SameBut(s: System, t: System) {
    t.sent == s.sent && t.waiting == s.waiting && t.reports == s.reports && t.phase == s.phase && t.acks == s.acks
  }

  /** Serial_Task takes all that has arrived, and all that is still on the line if it comes. */
  lemma {:induction false} Drain(s: System) returns (more: seq<Step>, t: System)
    requires Consistent(s) && s.phase.Serial?
    ensures After(s, more) == Some(t) && Consistent(t) && SameBut(s, t)
    ensures t.channel == [] && t.ring.tail == t.ring.head
    decreases |s.channel|, UnreadCount(s.ring)
  {
    hide Consistent, Push, Pop, Front, UnreadCount, After, TakeChar;
    if s.ring.tail != s.ring.head {
      StepConsistent(s, ParseByte);
      PopFewer(s.ring);
      var rest;
      rest, t := Drain(Do(s, ParseByte));
      more := [ParseByte] + rest;
      AfterOne(s, ParseByte, rest);
    } else if s.channel != [] {
      EmptyCount(s.ring);
      StepConsistent(s, ByteArrives);
      var rest;
      rest, t := Drain(Do(s, ByteArrives));
      more := [ByteArrives] + rest;
      AfterOne(s, ByteArrives, rest);
    } else {
      more, t := [], s;
      AfterNothing(s);
    }
  }

  lemma PopFewer(r: Ring)
    requires r.tail != r.head
    ensures UnreadCount(Pop(r)) < UnreadCount(r)
  {
    PopSlot(r, 0);
  }

  lemma DrainedReport(s: System)
    requires Consistent(s) && s.channel == [] && s.ring.tail == s.ring.head
    ensures s.parser.report == if s.sent == [] then ZERO_REPORT else s.sent[|s.sent| - 1]
  {
    hide Consistent;
    ReportShows(s);
    EmptyCount(s.ring);
    assert Taken(s) / 15 == |s.sent|;
  }

  /**
   From every system that any run leads to there are further steps, none of them a new
   message, after which the console has been given the last message sent and the host, if it
   was waiting, has read its `U` and may send the next.
   */
  lemma EveryMessageCanBeShown(steps: seq<Step>) returns (more: seq<Step>)
    requires Run(steps).Some?
    ensures Run(steps + more).Some?
    ensures var s, t := Run(steps).value, Run(steps + more).value;
            && t.sent == s.sent && !t.waiting
            && t.reports == s.reports + [if s.sent == [] then ZERO_REPORT else s.sent[|s.sent| - 1]]
  {
    hide Run, Consistent, After, Enabled, Do;
    var s := Run(steps).value;
    var numbers := ReportsAreMessages(steps);
    var a := ToSerial(s);
    var d := s.(phase := Serial);
    PhaseConsistent(s, Serial);
    var b, t := Drain(d);
    DrainedReport(t);
    var c := LastSteps(t);
    AfterAppend(s, a, b);
    AfterAppend(s, a + b, c);
    more := a + b + c;
    RunAfter(steps, more);
  }

  lemma PhaseConsistent(s: System, phase: Phase)
    requires Consistent(s)
    ensures Consistent(s.(phase := phase))
  {
    hide Accounted, AllBytes;
  }

  /** Serial_Task ends, HID_Task reports and acknowledges, the host reads. */
  lemma LastSteps(t: System) returns (c: seq<Step>)
    requires t.phase.Serial? && t.ring.tail == t.ring.head
    ensures var u := After(t, c);
            u.Some? && u.value.sent == t.sent && !u.value.waiting && u.value.reports == t.reports + [t.parser.report]
  {
    hide After;
    var e := t.(phase := Hid);
    AfterOne(t, SerialDone, [SendReport] + (if t.waiting then [HostRead] else []));
    AfterOne(e, SendReport, if t.waiting then [HostRead] else []);
    var r := Do(e, SendReport);
    if t.waiting {
      assert [HostRead] == [HostRead] + [];
      AfterOne(r, HostRead, []);
      AfterNothing(Do(r, HostRead));
    } else {
      AfterNothing(r);
    }
    c := [SerialDone] + ([SendReport] + (if t.waiting then [HostRead] else []));
  }
}
