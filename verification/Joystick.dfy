/**
 The controller firmware: a receive interrupt that fills a ring buffer, a parser that
 empties it, and the USB report it keeps.
 */
module Joystick {
  import opened Basics
  import opened Bits

  const RING_SIZE := 256

  // ---- The ring ---------------------------------------------------------------

  /** buffer, buffer_head and buffer_tail; the indices are 8 bits wide. */
  datatype RingCells = Ring(cells: seq<byte>, head: byte, tail: byte)

  type Ring = r: RingCells | |r.cells| == RING_SIZE witness Ring(seq<byte>(RING_SIZE, i => 0), 0, 0)

  function UnreadCount(r: Ring): nat {
    (r.head - r.tail) % RING_SIZE
  }

  /** Where the `i`-th unread byte lies. */
  function Slot(r: Ring, i: nat): byte {
    (r.tail + i) % RING_SIZE
  }

  /** The bytes between tail and head, oldest first. */
  function Unread(r: Ring): (u: seq<byte>)
    ensures |u| == UnreadCount(r)
  {
    seq<byte>(UnreadCount(r), i requires 0 <= i < UnreadCount(r) => r.cells[Slot(r, i)])
  }

  /** The interrupt's test for an overrun: an int comparison, never true when tail is zero. */
  predicate ReportsOverrun(r: Ring) {
    r.head == r.tail - 1
  }

  /** Store one received byte. */
  function Push(r: Ring, c: byte): Ring {
    Ring(r.cells[r.head := c], (r.head + 1) % RING_SIZE, r.tail)
  }

  function Front(r: Ring): byte {
    r.cells[r.tail]
  }

  function Pop(r: Ring): Ring {
    r.(tail := (r.tail + 1) % RING_SIZE)
  }

  /** With room left the ring is a queue; one byte too many empties it. */
  lemma PushUnread(r: Ring, c: byte)
    ensures UnreadCount(r) < 255 ==> Unread(Push(r, c)) == Unread(r) + [c]
    ensures UnreadCount(r) == 255 ==> Unread(Push(r, c)) == []
  {
    hide Slot, UnreadCount;
    PushCount(r, c);
    if UnreadCount(r) < 255 {
      forall i | 0 <= i <= UnreadCount(r)
        ensures Unread(Push(r, c))[i] == (Unread(r) + [c])[i]
      {
        PushSlot(r, c, i);
      }
    }
  }

  lemma PushCount(r: Ring, c: byte)
    ensures UnreadCount(Push(r, c)) == if UnreadCount(r) == 255 then 0 else UnreadCount(r) + 1
  {
    hide UnreadCount;
    CountIs(r);
    CountIs(Push(r, c));
  }

  /** Pushing keeps the places of unread bytes, and the new one lies behind them. */
  lemma PushSlot(r: Ring, c: byte, i: nat)
    requires i <= UnreadCount(r) < 255
    ensures Slot(Push(r, c), i) == Slot(r, i) && (Slot(r, i) == r.head <==> i == UnreadCount(r))
  {
    hide UnreadCount;
    CountIs(r);
    SlotIs(r, i);
  }

  lemma SlotIs(r: Ring, i: nat)
    requires i < 256
    ensures Slot(r, i) == if r.tail + i < 256 then r.tail + i else r.tail + i - 256
  {
  }

  lemma PopUnread(r: Ring)
    requires r.tail != r.head
    ensures Unread(r) != [] && Front(r) == Unread(r)[0] && Unread(Pop(r)) == Unread(r)[1..]
  {
    hide Slot;
    PopSlot(r, 0);
    forall i | 0 <= i < UnreadCount(r) - 1
      ensures Unread(Pop(r))[i] == Unread(r)[i + 1]
    {
      PopSlot(r, i);
    }
  }

  lemma PopSlot(r: Ring, i: nat)
    requires r.tail != r.head
    ensures Slot(Pop(r), i) == Slot(r, i + 1) && Slot(r, 0) == r.tail && UnreadCount(Pop(r)) == UnreadCount(r) - 1
  {
    hide UnreadCount;
    Mod256Add(r.tail + 1, i);
    CountIs(r);
    CountIs(Pop(r));
  }

  lemma CountIs(r: Ring)
    ensures UnreadCount(r) == if r.head < r.tail then r.head + 256 - r.tail else r.head - r.tail
  {
    Distance(r.head, r.tail);
  }

  lemma Distance(h: nat, t: nat)
    requires h < 256 && t < 256
    ensures (h - t) % 256 == if h < t then h + 256 - t else h - t
  {
  }

  /** The overrun warning comes exactly when 255 bytes are unread and tail is not zero. */
  lemma OverrunReportedIff(r: Ring)
    ensures ReportsOverrun(r) <==> UnreadCount(r) == 255 && r.tail != 0
  {
  }

  // ---- The line parser --------------------------------------------------------

  /** HAT2, buttons, LX2, LY2, RX2 and RY2. */
  datatype Report = Report(hat: byte, buttons: uint16, lx: byte, ly: byte, rx: byte, ry: byte)

  const ZERO_REPORT := Report(0, 0, 0, 0, 0, 0)

  /**
   The static variables of Serial_Task and the report fields. `corrupt` records a store
   behind the end of b.
   */
  datatype ParserFields = Parser(l: nat, b: seq<byte>, report: Report, corrupt: bool)

  type Parser = p: ParserFields | |p.b| == 7 witness Parser(0, [0, 0, 0, 0, 0, 0, 0], ZERO_REPORT, false)

  const ZERO_BYTES: seq<byte> := [0, 0, 0, 0, 0, 0, 0]

  const INITIAL_PARSER: Parser := Parser(0, ZERO_BYTES, ZERO_REPORT, false)

  function HexValue(c: byte): (v: int)
    ensures -1 <= v < 16
  {
    if 48 <= c <= 57 then c - 48
    else if 97 <= c <= 102 then c - 97 + 10
    else if 65 <= c <= 70 then c - 65 + 10
    else -1
  }

  /** A character counts as a digit exactly if it is one, and for its value, in either case. */
  lemma HexValueMeans(c: byte, v: nat)
    requires v < 16
    ensures HexValue(c) == v <==> c as char == LOWER_DIGITS[v] || c as char == UPPER_DIGITS[v]
  {
  }

  predicate EndsLine(c: byte) {
    c == CR || c == LF
  }

  function ReportOf(b: seq<byte>): Report
    requires |b| == 7
  {
    Report(b[0], Word(b[2], b[1]), b[3], b[4], b[5], b[6])
  }

  /** `b[l/2] |= val << (4*((l+1)%2))`. */
  function StoreNibble(b: seq<byte>, l: nat, v: nat): (r: seq<byte>)
    requires |b| == 7 && l < 14 && v < 16
    ensures |r| == 7
  {
    b[l / 2 := BitOr(b[l / 2], if l % 2 == 0 then v * 16 else v) % 256]
  }

  /** One character of Serial_Task. */
  function TakeChar(p: Parser, c: byte): Parser {
    if EndsLine(c) then Parser(0, ZERO_BYTES, if p.l == 14 then ReportOf(p.b) else p.report, p.corrupt)
    else
      var v := HexValue(c);
      if v < 0 then p
      else if p.l >= 14 then p.(l := (p.l + 1) % 256, corrupt := true)
      else p.(b := StoreNibble(p.b, p.l, v), l := p.l + 1)
  }

  function TakeChars(p: Parser, cs: seq<byte>): Parser {
    if cs == [] then p else TakeChar(TakeChars(p, cs[..|cs| - 1]), cs[|cs| - 1])
  }

  lemma NoChars(p: Parser)
    ensures TakeChars(p, []) == p
  {
  }

  lemma TakeCharsSnoc(p: Parser, cs: seq<byte>, c: byte)
    ensures TakeChars(p, cs + [c]) == TakeChar(TakeChars(p, cs), c)
  {
    assert (cs + [c])[..|cs|] == cs;
  }

  // ---- Lines ------------------------------------------------------------------

  /** The hexadecimal digits of the line that `cs` ends in. */
  function LineDigits(cs: seq<byte>): seq<nat> {
    if cs == [] then []
    else
      var c, before := cs[|cs| - 1], LineDigits(cs[..|cs| - 1]);
      if EndsLine(c) then [] else if HexValue(c) >= 0 then before + [HexValue(c)] else before
  }

  function DigitAt(ds: seq<nat>, k: nat): nat {
    if k < |ds| && ds[k] < 16 then ds[k] else 0
  }

  /** Seven bytes from fourteen digits; missing digits count as zero. */
  function Packed(ds: seq<nat>): (b: seq<byte>)
    ensures |b| == 7
  {
    seq<byte>(7, i requires 0 <= i < 7 => DigitAt(ds, 2 * i) * 16 + DigitAt(ds, 2 * i + 1))
  }

  /** The report that the last whole line of exactly fourteen digits spells. */
  function LastLine(cs: seq<byte>): Report {
    if cs == [] then ZERO_REPORT
    else
      var before := cs[..|cs| - 1];
      if EndsLine(cs[|cs| - 1]) && |LineDigits(before)| == 14 then ReportOf(Packed(LineDigits(before)))
      else LastLine(before)
  }

  /** The digits of a line are counted modulo 256, too many included. */
  lemma {:induction false} DigitsCounted(cs: seq<byte>)
    ensures TakeChars(INITIAL_PARSER, cs).l == |LineDigits(cs)| % 256
  {
    if cs != [] {
      hide StoreNibble, HexValue, EndsLine, ReportOf, LineDigits, TakeChars;
      var before, c := cs[..|cs| - 1], cs[|cs| - 1];
      DigitsCounted(before);
      assert cs == before + [c];
      TakeCharsSnoc(INITIAL_PARSER, before, c);
      DigitsSnoc(before, c);
      CountedOn(|LineDigits(before)|);
    } else {
      NoChars(INITIAL_PARSER);
    }
  }

  lemma DigitsSnoc(cs: seq<byte>, c: byte)
    ensures |LineDigits(cs + [c])| ==
            if EndsLine(c) then 0 else |LineDigits(cs)| + (if HexValue(c) >= 0 then 1 else 0)
  {
    assert (cs + [c])[..|cs|] == cs;
  }

  lemma CountedOn(n: nat)
    ensures (n + 1) % 256 == if n % 256 < 14 then n % 256 + 1 else (n % 256 + 1) % 256
  {
  }

  /** No line has more than fourteen digits. */
  predicate ShortLines(cs: seq<byte>) {
    forall k :: 0 <= k <= |cs| ==> |LineDigits(cs[..k])| <= 14
  }

  lemma {:induction false} LineDigitsSmall(cs: seq<byte>)
    ensures forall i :: 0 <= i < |LineDigits(cs)| ==> LineDigits(cs)[i] < 16
  {
    if cs != [] {
      LineDigitsSmall(cs[..|cs| - 1]);
    }
  }

  lemma {:induction false} AndApart(h: nat, v: nat)
    requires v < 16
    ensures BitAnd(h * 16, v) == 0
  {
    if h > 0 && v > 0 {
      assert h * 16 / 2 == h * 8 && h * 8 / 2 == h * 4 && h * 4 / 2 == h * 2 && h * 2 / 2 == h;
      assert BitAnd(h, v / 16) == 0;
      assert BitAnd(h * 2, v / 8) == 0;
      assert BitAnd(h * 4, v / 4) == 0;
      assert BitAnd(h * 8, v / 2) == 0;
    }
  }

  lemma NibbleStored(ds: seq<nat>, v: nat, k: nat)
    requires k == |ds| / 2 < 7 && v < 16
    ensures Packed(ds + [v])[k] == BitOr(Packed(ds)[k], if |ds| % 2 == 0 then v * 16 else v) % 256
  {
    hide BitAnd, DigitAt;
    DigitsAt(ds, v, k);
    if |ds| % 2 == 0 {
      OrZero(v * 16);
    } else {
      var h := DigitAt(ds, 2 * k);
      AndApart(h, v);
      assert Packed(ds)[k] == h * 16 && Packed(ds + [v])[k] == h * 16 + v;
    }
  }

  lemma OrZero(x: nat)
    ensures BitOr(0, x) == x
  {
  }

  lemma DigitsAt(ds: seq<nat>, v: nat, k: nat)
    requires k == |ds| / 2 < 7 && v < 16
    ensures DigitAt(ds, 2 * k + 1) == 0 && DigitAt(ds, 2 * k) < 16
    ensures if |ds| % 2 == 0
            then DigitAt(ds, 2 * k) == 0 && DigitAt(ds + [v], 2 * k) == v && DigitAt(ds + [v], 2 * k + 1) == 0
            else DigitAt(ds + [v], 2 * k) == DigitAt(ds, 2 * k) && DigitAt(ds + [v], 2 * k + 1) == v
  {
  }

  lemma PackedStep(ds: seq<nat>, v: nat)
    requires |ds| < 14 && v < 16
    ensures StoreNibble(Packed(ds), |ds|, v) == Packed(ds + [v])
  {
    hide BitOr;
    var k := |ds| / 2;
    NibbleStored(ds, v, k);
    forall i | 0 <= i < 7 && i != k
      ensures Packed(ds + [v])[i] == Packed(ds)[i]
    {
      assert DigitAt(ds + [v], 2 * i) == DigitAt(ds, 2 * i);
      assert DigitAt(ds + [v], 2 * i + 1) == DigitAt(ds, 2 * i + 1);
    }
  }

  /**
   The parser, fed a character at a time and in any portions, keeps the report of the last
   whole line with exactly fourteen digits, and never stores outside its buffer, as long
   as no line has more than fourteen digits.
   */
  lemma {:induction false} ParserRefinesLines(cs: seq<byte>)
    requires ShortLines(cs)
    ensures TakeChars(INITIAL_PARSER, cs) == Parser(|LineDigits(cs)|, Packed(LineDigits(cs)), LastLine(cs), false)
  {
    if cs == [] {
      assert Packed([]) == ZERO_BYTES;
    } else {
      hide Packed, StoreNibble, ReportOf;
      var before, c := cs[..|cs| - 1], cs[|cs| - 1];
      assert forall k :: 0 <= k <= |before| ==> cs[..k] == before[..k];
      assert cs[..|cs|] == cs && before[..|before|] == before;
      ParserRefinesLines(before);
      LineDigitsSmall(before);
      NothingPacked();
      if !EndsLine(c) && HexValue(c) >= 0 {
        PackedStep(LineDigits(before), HexValue(c));
      }
    }
  }

  lemma NothingPacked()
    ensures Packed([]) == ZERO_BYTES
  {
  }

  /** `b` is stored past its end if and only if some line gets a fifteenth digit. */
  lemma {:induction false} LongLineCorruptsIff(cs: seq<byte>)
    ensures TakeChars(INITIAL_PARSER, cs).corrupt <==> !ShortLines(cs)
  {
    if cs == [] {
      assert LineDigits(cs[..0]) == [];
    } else {
      hide LineDigits;
      var before, c := cs[..|cs| - 1], cs[|cs| - 1];
      assert cs == before + [c];
      LongLineCorruptsIff(before);
      TakeCharsSnoc(INITIAL_PARSER, before, c);
      ShortLinesSnoc(before, c);
      LineDigitsSnoc(before, c);
      if ShortLines(before) {
        ParserRefinesLines(before);
      }
    }
  }

  lemma ShortLinesSnoc(cs: seq<byte>, c: byte)
    ensures ShortLines(cs + [c]) <==> ShortLines(cs) && |LineDigits(cs + [c])| <= 14
  {
    hide LineDigits;
    assert (cs + [c])[..|cs| + 1] == cs + [c];
    assert forall k :: 0 <= k <= |cs| ==> (cs + [c])[..k] == cs[..k];
  }

  lemma LineDigitsSnoc(cs: seq<byte>, c: byte)
    ensures LineDigits(cs + [c]) ==
            if EndsLine(c) then [] else if HexValue(c) >= 0 then LineDigits(cs) + [HexValue(c)] else LineDigits(cs)
  {
    assert (cs + [c])[..|cs|] == cs;
  }

  // ---- Arrivals and parsing, interleaved --------------------------------------

  /** A byte arrives, or Serial_Task's loop takes one if there is any. */
  datatype Event = Arrive(c: byte) | Parse

  /** The ring, the parser, and what has been printed. */
  datatype Machine = Machine(ring: Ring, parser: Parser, printed: string)

  function Step(m: Machine, e: Event): Machine {
    match e
    case Arrive(c) =>
      m.(ring := Push(m.ring, c), printed := m.printed + if ReportsOverrun(m.ring) then "X" else "")
    case Parse =>
      if m.ring.tail == m.ring.head then m
      else m.(ring := Pop(m.ring), parser := TakeChar(m.parser, Front(m.ring)))
  }

  function RunFrom(m: Machine, es: seq<Event>): Machine {
    if es == [] then m else Step(RunFrom(m, es[..|es| - 1]), es[|es| - 1])
  }

  /** The bytes that arrive, in order. */
  function Arrived(es: seq<Event>): seq<byte> {
    if es == [] then []
    else Arrived(es[..|es| - 1]) + (if es[|es| - 1].Arrive? then [es[|es| - 1].c] else [])
  }

  /** No byte arrives while 255 are unread. */
  predicate Room(m: Machine, es: seq<Event>) {
    es != [] ==>
      && Room(m, es[..|es| - 1])
      && (es[|es| - 1].Arrive? ==> UnreadCount(RunFrom(m, es[..|es| - 1]).ring) < 255)
  }

  /** Of the bytes `arrived` the last are unread, and the parser has taken those before. */
  predicate Accounted(start: Parser, ring: Ring, parser: Parser, arrived: seq<byte>) {
    var k := |arrived| - UnreadCount(ring);
    && 0 <= k && arrived[k..] == Unread(ring)
    && parser == TakeChars(start, arrived[..k])
  }

  lemma ArriveAccounted(start: Parser, ring: Ring, parser: Parser, arrived: seq<byte>, c: byte)
    requires Accounted(start, ring, parser, arrived) && UnreadCount(ring) < 255
    ensures Accounted(start, Push(ring, c), parser, arrived + [c])
  {
    hide TakeChars, Push, UnreadCount, Unread;
    PushUnread(ring, c);
    PushCount(ring, c);
    SplitAppend(arrived, |arrived| - UnreadCount(ring), [c]);
  }

  lemma ParseAccounted(start: Parser, ring: Ring, parser: Parser, arrived: seq<byte>)
    requires Accounted(start, ring, parser, arrived) && ring.tail != ring.head
    ensures Accounted(start, Pop(ring), TakeChar(parser, Front(ring)), arrived)
  {
    hide TakeChars, TakeChar, Pop, Front, UnreadCount, Unread;
    PopUnread(ring);
    PopSlot(ring, 0);
    var k := |arrived| - UnreadCount(ring);
    TakeCharsSnoc(start, arrived[..k], arrived[k]);
    assert arrived[..k + 1] == arrived[..k] + [arrived[k]];
    assert arrived[k + 1..] == arrived[k..][1..];
  }

  /** Whatever the interleaving, as long as there is room no byte is lost, repeated or moved. */
  lemma {:induction false} RunAccounted(start: Parser, m: Machine, arrived: seq<byte>, es: seq<Event>)
    requires Accounted(start, m.ring, m.parser, arrived) && Room(m, es)
    ensures var n := RunFrom(m, es);
            Accounted(start, n.ring, n.parser, arrived + Arrived(es)) && n.printed == m.printed
    decreases es
  {
    hide Accounted, Push, Pop, Front, TakeChar, UnreadCount;
    if es == [] {
      assert arrived + Arrived(es) == arrived;
    } else {
      var before, e := es[..|es| - 1], es[|es| - 1];
      RunAccounted(start, m, arrived, before);
      var n, all := RunFrom(m, before), arrived + Arrived(before);
      match e {
        case Arrive(c) =>
          ArriveAccounted(start, n.ring, n.parser, all, c);
          Assoc(arrived, Arrived(before), [c]);
          OverrunReportedIff(n.ring);
          assert n.printed + "" == n.printed;
        case Parse =>
          if n.ring.tail != n.ring.head {
            ParseAccounted(start, n.ring, n.parser, all);
          }
          assert arrived + (Arrived(before) + []) == all;
      }
    }
  }

  /** How many bytes arrive while 255 are unread and the tail is not at zero. */
  function Overruns(m: Machine, es: seq<Event>): nat {
    if es == [] then 0
    else
      var before := RunFrom(m, es[..|es| - 1]).ring;
      Overruns(m, es[..|es| - 1]) +
      if es[|es| - 1].Arrive? && UnreadCount(before) == 255 && before.tail != 0 then 1 else 0
  }

  function Crosses(n: nat): string {
    if n == 0 then "" else Crosses(n - 1) + "X"
  }

  /** In every run, room or not, one X is printed for each of them and nothing else. */
  lemma {:induction false} OverrunsPrinted(m: Machine, es: seq<Event>)
    ensures RunFrom(m, es).printed == m.printed + Crosses(Overruns(m, es))
    decreases es
  {
    if es == [] {
      assert m.printed + "" == m.printed;
    } else {
      hide Push, Pop, TakeChar, UnreadCount, ReportsOverrun;
      var before := es[..|es| - 1];
      OverrunsPrinted(m, before);
      OverrunReportedIff(RunFrom(m, before).ring);
      Assoc(m.printed, Crosses(Overruns(m, before)), "X");
    }
  }

  function EmptyRing(): Ring {
    Ring(seq<byte>(RING_SIZE, i => 0), 0, 0)
  }

  const POWER_UP: Machine := Machine(EmptyRing(), INITIAL_PARSER, "")

  /** The parser shows the last line with exactly fourteen digits, or some line was too long. */
  predicate ShowsLastLine(p: Parser, taken: seq<byte>) {
    && (p.corrupt <==> !ShortLines(taken))
    && (ShortLines(taken) ==>
        p == Parser(|LineDigits(taken)|, Packed(LineDigits(taken)), LastLine(taken), false))
  }

  lemma TakenShows(taken: seq<byte>)
    ensures ShowsLastLine(TakeChars(INITIAL_PARSER, taken), taken)
  {
    hide TakeChars, ShortLines, LineDigits, LastLine, Packed;
    LongLineCorruptsIff(taken);
    if ShortLines(taken) {
      ParserRefinesLines(taken);
    }
  }

  /**
   For every interleaving of arrivals and parsing with at most 255 unread bytes: the bytes
   taken and the bytes unread are those that arrived, in order, no overrun is reported,
   and if no line taken has more than fourteen digits the report is that of the last line
   with exactly fourteen, and nothing is stored outside b.
   */
  lemma RingAndParser(es: seq<Event>)
    requires Room(POWER_UP, es)
    ensures var m, arrived := RunFrom(POWER_UP, es), Arrived(es);
            var k := |arrived| - UnreadCount(m.ring);
            && 0 <= k && arrived[k..] == Unread(m.ring) && m.printed == ""
            && ShowsLastLine(m.parser, arrived[..k])
  {
    hide Accounted, ShowsLastLine, RunFrom, Arrived, Room, UnreadCount, Unread, EmptyRing;
    var m, arrived := RunFrom(POWER_UP, es), Arrived(es);
    NothingArrived();
    RunAccounted(INITIAL_PARSER, POWER_UP, [], es);
    assert [] + arrived == arrived;
    AccountedShows(m.ring, m.parser, arrived);
  }

  lemma AccountedShows(r: Ring, p: Parser, arrived: seq<byte>)
    requires Accounted(INITIAL_PARSER, r, p, arrived)
    ensures var k := |arrived| - UnreadCount(r);
            0 <= k && arrived[k..] == Unread(r) && ShowsLastLine(p, arrived[..k])
  {
    hide TakeChars, ShowsLastLine, UnreadCount, Unread;
    TakenShows(arrived[..|arrived| - UnreadCount(r)]);
  }

  lemma NothingArrived()
    ensures Accounted(INITIAL_PARSER, POWER_UP.ring, POWER_UP.parser, [])
  {
    assert Unread(EmptyRing()) == [];
  }

  /** A byte that arrives in the middle of a round of the loop might as well come after it. */
  lemma ArrivalCommutes(r: Ring, c: byte)
    requires r.tail != r.head && UnreadCount(r) < 255
    ensures Front(Push(r, c)) == Front(r) && Pop(Push(r, c)) == Push(Pop(r), c)
  {
  }

  lemma ArrivedSnoc(es: seq<Event>, e: Event)
    ensures Arrived(es + [e]) == Arrived(es) + if e.Arrive? then [e.c] else []
  {
    assert (es + [e])[..|es|] == es;
  }

  lemma RunSnoc(m: Machine, es: seq<Event>, e: Event)
    ensures RunFrom(m, es + [e]) == Step(RunFrom(m, es), e)
  {
    hide Step;
    assert (es + [e])[..|es|] == es;
  }

  lemma NoEvents(m: Machine)
    ensures RunFrom(m, []) == m && Arrived([]) == []
  {
  }

  lemma NoBatches(arriving: seq<seq<byte>>)
    ensures Flatten(arriving[..0]) == []
  {
  }

  lemma StepShrinks(m: Machine)
    requires m.ring.tail != m.ring.head
    ensures |Unread(Step(m, Parse).ring)| == |Unread(m.ring)| - 1
  {
    hide TakeChar, Unread;
    PopUnread(m.ring);
  }

  lemma AllTaken(m: Machine, es: seq<Event>)
    requires RunFrom(m, es).ring.tail == RunFrom(m, es).ring.head
    ensures Unread(RunFrom(m, es).ring) == []
    ensures Room(m, es) ==> RunFrom(m, es).parser == TakeChars(m.parser, Unread(m.ring) + Arrived(es))
  {
    hide Room, RunFrom, TakeChars, Arrived;
    var n, all := RunFrom(m, es), Unread(m.ring);
    if Room(m, es) {
      NoChars(m.parser);
      assert all[..0] == [] && all[0..] == all;
      RunAccounted(m.parser, m, all, es);
      assert (all + Arrived(es))[..|all + Arrived(es)|] == all + Arrived(es);
    }
  }

  // ---- The program ------------------------------------------------------------

  class Firmware {
    const buffer: array<byte>
    var bufferHead: byte
    var bufferTail: byte
    var l: nat
    const b: array<byte>
    var hat2: byte
    var buttons: uint16
    var lx2: byte
    var ly2: byte
    var rx2: byte
    var ry2: byte
    /** Whether b has been stored past its end. */
    var corrupt: bool
    /** Characters printed to the serial line. */
    var printed: string

    ghost predicate Valid()
      reads this
    {
      buffer != b && buffer.Length == RING_SIZE && b.Length == 7
    }

    ghost function RingView(): Ring
      requires Valid()
      reads this, buffer
    {
      Ring(buffer[..], bufferHead, bufferTail)
    }

    ghost function ParserView(): Parser
      requires Valid()
      reads this, b
    {
      Parser(l, b[..], Report(hat2, buttons, lx2, ly2, rx2, ry2), corrupt)
    }

    ghost function View(): Machine
      requires Valid()
      reads this, buffer, b
    {
      Machine(RingView(), ParserView(), printed)
    }

    constructor ()
      ensures Valid() && fresh(buffer) && fresh(b) && View() == POWER_UP
      ensures Unread(RingView()) == [] && ParserView() == INITIAL_PARSER
    {
      buffer := new byte[RING_SIZE](i => 0);
      b := new byte[7](i => 0);
      bufferHead, bufferTail, l, corrupt, printed := 0, 0, 0, false, "";
      hat2, buttons, lx2, ly2, rx2, ry2 := 0, 0, 0, 0, 0, 0;
      new;
      assert b[..] == ZERO_BYTES;
      assert buffer[..] == seq<byte>(RING_SIZE, i => 0);
    }

    /** USART1_RX_vect. */
    method ReceiveInterrupt(c: byte)
      requires Valid()
      modifies this`bufferHead, this`printed, buffer
      ensures Valid() && View() == Step(old(View()), Arrive(c))
      ensures var n := |Unread(old(RingView()))|;
              && Unread(RingView()) == (if n < 255 then Unread(old(RingView())) + [c] else [])
              && printed == old(printed) + (if n == 255 && bufferTail != 0 then "X" else "")
    {
      PushUnread(RingView(), c);
      OverrunReportedIff(RingView());
      if bufferHead == bufferTail - 1 {
        printed := printed + "X";
      }
      buffer[bufferHead] := c;
      bufferHead := (bufferHead + 1) % RING_SIZE;
    }

    /** The body of Serial_Task's loop for one character. */
    method ParseChar(c: byte)
      requires Valid()
      modifies this`l, this`hat2, this`buttons, this`lx2, this`ly2, this`rx2, this`ry2, this`corrupt, b
      ensures Valid() && ParserView() == TakeChar(old(ParserView()), c)
    {
      hide BitOr;
      if c == CR || c == LF {
        if l == 14 {
          hat2 := b[0];
          buttons := Word(b[2], b[1]);
          lx2, ly2, rx2, ry2 := b[3], b[4], b[5], b[6];
        }
        l := 0;
        forall i | 0 <= i < 7 {
          b[i] := 0;
        }
        assert b[..] == ZERO_BYTES;
      } else {
        var val := HexValue(c);
        if val >= 0 {
          if l >= 14 {
            corrupt := true;
            l := (l + 1) % 256;
          } else {
            b[l / 2] := BitOr(b[l / 2], if l % 2 == 0 then val * 16 else val) % 256;
            l := l + 1;
          }
        }
      }
    }

    /** One round of Serial_Task's loop. */
    method TakeUnread()
      requires Valid() && bufferTail != bufferHead
      modifies this`bufferTail, this`l, this`hat2, this`buttons, this`lx2, this`ly2, this`rx2, this`ry2, this`corrupt, b
      ensures Valid() && View() == Step(old(View()), Parse)
    {
      hide TakeChar;
      ParseChar(buffer[bufferTail]);
      bufferTail := (bufferTail + 1) % RING_SIZE;
    }

    /** Interrupts for the bytes `cs`. */
    method Interrupts(cs: seq<byte>, ghost m: Machine, ghost before: seq<Event>) returns (ghost events: seq<Event>)
      requires Valid() && View() == RunFrom(m, before)
      modifies this`bufferHead, this`printed, buffer
      ensures Valid() && View() == RunFrom(m, events) && Arrived(events) == Arrived(before) + cs
    {
      hide Step, Arrived, RunFrom;
      events := before;
      var i := 0;
      while i < |cs|
        invariant 0 <= i <= |cs| && Valid() && View() == RunFrom(m, events)
        invariant Arrived(events) == Arrived(before) + cs[..i]
      {
        RunSnoc(m, events, Arrive(cs[i]));
        ArrivedSnoc(events, Arrive(cs[i]));
        assert cs[..i + 1] == cs[..i] + [cs[i]];
        Assoc(Arrived(before), cs[..i], [cs[i]]);
        ReceiveInterrupt(cs[i]);
        events := events + [Arrive(cs[i])];
        i := i + 1;
      }
      assert cs[..i] == cs;
    }

    /**
     Serial_Task while bytes go on arriving: those of `arriving[i]` before the `i`-th test
     of its loop. It is a run of events that takes in `n` of these batches and ends with
     nothing unread; with room throughout it has parsed all that was unread or arrived.
     */
    method SerialTask(arriving: seq<seq<byte>>) returns (n: nat, ghost events: seq<Event>)
      requires Valid()
      modifies this, buffer, b
      ensures Valid() && View() == RunFrom(old(View()), events) && Unread(RingView()) == []
      ensures n <= |arriving| && Arrived(events) == Flatten(arriving[..n])
      ensures Room(old(View()), events) ==>
              ParserView() == TakeChars(old(ParserView()), Unread(old(RingView())) + Arrived(events))
    {
      hide Step, Arrived, RunFrom, TakeChars, Room, Flatten, Unread;
      n, events := 0, [];
      ghost var start := View();
      NoEvents(start);
      NoBatches(arriving);
      while true
        invariant Valid() && n <= |arriving| && View() == RunFrom(start, events)
        invariant Arrived(events) == Flatten(arriving[..n])
        decreases |arriving| - n, |Unread(RingView())|
      {
        if n < |arriving| {
          events := Interrupts(arriving[n], start, events);
          FlattenSnoc(arriving[..n], arriving[n]);
          assert arriving[..n + 1] == arriving[..n] + [arriving[n]];
          n := n + 1;
        }
        if bufferTail == bufferHead {
          break;
        }
        RunSnoc(start, events, Parse);
        ArrivedSnoc(events, Parse);
        assert Arrived(events) + [] == Arrived(events);
        StepShrinks(View());
        TakeUnread();
        events := events + [Parse];
      }
      AllTaken(start, events);
    }

    /** HID_Task with the IN endpoint ready: the report sent, and its acknowledgement. */
    method HidTask() returns (report: Report)
      requires Valid()
      modifies this`printed
      ensures report == ParserView().report && printed == old(printed) + "U"
    {
      report := Report(hat2, buttons, lx2, ly2, rx2, ry2);
      printed := printed + "U";
    }
  }
}
