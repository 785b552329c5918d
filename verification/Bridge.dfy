/**
 The host side of the controller bridge: what a gamepad state becomes on the serial line,
 and what the firmware makes of it.
 */
module Bridge {
  import opened Basics
  import opened Bits
  import opened Joystick

  // ---- Gamepad states ---------------------------------------------------------

  /**
   What SDL says of a gamepad: the fourteen mapped buttons, the triggers, the d-pad and
   the four stick axes.
   */
  datatype Pad = Pad(buttons: seq<bool>, leftTrigger: int, rightTrigger: int,
                     up: bool, right: bool, down: bool, left: bool,
                     lx: int, ly: int, rx: int, ry: int)

  predicate ValidPad(p: Pad) {
    && |p.buttons| == 14
    && -32768 <= p.lx <= 32767 && -32768 <= p.ly <= 32767
    && -32768 <= p.rx <= 32767 && -32768 <= p.ry <= 32767
  }

  function Bit(b: bool): nat { if b then 1 else 0 }

  /** The number with the given bits, lowest first: a sum of shifted bits. */
  function Value(bits: seq<bool>): nat {
    if bits == [] then 0 else Bit(bits[0]) + 2 * Value(bits[1..])
  }

  /** A single bit at position `n` of `size`. */
  function OneBit(on: bool, n: nat, size: nat): (s: seq<bool>)
    ensures |s| == size
  {
    seq(size, i => on && i == n)
  }

  function ButtonWord(p: Pad): nat
    requires |p.buttons| == 14
  {
    BitOr(BitOr(Value(p.buttons), Bit(p.leftTrigger != 0) * 64), Bit(p.rightTrigger != 0) * 128)
  }

  const HAT_CODES: seq<byte> := [8, 0, 2, 1, 4, 8, 3, 8, 6, 7, 8, 8, 5, 8, 8]

  function HatIndex(p: Pad): (i: nat)
    ensures i < 16
  {
    Bit(p.up) + Bit(p.right) * 2 + Bit(p.down) * 4 + Bit(p.left) * 8
  }

  function Axis(x: int): int {
    (if -10000 < x < 10000 then 0 else x) / 256 + 128
  }

  /** One state as report fields; `None` is the IndexError of the hat table. */
  function Encode(p: Pad): Option<Report>
    requires ValidPad(p)
  {
    if HatIndex(p) < |HAT_CODES| then
      AxisRange(p.lx); AxisRange(p.ly); AxisRange(p.rx); AxisRange(p.ry); ButtonWordIsDown(p);
      Some(Report(HAT_CODES[HatIndex(p)], ButtonWord(p), Axis(p.lx), Axis(p.ly), Axis(p.rx), Axis(p.ry)))
    else None
  }

  lemma AxisRange(x: int)
    requires -32768 <= x <= 32767
    ensures 0 <= Axis(x) <= 255
  {
  }

  // ---- What the fields mean ---------------------------------------------------

  lemma {:induction false} ValueBound(bits: seq<bool>)
    ensures Value(bits) <= Ones(|bits|)
  {
    if bits != [] {
      ValueBound(bits[1..]);
    }
  }

  /** The union of two sets of bits. */
  function Either(xs: seq<bool>, ys: seq<bool>): (zs: seq<bool>)
    requires |xs| == |ys|
    ensures |zs| == |xs|
  {
    seq(|xs|, i requires 0 <= i < |xs| => xs[i] || ys[i])
  }

  lemma {:induction false} OrOfValues(xs: seq<bool>, ys: seq<bool>)
    requires |xs| == |ys|
    ensures BitOr(Value(xs), Value(ys)) == Value(Either(xs, ys))
  {
    if xs != [] {
      hide BitOr, Value, Either;
      OrOfValues(xs[1..], ys[1..]);
      EitherStep(xs, ys);
      OrStep(xs[0], Value(xs[1..]), ys[0], Value(ys[1..]));
      ValueStep(xs);
      ValueStep(ys);
      ValueStep(Either(xs, ys));
    }
  }

  lemma EitherStep(xs: seq<bool>, ys: seq<bool>)
    requires |xs| == |ys| > 0
    ensures Either(xs, ys)[0] == (xs[0] || ys[0]) && Either(xs, ys)[1..] == Either(xs[1..], ys[1..])
  {
  }

  lemma ValueStep(s: seq<bool>)
    requires s != []
    ensures Value(s) == Bit(s[0]) + 2 * Value(s[1..])
  {
  }

  lemma OrStep(a: bool, x: nat, b: bool, y: nat)
    ensures BitOr(Bit(a) + 2 * x, Bit(b) + 2 * y) == Bit(a || b) + 2 * BitOr(x, y)
  {
    hide BitAnd;
    AndStep(Bit(a), x, Bit(b), y);
  }

  lemma AndStep(a: nat, x: nat, b: nat, y: nat)
    requires a < 2 && b < 2
    ensures BitAnd(a + 2 * x, b + 2 * y) == a * b + 2 * BitAnd(x, y)
  {
    assert (a + 2 * x) / 2 == x && (b + 2 * y) / 2 == y;
  }

  lemma {:induction false} OneBitValue(on: bool, n: nat, size: nat)
    requires n < size
    ensures Value(OneBit(on, n, size)) == Bit(on) * (Ones(n) + 1)
    decreases n
  {
    var s := OneBit(on, n, size);
    if n == 0 {
      NoBits(s[1..]);
    } else {
      assert s[1..] == OneBit(on, n - 1, size - 1);
      OneBitValue(on, n - 1, size - 1);
    }
  }

  lemma {:induction false} NoBits(s: seq<bool>)
    requires forall i :: 0 <= i < |s| ==> !s[i]
    ensures Value(s) == 0
  {
    if s != [] {
      NoBits(s[1..]);
    }
  }

  /** The buttons that are down: triggers take the places of ZL and ZR. */
  function Down(p: Pad): seq<bool>
    requires |p.buttons| == 14
  {
    seq(14, i requires 0 <= i < 14 =>
      p.buttons[i] || (i == 6 && p.leftTrigger != 0) || (i == 7 && p.rightTrigger != 0))
  }

  lemma OnesAre()
    ensures Ones(6) == 63 && Ones(7) == 127 && Ones(14) == 0x3FFF
  {
    assert Ones(3) == 7;
    assert Ones(6) == 63;
    assert Ones(10) == 1023;
  }

  /** The button word has exactly the bits of the buttons that are down. */
  lemma ButtonWordIsDown(p: Pad)
    requires |p.buttons| == 14
    ensures ButtonWord(p) == Value(Down(p)) && ButtonWord(p) < 0x4000
  {
    hide BitOr, Value, Ones;
    OnesAre();
    var l, r := OneBit(p.leftTrigger != 0, 6, 14), OneBit(p.rightTrigger != 0, 7, 14);
    OneBitValue(p.leftTrigger != 0, 6, 14);
    OneBitValue(p.rightTrigger != 0, 7, 14);
    OrOfValues(p.buttons, l);
    OrOfValues(Either(p.buttons, l), r);
    assert Either(Either(p.buttons, l), r) == Down(p);
    ValueBound(Down(p));
  }

  /** The eight compass directions of the hat, clockwise from up, and 8 for none. */
  function Direction(p: Pad): byte {
    if p.up && p.right && !p.down && !p.left then 1
    else if p.right && p.down && !p.up && !p.left then 3
    else if p.down && p.left && !p.up && !p.right then 5
    else if p.left && p.up && !p.right && !p.down then 7
    else if p.up && !p.right && !p.down && !p.left then 0
    else if p.right && !p.up && !p.down && !p.left then 2
    else if p.down && !p.up && !p.right && !p.left then 4
    else if p.left && !p.up && !p.right && !p.down then 6
    else 8
  }

  /** The byte for a stick position: its step of 256 around 128, or 128 in the dead zone. */
  predicate Positions(a: byte, x: int) {
    if -10000 < x < 10000 then a == 128 else 256 * (a - 128) <= x < 256 * (a - 127)
  }

  /** The fields of a report say what the pad says. */
  predicate Shows(r: Report, p: Pad)
    requires |p.buttons| == 14
  {
    && r.hat == Direction(p) && r.buttons == Value(Down(p)) < 0x4000
    && Positions(r.lx, p.lx) && Positions(r.ly, p.ly) && Positions(r.rx, p.rx) && Positions(r.ry, p.ry)
  }

  /** Encoding fails exactly with all four d-pad buttons down, and otherwise shows the pad. */
  lemma EncodeMeans(p: Pad)
    requires ValidPad(p)
    ensures Encode(p).None? <==> p.up && p.right && p.down && p.left
    ensures Encode(p).Some? ==> Shows(Encode(p).value, p)
  {
    hide ButtonWord, Value, Down, Axis, Positions;
    ButtonWordIsDown(p);
    AxisPositions(p.lx);
    AxisPositions(p.ly);
    AxisPositions(p.rx);
    AxisPositions(p.ry);
  }

  lemma AxisPositions(x: int)
    requires -32768 <= x <= 32767
    ensures 0 <= Axis(x) <= 255 && Positions(Axis(x), x)
  {
  }

  /** Axes are monotone, centred inside the dead zone, and reach both ends. */
  lemma AxisMeans(x: int, y: int)
    requires -32768 <= x <= y <= 32767
    ensures Axis(x) <= Axis(y)
    ensures -10000 < x < 10000 ==> Axis(x) == 128
    ensures Axis(-32768) == 0 && Axis(32767) == 255
  {
  }

  // ---- Messages ---------------------------------------------------------------

  function LowerDigit(n: nat): byte
    requires n < 16
  {
    if n < 10 then 48 + n else 97 + n - 10
  }

  function Nibbles(bs: seq<byte>): (ns: seq<nat>)
    ensures |ns| == 2 * |bs| && forall i :: 0 <= i < |ns| ==> ns[i] < 16
  {
    if bs == [] then [] else [bs[0] / 16, bs[0] % 16] + Nibbles(bs[1..])
  }

  /** struct.pack('>BHBBBB', ...). */
  function RawBytes(r: Report): (bs: seq<byte>)
    ensures |bs| == 7
  {
    [r.hat, r.buttons / 256, r.buttons % 256, r.lx, r.ly, r.rx, r.ry]
  }

  /** A line on the serial port: fourteen lower-case digits and a line feed. */
  function Message(r: Report): (m: seq<byte>)
    ensures |m| == 15 && m[14] == LF
  {
    seq<byte>(14, i requires 0 <= i < 14 => LowerDigit(Nibbles(RawBytes(r))[i])) + [LF]
  }

  lemma MessageChars(r: Report, i: nat)
    requires i < 14
    ensures HexValue(Message(r)[i]) == Nibbles(RawBytes(r))[i] && !EndsLine(Message(r)[i])
  {
    hide Nibbles;
  }

  lemma {:induction false} NibblesAt(bs: seq<byte>, i: nat)
    requires i < |bs|
    ensures Nibbles(bs)[2 * i] == bs[i] / 16 && Nibbles(bs)[2 * i + 1] == bs[i] % 16
  {
    if i > 0 {
      NibblesAt(bs[1..], i - 1);
    }
  }

  lemma PackedNibbles(bs: seq<byte>)
    requires |bs| == 7
    ensures Packed(Nibbles(bs)) == bs
  {
    hide Nibbles;
    forall i | 0 <= i < 7 ensures Packed(Nibbles(bs))[i] == bs[i] {
      NibblesAt(bs, i);
    }
  }

  /** The bytes seen so far end at the end of a line, and no line was too long. */
  predicate Between(cs: seq<byte>) {
    ShortLines(cs) && LineDigits(cs) == []
  }

  lemma LastLineSnoc(cs: seq<byte>, c: byte)
    ensures LastLine(cs + [c]) ==
            if EndsLine(c) && |LineDigits(cs)| == 14 then ReportOf(Packed(LineDigits(cs))) else LastLine(cs)
  {
    hide LineDigits, Packed;
    assert (cs + [c])[..|cs|] == cs;
  }

  /** Part of a message changes nothing in the report. */
  lemma {:induction false} PartOfMessage(cs: seq<byte>, r: Report, k: nat)
    requires Between(cs) && k <= 14
    ensures var t := cs + Message(r)[..k];
            && LineDigits(t) == Nibbles(RawBytes(r))[..k] && LastLine(t) == LastLine(cs) && ShortLines(t)
    decreases k
  {
    hide LineDigits, LastLine, ShortLines, Message, Nibbles;
    if k == 0 {
      assert cs + Message(r)[..0] == cs;
    } else {
      PartOfMessage(cs, r, k - 1);
      var t, c := cs + Message(r)[..k - 1], Message(r)[k - 1];
      MessageChars(r, k - 1);
      LineDigitsSnoc(t, c);
      LastLineSnoc(t, c);
      ShortLinesSnoc(t, c);
      assert cs + Message(r)[..k] == t + [c];
      var ns := Nibbles(RawBytes(r));
      assert ns[..k] == ns[..k - 1] + [ns[k - 1]];
    }
  }

  /** A whole message becomes the report. */
  lemma WholeMessage(cs: seq<byte>, r: Report)
    requires Between(cs)
    ensures Between(cs + Message(r)) && LastLine(cs + Message(r)) == r
  {
    hide LineDigits, LastLine, ShortLines, Message, Nibbles;
    PartOfMessage(cs, r, 14);
    var t := cs + Message(r)[..14];
    LineDigitsSnoc(t, LF);
    LastLineSnoc(t, LF);
    ShortLinesSnoc(t, LF);
    assert Message(r) == Message(r)[..14] + [LF];
    assert cs + Message(r) == t + [LF];
    assert Nibbles(RawBytes(r))[..14] == Nibbles(RawBytes(r));
    PackedNibbles(RawBytes(r));
  }

  // ---- Recording and replay ---------------------------------------------------

  /** Length of the first line of `bs`, its line feed included. */
  function FirstLine(bs: seq<byte>): (n: nat)
    ensures n <= |bs| && (bs != [] ==> n > 0)
  {
    if bs == [] then 0 else if bs[0] == LF then 1 else 1 + FirstLine(bs[1..])
  }

  /** readlines. */
  function ReadLines(bs: seq<byte>): seq<seq<byte>>
    decreases |bs|
  {
    if bs == [] then [] else [bs[..FirstLine(bs)]] + ReadLines(bs[FirstLine(bs)..])
  }

  /** Exactly one line feed, at the end. */
  predicate IsLine(m: seq<byte>) {
    m != [] && m[|m| - 1] == LF && forall i :: 0 <= i < |m| - 1 ==> m[i] != LF
  }

  lemma {:induction false} FirstLineIs(m: seq<byte>, rest: seq<byte>)
    requires IsLine(m)
    ensures FirstLine(m + rest) == |m|
    decreases |m|
  {
    if |m| > 1 {
      assert (m + rest)[1..] == m[1..] + rest;
      FirstLineIs(m[1..], rest);
    }
  }

  /** Splitting recorded messages into lines gives back the messages. */
  lemma {:induction false} ReplayReadsRecord(ms: seq<seq<byte>>)
    requires forall m :: m in ms ==> IsLine(m)
    ensures ReadLines(Flatten(ms)) == ms
    decreases ms
  {
    if ms != [] {
      var m, rest := ms[0], Flatten(ms[1..]);
      FirstLineIs(m, rest);
      assert (m + rest)[..|m|] == m && (m + rest)[|m|..] == rest;
      ReplayReadsRecord(ms[1..]);
    }
  }

  lemma MessageIsLine(r: Report)
    ensures IsLine(Message(r))
  {
    hide Message;
    forall i | 0 <= i < 14 ensures Message(r)[i] != LF {
      MessageChars(r, i);
    }
  }

  function Messages(rs: seq<Report>): (ms: seq<seq<byte>>)
    ensures |ms| == |rs|
  {
    seq(|rs|, i requires 0 <= i < |rs| => Message(rs[i]))
  }

  /**
   Record, replay, decode: the recorded bytes of any states split into the messages that
   were sent, and the firmware, given the messages of the file up to any state, holds
   exactly that state.
   */
  lemma {:induction false} RecordReplayDecode(rs: seq<Report>)
    ensures ReadLines(Flatten(Messages(rs))) == Messages(rs)
    ensures Between(Flatten(Messages(rs)))
    ensures TakeChars(INITIAL_PARSER, Flatten(Messages(rs))).report == if rs == [] then ZERO_REPORT else rs[|rs| - 1]
  {
    hide Message, IsLine;
    forall i | 0 <= i < |rs| ensures IsLine(Messages(rs)[i]) {
      MessageIsLine(rs[i]);
    }
    ReplayReadsRecord(Messages(rs));
    DecodesLast(rs);
    ParserRefinesLines(Flatten(Messages(rs)));
  }

  lemma {:induction false} DecodesLast(rs: seq<Report>)
    ensures Between(Flatten(Messages(rs)))
    ensures LastLine(Flatten(Messages(rs))) == if rs == [] then ZERO_REPORT else rs[|rs| - 1]
  {
    hide Message;
    if rs == [] {
      assert ShortLines([]);
    } else {
      hide Between;
      var before, r := rs[..|rs| - 1], rs[|rs| - 1];
      DecodesLast(before);
      assert Messages(rs) == Messages(before) + [Message(r)];
      FlattenSnoc(Messages(before), Message(r));
      WholeMessage(Flatten(Messages(before)), r);
    }
  }

  // ---- From pads to the firmware's fields -------------------------------------

  /** A state that controller_states can send. */
  predicate Sendable(p: Pad) {
    ValidPad(p) && !(p.up && p.right && p.down && p.left)
  }

  function State(p: Pad): Report
    requires Sendable(p)
  {
    EncodeMeans(p);
    Encode(p).value
  }

  function States(ps: seq<Pad>): (rs: seq<Report>)
    requires forall i :: 0 <= i < |ps| ==> Sendable(ps[i])
    ensures |rs| == |ps|
  {
    seq(|ps|, i requires 0 <= i < |ps| && Sendable(ps[i]) => State(ps[i]))
  }

  /**
   The same from pad states on: what is recorded of any states splits into the messages
   that were sent, and replayed up to any of them makes the firmware show that state.
   */
  lemma PadsReplayed(ps: seq<Pad>, k: nat)
    requires (forall i :: 0 <= i < |ps| ==> Sendable(ps[i])) && 0 < k <= |ps|
    ensures var ms := Messages(States(ps));
            && ReadLines(Flatten(ms)) == ms
            && Shows(TakeChars(INITIAL_PARSER, Flatten(ReadLines(Flatten(ms))[..k])).report, ps[k - 1])
  {
    hide TakeChars, Shows, Message, ReadLines, Between, Encode;
    var rs := States(ps);
    RecordReplayDecode(rs);
    RecordReplayDecode(rs[..k]);
    assert Messages(rs)[..k] == Messages(rs[..k]);
    EncodeMeans(ps[k - 1]);
  }
}
