/**
 The controller that chat commands drive, and the line it is sent as.
 */
module Controller {
  import opened Basics

  const STICK_MIN: byte := 0
  const STICK_MAX: byte := 255
  const STICK_CENTER: byte := 128
  const DPAD_UP: byte := 0
  const DPAD_RIGHT: byte := 2
  const DPAD_DOWN: byte := 4
  const DPAD_LEFT: byte := 6
  const DPAD_CENTER: byte := 8

  // ---- The controller ---------------------------------------------------------

  datatype Button = LStick | L | ZL | Minus | Capture | A | B | X | Y | RStick | R | ZR | Plus | Home

  /** The fields of SwitchController; `held` are the button fields that are 1. */
  datatype Controls = Controls(dpad: byte, held: set<Button>, lx: byte, ly: byte, rx: byte, ry: byte)

  const NEUTRAL := Controls(DPAD_CENTER, {}, STICK_CENTER, STICK_CENTER, STICK_CENTER, STICK_CENTER)

  /** An assignment to one of the fields. */
  datatype Key =
    | LX(v: byte) | LY(v: byte) | RX(v: byte) | RY(v: byte) | Dpad(v: byte)
    | Hold(button: Button) | Release(button: Button)

  function Press(c: Controls, k: Key): Controls {
    match k
    case LX(v) => c.(lx := v)
    case LY(v) => c.(ly := v)
    case RX(v) => c.(rx := v)
    case RY(v) => c.(ry := v)
    case Dpad(v) => c.(dpad := v)
    case Hold(button) => c.(held := c.held + {button})
    case Release(button) => c.(held := c.held - {button})
  }

  function PressAll(c: Controls, ks: seq<Key>): Controls
    decreases ks
  {
    if ks == [] then c else PressAll(Press(c, ks[0]), ks[1..])
  }

  lemma {:induction false} PressAppend(c: Controls, xs: seq<Key>, ys: seq<Key>)
    ensures PressAll(c, xs + ys) == PressAll(PressAll(c, xs), ys)
    decreases xs
  {
    hide Press;
    if xs == [] {
      assert xs + ys == ys;
    } else {
      assert (xs + ys)[1..] == xs[1..] + ys;
      PressAppend(Press(c, xs[0]), xs[1..], ys);
    }
  }

  /** One of the fields of the controller. */
  datatype Field = StickLX | StickLY | StickRX | StickRY | Hat | ButtonField(button: Button)

  function ReadField(c: Controls, f: Field): byte {
    match f
    case StickLX => c.lx
    case StickLY => c.ly
    case StickRX => c.rx
    case StickRY => c.ry
    case Hat => c.dpad
    case ButtonField(button) => if button in c.held then 1 else 0
  }

  /** The field that an assignment is to, and its value. */
  function FieldOf(k: Key): Field {
    match k
    case LX(_) => StickLX
    case LY(_) => StickLY
    case RX(_) => StickRX
    case RY(_) => StickRY
    case Dpad(_) => Hat
    case Hold(button) => ButtonField(button)
    case Release(button) => ButtonField(button)
  }

  function ValueOf(k: Key): byte {
    match k
    case Hold(_) => 1
    case Release(_) => 0
    case _ => k.v
  }

  /** The value of the last assignment to the field, or `before`. */
  function LastValue(ks: seq<Key>, f: Field, before: byte): byte {
    if ks == [] then before
    else
      var k := ks[|ks| - 1];
      if FieldOf(k) == f then ValueOf(k) else LastValue(ks[..|ks| - 1], f, before)
  }

  /** After any assignments every field has the value of the last one to it, and no other field has changed. */
  lemma {:induction false} LastKeyWins(c: Controls, ks: seq<Key>, f: Field)
    ensures ReadField(PressAll(c, ks), f) == LastValue(ks, f, ReadField(c, f))
    decreases |ks|
  {
    hide PressAll;
    if ks == [] {
      PressNone(c);
    } else {
      var front, k := ks[..|ks| - 1], ks[|ks| - 1];
      LastKeyWins(c, front, f);
      assert ks == front + [k];
      PressAppend(c, front, [k]);
      PressOne(PressAll(c, front), k);
    }
  }

  lemma PressNone(c: Controls)
    ensures PressAll(c, []) == c
  {
  }

  lemma PressOne(c: Controls, k: Key)
    ensures PressAll(c, [k]) == Press(c, k)
  {
    hide Press;
    assert [k][1..] == [];
  }

  /** Nothing is held down or deflected except perhaps zl. */
  predicate NeutralButZl(c: Controls) {
    c.(held := c.held - {ZL}) == NEUTRAL
  }

  // ---- The line sent to the controller ----------------------------------------

  function Decimal(n: nat): string {
    if n < 10 then [DigitChar(n)] else Decimal(n / 10) + [DigitChar(n % 10)]
  }

  function DigitChar(d: nat): char
    requires d < 10
  {
    ('0' as int + d) as char
  }

  function Bit(c: Controls, button: Button): char {
    if button in c.held then '1' else '0'
  }

  function Buttons(c: Controls): (s: string)
    ensures |s| == 14
  {
    [Bit(c, LStick), Bit(c, L), Bit(c, ZL), Bit(c, Minus), Bit(c, Capture), Bit(c, A), Bit(c, B), Bit(c, X),
     Bit(c, Y), Bit(c, RStick), Bit(c, R), Bit(c, ZR), Bit(c, Plus), Bit(c, Home)]
  }

  function Sticks(c: Controls): string {
    Decimal(c.lx) + ([' '] + (Decimal(c.ly) + ([' '] + (Decimal(c.rx) + ([' '] + Decimal(c.ry))))))
  }

  /** What getOutput leaves in `output`. */
  function Output(c: Controls): string {
    Decimal(c.dpad) + (Buttons(c) + ([' '] + Sticks(c)))
  }

  predicate NoSpace(s: string) {
    forall i :: 0 <= i < |s| ==> s[i] != ' '
  }

  lemma {:induction false} DecimalDigits(n: nat)
    ensures Decimal(n) != [] && NoSpace(Decimal(n)) && (n < 10 ==> |Decimal(n)| == 1)
  {
    if n >= 10 {
      DecimalDigits(n / 10);
    }
  }

  lemma {:induction false} DecimalDetermines(m: nat, n: nat)
    requires Decimal(m) == Decimal(n)
    ensures m == n
  {
    var s := Decimal(m);
    DecimalDigits(m / 10);
    DecimalDigits(n / 10);
    assert s[|s| - 1] == DigitChar(m % 10) == DigitChar(n % 10);
    if m >= 10 {
      assert s[..|s| - 1] == Decimal(m / 10);
      assert n >= 10 && s[..|s| - 1] == Decimal(n / 10);
      DecimalDetermines(m / 10, n / 10);
    }
  }

  /** The first space ends the first word. */
  lemma FirstWord(a: string, b: string, x: string, y: string)
    requires NoSpace(a) && NoSpace(b) && a + ([' '] + x) == b + ([' '] + y)
    ensures a == b && x == y
  {
    var s, t := a + ([' '] + x), b + ([' '] + y);
    assert forall i :: 0 <= i < |a| ==> s[i] == a[i];
    assert forall i :: 0 <= i < |b| ==> t[i] == b[i];
    assert s[|a|] == ' ' && t[|b|] == ' ';
    assert a == s[..|a|] && b == t[..|a|];
    assert x == s[|a| + 1..] && y == t[|a| + 1..];
  }

  lemma ButtonsDetermine(c: Controls, d: Controls)
    requires Buttons(c) == Buttons(d)
    ensures c.held == d.held
  {
    var s, t := Buttons(c), Buttons(d);
    forall button: Button
      ensures button in c.held <==> button in d.held
    {
      assert Bit(c, button) == Bit(d, button) by {
        match button
        case LStick => assert s[0] == t[0];
        case L => assert s[1] == t[1];
        case ZL => assert s[2] == t[2];
        case Minus => assert s[3] == t[3];
        case Capture => assert s[4] == t[4];
        case A => assert s[5] == t[5];
        case B => assert s[6] == t[6];
        case X => assert s[7] == t[7];
        case Y => assert s[8] == t[8];
        case RStick => assert s[9] == t[9];
        case R => assert s[10] == t[10];
        case ZR => assert s[11] == t[11];
        case Plus => assert s[12] == t[12];
        case Home => assert s[13] == t[13];
      }
    }
  }

  lemma SticksDetermine(c: Controls, d: Controls)
    requires Sticks(c) == Sticks(d)
    ensures c.lx == d.lx && c.ly == d.ly && c.rx == d.rx && c.ry == d.ry
  {
    hide Decimal;
    DecimalDigits(c.lx);
    DecimalDigits(d.lx);
    FirstWord(Decimal(c.lx), Decimal(d.lx), Decimal(c.ly) + ([' '] + (Decimal(c.rx) + ([' '] + Decimal(c.ry)))),
              Decimal(d.ly) + ([' '] + (Decimal(d.rx) + ([' '] + Decimal(d.ry)))));
    DecimalDigits(c.ly);
    DecimalDigits(d.ly);
    FirstWord(Decimal(c.ly), Decimal(d.ly), Decimal(c.rx) + ([' '] + Decimal(c.ry)),
              Decimal(d.rx) + ([' '] + Decimal(d.ry)));
    DecimalDigits(c.rx);
    DecimalDigits(d.rx);
    FirstWord(Decimal(c.rx), Decimal(d.rx), Decimal(c.ry), Decimal(d.ry));
    DecimalDetermines(c.lx, d.lx);
    DecimalDetermines(c.ly, d.ly);
    DecimalDetermines(c.rx, d.rx);
    DecimalDetermines(c.ry, d.ry);
  }

  /** The line sent says everything: states with the same line are the same state. */
  lemma OutputDetermines(c: Controls, d: Controls)
    requires c.dpad <= DPAD_CENTER && d.dpad <= DPAD_CENTER && Output(c) == Output(d)
    ensures c == d
  {
    hide Decimal, Buttons, Sticks;
    DecimalDigits(c.dpad);
    DecimalDigits(d.dpad);
    var s, t := Output(c), Output(d);
    assert Decimal(c.dpad) == s[..1] && Decimal(d.dpad) == t[..1];
    assert Buttons(c) == s[1..15] && Buttons(d) == t[1..15];
    assert Sticks(c) == s[16..] && Sticks(d) == t[16..];
    DecimalDetermines(c.dpad, d.dpad);
    ButtonsDetermine(c, d);
    SticksDetermine(c, d);
  }

  // ---- The object -------------------------------------------------------------

  class SwitchController {
    var dpad: byte
    var held: set<Button>
    var lx: byte
    var ly: byte
    var rx: byte
    var ry: byte
    var output: string

    function View(): Controls
      reads this
    {
      Controls(dpad, held, lx, ly, rx, ry)
    }

    constructor ()
      ensures View() == NEUTRAL && output == ""
    {
      dpad, held, output := DPAD_CENTER, {}, "";
      lx, ly, rx, ry := STICK_CENTER, STICK_CENTER, STICK_CENTER, STICK_CENTER;
    }

    method GetOutput()
      modifies this`output
      ensures output == Output(View())
    {
      hide Decimal, Buttons;
      output := Decimal(dpad);
      output := output + Buttons(View());
      output := output + " " + Decimal(lx);
      output := output + " " + Decimal(ly);
      output := output + " " + Decimal(rx);
      output := output + " " + Decimal(ry);
    }

    method Reset()
      modifies this
      ensures View() == NEUTRAL && output == old(output)
    {
      dpad, held := DPAD_CENTER, {};
      lx, ly, rx, ry := STICK_CENTER, STICK_CENTER, STICK_CENTER, STICK_CENTER;
    }

    method Assign(k: Key)
      modifies this
      ensures View() == Press(old(View()), k)
    {
      match k
      case LX(v) => lx := v;
      case LY(v) => ly := v;
      case RX(v) => rx := v;
      case RY(v) => ry := v;
      case Dpad(v) => dpad := v;
      case Hold(button) => held := held + {button};
      case Release(button) => held := held - {button};
    }

    method AssignAll(ks: seq<Key>)
      modifies this
      ensures View() == PressAll(old(View()), ks)
    {
      hide Press;
      var i := 0;
      assert ks[0..] == ks;
      while i < |ks|
        invariant 0 <= i <= |ks|
        invariant PressAll(View(), ks[i..]) == PressAll(old(View()), ks)
      {
        assert ks[i..][1..] == ks[i + 1..];
        Assign(ks[i]);
        i := i + 1;
      }
    }
  }
}
