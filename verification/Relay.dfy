/**
 The relay of a remote player's controller: a line of the same form as the one that is
 sent on comes in, and its fields are put on the controller before they are sent.
 */
module Relay {
  import opened Basics
  import opened Controller

  /** The line of a controller at rest. */
  const IDLE := "800000000000000 128 128 128 128"

  // ---- Words and numbers ------------------------------------------------------

  /** The characters before the first space, and those behind it. */
  function Before(s: string): string {
    if s == [] || s[0] == ' ' then [] else [s[0]] + Before(s[1..])
  }

  function After(s: string): string {
    if s == [] then [] else if s[0] == ' ' then s[1..] else After(s[1..])
  }

  /** A number in decimal digits. */
  function Number(s: string): (n: Option<nat>)
    ensures |s| == 1 && n.Some? ==> n.value < 10
  {
    if s == [] then None
    else
      var c, front := s[|s| - 1], s[..|s| - 1];
      if !('0' <= c <= '9') then None
      else if front == [] then Some(c as int - '0' as int)
      else match Number(front)
        case None => None
        case Some(n) => Some(10 * n + (c as int - '0' as int))
  }

  lemma {:induction false} FirstWordRead(a: string, rest: string)
    requires NoSpace(a)
    ensures Before(a + ([' '] + rest)) == a && After(a + ([' '] + rest)) == rest
  {
    var s := a + ([' '] + rest);
    if a == [] {
      assert s[1..] == rest;
    } else {
      FirstWordRead(a[1..], rest);
      assert s[1..] == a[1..] + ([' '] + rest) && a == [a[0]] + a[1..];
    }
  }

  lemma {:induction false} LastWordRead(a: string)
    requires NoSpace(a)
    ensures Before(a) == a
  {
    if a != [] {
      LastWordRead(a[1..]);
      assert a == [a[0]] + a[1..];
    }
  }

  /** A printed number is read as the number. */
  lemma {:induction false} NumberOfDecimal(n: nat)
    ensures Number(Decimal(n)) == Some(n)
  {
    var s := Decimal(n);
    if n >= 10 {
      NumberOfDecimal(n / 10);
      DecimalDigits(n / 10);
      assert s[..|s| - 1] == Decimal(n / 10);
    }
  }

  // ---- The relay --------------------------------------------------------------

  /** The five words of a line. */
  datatype Words = Words(buttons: string, lx: string, ly: string, rx: string, ry: string)

  function WordsOf(line: string): Words {
    var a := After(line);
    var b := After(a);
    var c := After(b);
    Words(Before(line), Before(a), Before(b), Before(c), Before(After(c)))
  }

  /** The button in each place of the first word, behind the digit of the d-pad. */
  function ButtonAt(i: nat): Button
    requires 1 <= i < 15
  {
    [LStick, L, ZL, Minus, Capture, A, B, X, Y, RStick, R, ZR, Plus, Home][i - 1]
  }

  /** Moderators may capture and go home, and only those with a plus may press plus. */
  predicate Allowed(button: Button, moderator: bool, plus: bool) {
    && (button == Capture || button == Home ==> moderator)
    && (button == Plus ==> plus)
  }

  function Pressed(buttons: string, i: nat, moderator: bool, plus: bool): set<Button>
    requires |buttons| >= 15 && 1 <= i < 15
  {
    if buttons[i] == '1' && Allowed(ButtonAt(i), moderator, plus) then {ButtonAt(i)} else {}
  }

  /** The buttons of the first `n - 1` places. */
  function Held(buttons: string, n: nat, moderator: bool, plus: bool): set<Button>
    requires |buttons| >= 15 && 1 <= n <= 15
  {
    if n == 1 then {} else Held(buttons, n - 1, moderator, plus) + Pressed(buttons, n - 1, moderator, plus)
  }

  predicate InByte(n: Option<nat>) {
    n.Some? && n.value < 256
  }

  /**
   What a line puts on the controller. The vertical axes are turned over, except in the line
   of a controller at rest. `None` stands for lines that are not of this form.
   */
  function Relayed(line: string, moderator: bool, plus: bool): Option<Controls> {
    if line == IDLE then Some(NEUTRAL)
    else
      var w := WordsOf(line);
      var lx, ly, rx, ry := Number(w.lx), Number(w.ly), Number(w.rx), Number(w.ry);
      if |w.buttons| < 15 || Number(w.buttons[..1]).None? then None
      else if !InByte(lx) || !InByte(ly) || !InByte(rx) || !InByte(ry) then None
      else
        Some(Controls(Number(w.buttons[..1]).value, Held(w.buttons, 15, moderator, plus),
                      lx.value, 255 - ly.value, rx.value, 255 - ry.value))
  }

  // ---- The line that is sent is the line that is read -------------------------

  lemma SticksRead(c: Controls, first: string)
    requires NoSpace(first)
    ensures WordsOf(first + ([' '] + Sticks(c))) ==
            Words(first, Decimal(c.lx), Decimal(c.ly), Decimal(c.rx), Decimal(c.ry))
  {
    hide Decimal, Before, After;
    DecimalDigits(c.lx);
    DecimalDigits(c.ly);
    DecimalDigits(c.rx);
    DecimalDigits(c.ry);
    FirstWordRead(first, Sticks(c));
    FirstWordRead(Decimal(c.lx), Decimal(c.ly) + ([' '] + (Decimal(c.rx) + ([' '] + Decimal(c.ry)))));
    FirstWordRead(Decimal(c.ly), Decimal(c.rx) + ([' '] + Decimal(c.ry)));
    FirstWordRead(Decimal(c.rx), Decimal(c.ry));
    LastWordRead(Decimal(c.ry));
  }

  lemma ButtonsSpelled(c: Controls, i: nat)
    requires 1 <= i < 15
    ensures Buttons(c)[i - 1] == '1' <==> ButtonAt(i) in c.held
    ensures Buttons(c)[i - 1] != ' '
  {
  }

  lemma EveryButton(button: Button)
    ensures exists i :: 1 <= i < 15 && ButtonAt(i) == button
  {
    assert ButtonAt(1) == LStick && ButtonAt(2) == L && ButtonAt(3) == ZL && ButtonAt(4) == Minus;
    assert ButtonAt(5) == Capture && ButtonAt(6) == A && ButtonAt(7) == B && ButtonAt(8) == X;
    assert ButtonAt(9) == Y && ButtonAt(10) == RStick && ButtonAt(11) == R && ButtonAt(12) == ZR;
    assert ButtonAt(13) == Plus && ButtonAt(14) == Home;
  }

  /** The buttons of the state that the player may press. */
  function Permitted(held: set<Button>, moderator: bool, plus: bool): set<Button> {
    set button | button in held && Allowed(button, moderator, plus)
  }

  lemma {:induction false} HeldMeans(buttons: string, n: nat, moderator: bool, plus: bool, button: Button)
    requires |buttons| >= 15 && 1 <= n <= 15
    ensures button in Held(buttons, n, moderator, plus) <==>
            exists i :: 1 <= i < n && ButtonAt(i) == button && buttons[i] == '1' && Allowed(button, moderator, plus)
    decreases n
  {
    hide ButtonAt, Allowed;
    if n > 1 {
      HeldMeans(buttons, n - 1, moderator, plus, button);
    }
  }

  lemma HeldRead(c: Controls, moderator: bool, plus: bool, first: string)
    requires |first| == 15 && first[1..] == Buttons(c)
    ensures Held(first, 15, moderator, plus) == Permitted(c.held, moderator, plus)
  {
    hide Buttons, ButtonAt, Allowed, Held;
    forall i | 1 <= i < 15 ensures first[i] == '1' <==> ButtonAt(i) in c.held {
      ButtonsSpelled(c, i);
      assert first[i] == first[1..][i - 1];
    }
    forall button: Button
      ensures button in Held(first, 15, moderator, plus) <==> button in Permitted(c.held, moderator, plus)
    {
      HeldMeans(first, 15, moderator, plus, button);
      EveryButton(button);
    }
  }

  /** The first word of a line: the d-pad in one digit, then the buttons. */
  lemma FirstWordSent(c: Controls)
    requires c.dpad <= DPAD_CENTER
    ensures var first := Decimal(c.dpad) + Buttons(c);
            && |first| == 15 && first[..1] == Decimal(c.dpad) && first[1..] == Buttons(c) && NoSpace(first)
            && Output(c) == first + ([' '] + Sticks(c))
  {
    hide Decimal, Buttons, Sticks;
    DecimalDigits(c.dpad);
    var first := Decimal(c.dpad) + Buttons(c);
    forall i | 0 <= i < 15 ensures first[i] != ' ' {
      if i > 0 {
        ButtonsSpelled(c, i);
      }
    }
    Assoc(Decimal(c.dpad), Buttons(c), [' '] + Sticks(c));
  }

  lemma IdleIsNeutral()
    ensures Output(NEUTRAL) == IDLE
  {
    hide Decimal, Buttons;
    SomeDecimals();
    NoButtons();
    assert Sticks(NEUTRAL) == "128 128 128 128";
  }

  lemma NoButtons()
    ensures Buttons(NEUTRAL) == "00000000000000"
  {
  }

  lemma SomeDecimals()
    ensures Decimal(8) == "8" && Decimal(128) == "128"
  {
    assert Decimal(1) == "1" && Decimal(12) == "12";
  }

  /** The state with its vertical axes turned over. */
  function Flipped(c: Controls): Controls {
    c.(ly := 255 - c.ly, ry := 255 - c.ry)
  }

  /**
   A controller whose line is relayed is copied, its vertical axes turned over, without the
   buttons that the player may not press; a controller at rest stays at rest.
   */
  lemma RelayCopies(c: Controls, moderator: bool, plus: bool)
    requires c.dpad <= DPAD_CENTER
    ensures Relayed(Output(c), moderator, plus) ==
            Some(if c == NEUTRAL then NEUTRAL else Flipped(c).(held := Permitted(c.held, moderator, plus)))
  {
    hide Output, Decimal, Buttons, Sticks, WordsOf, Number, Held, Permitted;
    IdleIsNeutral();
    if c != NEUTRAL {
      if Output(c) == IDLE {
        OutputDetermines(c, NEUTRAL);
      }
      FirstWordSent(c);
      var first := Decimal(c.dpad) + Buttons(c);
      SticksRead(c, first);
      HeldRead(c, moderator, plus, first);
      NumberOfDecimal(c.dpad);
      NumberOfDecimal(c.lx);
      NumberOfDecimal(c.ly);
      NumberOfDecimal(c.rx);
      NumberOfDecimal(c.ry);
    }
  }

  /** Everyone may press all buttons but three: capture and home are for moderators, plus for those with a plus. */
  lemma PermittedMeans(held: set<Button>, moderator: bool, plus: bool)
    ensures Permitted(held, true, true) == held
    ensures Permitted(held, moderator, plus) ==
            held - (if moderator then {} else {Capture, Home}) - (if plus then {} else {Plus})
  {
  }

  /** Relayed twice, for a player who may press everything, a state comes back unless turned over it is at rest. */
  lemma RelayTwiceIff(c: Controls)
    requires c.dpad <= DPAD_CENTER
    ensures var once := Relayed(Output(c), true, true);
            && once.Some?
            && (Relayed(Output(once.value), true, true) == Some(c) <==> Flipped(c) != NEUTRAL)
  {
    hide Output, Relayed;
    RelayCopies(c, true, true);
    PermittedMeans(c.held, true, true);
    if c != NEUTRAL {
      RelayCopies(Flipped(c), true, true);
    }
  }

  // ---- The handler ------------------------------------------------------------

  /** One of the conditions on the first word. */
  method PressIf(controller: SwitchController, buttons: string, i: nat, moderator: bool, plus: bool)
    requires |buttons| >= 15 && 1 <= i < 15
    modifies controller
    ensures controller.View() ==
            old(controller.View()).(held := old(controller.held) + Pressed(buttons, i, moderator, plus))
  {
    hide ButtonAt, Allowed;
    if buttons[i] == '1' && Allowed(ButtonAt(i), moderator, plus) {
      controller.Assign(Hold(ButtonAt(i)));
    }
  }

  /** The chain of fourteen conditions, in the order of the line. */
  method PressButtons(controller: SwitchController, buttons: string, moderator: bool, plus: bool)
    requires |buttons| >= 15 && controller.held == {}
    modifies controller
    ensures controller.View() == old(controller.View()).(held := Held(buttons, 15, moderator, plus))
  {
    hide Pressed;
    var i := 1;
    while i < 15
      invariant 1 <= i <= 15
      invariant controller.View() == old(controller.View()).(held := Held(buttons, i, moderator, plus))
    {
      PressIf(controller, buttons, i, moderator, plus);
      i := i + 1;
    }
  }

  /** on_controller_state: the line that is sent on, for every line of the form. */
  method OnControllerState(controller: SwitchController, line: string, moderator: bool, plus: bool)
      returns (sent: Option<string>)
    modifies controller
    ensures var c := Relayed(line, moderator, plus);
            if c.Some? then controller.View() == c.value && sent == Some(Output(c.value)) else sent.None?
  {
    hide Output, WordsOf, Number, Held;
    controller.Reset();
    if line == IDLE {
      controller.GetOutput();
      return Some(controller.output);
    }
    var w := WordsOf(line);
    if |w.buttons| < 15 || Number(w.buttons[..1]).None? {
      return None;
    }
    var lx, ly, rx, ry := Number(w.lx), Number(w.ly), Number(w.rx), Number(w.ry);
    if !InByte(lx) || !InByte(ly) || !InByte(rx) || !InByte(ry) {
      return None;
    }
    controller.dpad := Number(w.buttons[..1]).value;
    PressButtons(controller, w.buttons, moderator, plus);
    controller.lx, controller.ly := lx.value, 255 - ly.value;
    controller.rx, controller.ry := rx.value, 255 - ry.value;
    controller.GetOutput();
    sent := Some(controller.output);
  }
}
