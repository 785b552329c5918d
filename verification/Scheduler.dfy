/**
 The chat-driven command scheduler: two queues of words, and a tick that runs one of them.
 */
module Scheduler {
  import opened Basics
  import opened Controller
  import opened Commands

  // ---- The scheduler ----------------------------------------------------------

  /** commandQueue, nextCommands and controller1. */
  datatype State = State(commands: seq<string>, next: seq<string>, controls: Controls)

  const START := State([], [], NEUTRAL)

  /** Repeated `insert(0, c)`. */
  function InsertFront(next: seq<string>, cs: seq<string>): seq<string>
    decreases cs
  {
    if cs == [] then next else InsertFront([cs[0]] + next, cs[1..])
  }

  /** What a tick runs: the command, and whether it came from chat. */
  datatype Ran = Ran(command: string, fromChat: bool)

  /** The command a tick takes, with the queues it leaves. */
  function Fetch(s: State): Option<(Ran, State)> {
    if s.commands != [] then
      Some((Ran(s.commands[0], true), s.(commands := s.commands[1..])))
    else if s.next != [] then
      Some((Ran(s.next[|s.next| - 1], false), s.(next := s.next[..|s.next| - 1])))
    else None
  }

  function Execute(s: State, c: string, lockon: bool): State {
    var held := PressAll(s.controls, Keys(c));
    s.(next := InsertFront(s.next, Inserts(c)),
       controls := if Resets(c, !lockon) then NEUTRAL else held)
  }

  /** While lock-on is on, every tick holds zl down. */
  function LockOn(c: Controls, lockon: bool): Controls {
    if lockon then Press(c, Hold(ZL)) else c
  }

  /** decreaseQueue, once its time gate has opened. */
  function Tick(s: State, lockon: bool): (State, Option<Ran>) {
    var s := s.(controls := LockOn(s.controls, lockon));
    match Fetch(s)
    case None => (s, None)
    case Some((ran, t)) => (Execute(t, ran.command, lockon), Some(ran))
  }

  /** Chat words that passed the checks, and ticks with lock-on on or off. */
  datatype Event = Chat(words: seq<string>) | Clock(lockon: bool)

  /** A run: the final state, and what was run in order. */
  function Run(events: seq<Event>): (State, seq<Ran>) {
    if events == [] then (START, [])
    else
      var (s, log) := Run(events[..|events| - 1]);
      match events[|events| - 1]
      case Chat(words) => (s.(commands := s.commands + words), log)
      case Clock(lockon) =>
        var (t, ran) := Tick(s, lockon);
        (t, if ran.Some? then log + [ran.value] else log)
  }

  // ---- What a tick shows ------------------------------------------------------

  /** What is sent while a command is held. */
  function Shown(s: State, command: string, lockon: bool): Controls {
    PressAll(LockOn(s.controls, lockon), Keys(command))
  }

  /** The value of a field when the command begins: lock-on holds zl, all else is as it was left. */
  function BeginsAs(s: State, lockon: bool, f: Field): byte {
    if lockon && f == ButtonField(ZL) then 1 else ReadField(s.controls, f)
  }

  /**
   In a tick every field of the controller shows the command's last assignment to it, or what
   it began as; afterwards the controller is neutral or left as shown. A tick without a
   command only holds zl if lock-on is on.
   */
  lemma TickShows(s: State, lockon: bool, f: Field)
    ensures Fetch(s).None? ==> ReadField(Tick(s, lockon).0.controls, f) == BeginsAs(s, lockon, f)
    ensures Fetch(s).Some? ==>
              var command := Fetch(s).value.0.command;
              && ReadField(Shown(s, command, lockon), f) == LastValue(Keys(command), f, BeginsAs(s, lockon, f))
              && Tick(s, lockon).0.controls ==
                 if Resets(command, !lockon) then NEUTRAL else Shown(s, command, lockon)
  {
    hide Keys, Resets, PressAll, LastValue, InsertFront, Inserts;
    if Fetch(s).Some? {
      LastKeyWins(LockOn(s.controls, lockon), Keys(Fetch(s).value.0.command), f);
    }
  }

  // ---- Nothing stays held -----------------------------------------------------

  /** If anything but zl is off neutral, a macro continuation is still queued. */
  predicate HeldByMacro(s: State) {
    NeutralButZl(s.controls) || exists i :: 0 <= i < |s.next| && Continuation(s.next[i])
  }

  lemma {:induction false} InsertKeeps(next: seq<string>, cs: seq<string>, x: string)
    requires x in next || x in cs
    ensures x in InsertFront(next, cs)
    decreases cs
  {
    if cs != [] {
      if x !in [cs[0]] + next {
        assert x in cs[1..];
      }
      InsertKeeps([cs[0]] + next, cs[1..], x);
    }
  }

  lemma ExecuteHeld(s: State, c: string, lockon: bool)
    requires NeutralButZl(s.controls) || Continuation(c) || exists x :: x in s.next && Continuation(x)
    ensures HeldByMacro(Execute(s, c, lockon))
  {
    hide InsertFront, Continuation, EffectOf, PressAll;
    var t := Execute(s, c, lockon);
    if !Resets(c, !lockon) {
      NotResetting(c, lockon);
      if x :| x in Inserts(c) && Continuation(x) {
        InsertKeeps(s.next, Inserts(c), x);
        assert x in t.next;
      } else {
        PressNothing(s.controls);
        if !NeutralButZl(s.controls) {
          var x :| x in s.next && Continuation(x);
          InsertKeeps(s.next, Inserts(c), x);
          assert x in t.next;
        }
      }
    }
  }

  lemma PressNothing(c: Controls)
    ensures PressAll(c, []) == c
  {
  }

  lemma TickHeld(s: State, lockon: bool)
    requires HeldByMacro(s)
    ensures HeldByMacro(Tick(s, lockon).0)
  {
    hide Execute, Continuation;
    var s' := s.(controls := LockOn(s.controls, lockon));
    assert HeldByMacro(s');
    var f := Fetch(s');
    if f.Some? {
      var (ran, t) := f.value;
      if !NeutralButZl(s'.controls) {
        var i :| 0 <= i < |s'.next| && Continuation(s'.next[i]);
        if i < |t.next| {
          assert t.next[i] in t.next;
        }
      }
      ExecuteHeld(t, ran.command, lockon);
    }
  }

  /**
   In every run: whenever a field other than zl is off neutral, a continuation is queued;
   so when both queues are empty the controller is neutral apart from zl.
   */
  lemma {:induction false} NothingStaysHeld(events: seq<Event>)
    ensures HeldByMacro(Run(events).0)
    ensures Run(events).0.next == [] ==> NeutralButZl(Run(events).0.controls)
  {
    hide Tick;
    if events != [] {
      var before := events[..|events| - 1];
      NothingStaysHeld(before);
      match events[|events| - 1] {
        case Chat(words) =>
        case Clock(lockon) => TickHeld(Run(before).0, lockon);
      }
    }
  }

  // ---- Every tick counts ------------------------------------------------------

  /** One, plus the weights of the commands it inserts. */
  function Weight(c: string): nat
    decreases Rank(c), 1, 0
  {
    InsertsLower(c);
    1 + Weights(Inserts(c), Rank(c))
  }

  function Weights(cs: seq<string>, rank: nat): nat
    requires forall i :: 0 <= i < |cs| ==> Rank(cs[i]) < rank
    decreases rank, 0, |cs|
  {
    if cs == [] then 0 else Weights(cs[..|cs| - 1], rank) + Weight(cs[|cs| - 1])
  }

  function TotalWeight(cs: seq<string>): nat {
    if cs == [] then 0 else TotalWeight(cs[..|cs| - 1]) + Weight(cs[|cs| - 1])
  }

  function Queued(s: State): nat {
    TotalWeight(s.commands) + TotalWeight(s.next)
  }

  lemma {:induction false} WeightsTotal(cs: seq<string>, rank: nat)
    requires forall i :: 0 <= i < |cs| ==> Rank(cs[i]) < rank
    ensures Weights(cs, rank) == TotalWeight(cs)
  {
    if cs != [] {
      WeightsTotal(cs[..|cs| - 1], rank);
    }
  }

  lemma {:induction false} TotalCons(c: string, cs: seq<string>)
    ensures TotalWeight([c] + cs) == Weight(c) + TotalWeight(cs)
  {
    hide Weight;
    if cs == [] {
      assert ([c] + cs)[..0] == [];
    } else {
      assert ([c] + cs)[..|cs|] == [c] + cs[..|cs| - 1];
      TotalCons(c, cs[..|cs| - 1]);
    }
  }

  lemma {:induction false} InsertWeight(next: seq<string>, cs: seq<string>)
    ensures TotalWeight(InsertFront(next, cs)) == TotalWeight(next) + TotalWeight(cs)
    decreases cs
  {
    hide Weight;
    if cs != [] {
      TotalCons(cs[0], next);
      TotalCons(cs[0], cs[1..]);
      assert cs == [cs[0]] + cs[1..];
      InsertWeight([cs[0]] + next, cs[1..]);
    }
  }

  /** A tick that runs a command lowers the queued weight by exactly one. */
  lemma TickWeight(s: State, lockon: bool)
    ensures var (t, ran) := Tick(s, lockon);
            Queued(t) == if ran.Some? then Queued(s) - 1 else 0
    ensures Tick(s, lockon).1.None? <==> s.commands == [] && s.next == []
  {
    hide Weight, EffectOf, PressAll;
    var s' := s.(controls := LockOn(s.controls, lockon));
    var f := Fetch(s');
    if f.Some? {
      var (ran, t) := f.value;
      var c := ran.command;
      InsertWeight(t.next, Inserts(c));
      WeightOf(c);
      if s.commands != [] {
        assert s.commands == [c] + s.commands[1..];
        TotalCons(c, s.commands[1..]);
      }
    }
  }

  lemma WeightOf(c: string)
    ensures Weight(c) == 1 + TotalWeight(Inserts(c))
  {
    hide EffectOf, Rank, TotalWeight;
    InsertsLower(c);
    WeightsTotal(Inserts(c), Rank(c));
  }

  function Ticks(s: State, lockons: seq<bool>): State
    decreases lockons
  {
    if lockons == [] then s else Ticks(Tick(s, lockons[0]).0, lockons[1..])
  }

  /** With no new chat the queues are empty after exactly as many ticks as their weight. */
  lemma {:induction false} DrainsExactly(s: State, lockons: seq<bool>)
    ensures Queued(Ticks(s, lockons)) == if |lockons| < Queued(s) then Queued(s) - |lockons| else 0
    ensures var t := Ticks(s, lockons);
            t.commands == [] && t.next == [] <==> |lockons| >= Queued(s)
    decreases lockons
  {
    hide Tick, Queued;
    IdleWeight(s);
    if lockons != [] {
      TickWeight(s, lockons[0]);
      DrainsExactly(Tick(s, lockons[0]).0, lockons[1..]);
    }
  }

  lemma IdleWeight(s: State)
    ensures Queued(s) == 0 <==> s.commands == [] && s.next == []
  {
    hide Weight;
    if s.commands != [] {
      WeightOf(s.commands[|s.commands| - 1]);
    }
    if s.next != [] {
      WeightOf(s.next[|s.next| - 1]);
    }
  }

  // ---- Order ------------------------------------------------------------------

  function Arrived(events: seq<Event>): seq<string> {
    if events == [] then []
    else Arrived(events[..|events| - 1]) + (if events[|events| - 1].Chat? then events[|events| - 1].words else [])
  }

  function Reversed(cs: seq<string>): (r: seq<string>)
    ensures |r| == |cs|
  {
    if cs == [] then [] else [cs[|cs| - 1]] + Reversed(cs[..|cs| - 1])
  }

  /** The commands of a log that came from chat, or those that did not. */
  function Of(log: seq<Ran>, fromChat: bool): seq<string> {
    if log == [] then []
    else Of(log[..|log| - 1], fromChat) + (if log[|log| - 1].fromChat == fromChat then [log[|log| - 1].command] else [])
  }

  /** All that the commands of a log inserted. */
  function Inserted(log: seq<Ran>): seq<string> {
    if log == [] then [] else Inserted(log[..|log| - 1]) + Inserts(log[|log| - 1].command)
  }

  lemma {:induction false} ReversedCons(c: string, cs: seq<string>)
    ensures Reversed([c] + cs) == Reversed(cs) + [c]
  {
    if cs == [] {
      assert ([c] + cs)[..0] == [];
    } else {
      assert ([c] + cs)[..|cs|] == [c] + cs[..|cs| - 1];
      ReversedCons(c, cs[..|cs| - 1]);
    }
  }

  lemma {:induction false} ReversedInsert(next: seq<string>, cs: seq<string>)
    ensures Reversed(InsertFront(next, cs)) == Reversed(next) + cs
    decreases cs
  {
    if cs == [] {
      assert Reversed(next) + [] == Reversed(next);
    } else {
      ReversedCons(cs[0], next);
      ReversedInsert([cs[0]] + next, cs[1..]);
      assert Reversed(next) + cs == (Reversed(next) + [cs[0]]) + cs[1..];
    }
  }

  lemma LogSnoc(log: seq<Ran>, r: Ran)
    ensures Of(log + [r], true) == Of(log, true) + if r.fromChat then [r.command] else []
    ensures Of(log + [r], false) == Of(log, false) + if r.fromChat then [] else [r.command]
    ensures Inserted(log + [r]) == Inserted(log) + Inserts(r.command)
  {
    assert (log + [r])[..|log|] == log;
  }

  /** Chat commands run and still queued are those that arrived; likewise for inserted ones. */
  predicate InOrder(s: State, log: seq<Ran>, arrived: seq<string>) {
    && Of(log, true) + s.commands == arrived
    && Of(log, false) + Reversed(s.next) == Inserted(log)
  }

  lemma TickInOrder(s: State, log: seq<Ran>, arrived: seq<string>, lockon: bool)
    requires InOrder(s, log, arrived)
    ensures var (t, ran) := Tick(s, lockon);
            && InOrder(t, if ran.Some? then log + [ran.value] else log, arrived)
            && (ran.Some? ==> ran.value.fromChat == (s.commands != []))
  {
    hide Of, Inserted, EffectOf, PressAll, InsertFront;
    var (t, ran) := Tick(s, lockon);
    if ran.Some? {
      var r := ran.value;
      LogSnoc(log, r);
      if r.fromChat {
        assert s.commands == [r.command] + s.commands[1..];
        ReversedInsert(s.next, Inserts(r.command));
        Assoc(Of(log, true), [r.command], s.commands[1..]);
        Assoc(Of(log, false), Reversed(s.next), Inserts(r.command));
        assert Of(log, false) + [] == Of(log, false);
      } else {
        var below := s.next[..|s.next| - 1];
        ReversedInsert(below, Inserts(r.command));
        assert Reversed(s.next) == [r.command] + Reversed(below);
        Assoc(Of(log, false), [r.command], Reversed(below));
        Assoc(Of(log, false) + [r.command], Reversed(below), Inserts(r.command));
        assert Of(log, true) + [] == Of(log, true);
      }
    }
  }

  /**
   In every run chat commands are run in the order they arrived, none lost or repeated,
   and inserted commands in the order they were inserted.
   */
  lemma {:induction false} RunsInOrder(events: seq<Event>)
    ensures var (s, log) := Run(events);
            InOrder(s, log, Arrived(events))
  {
    if events != [] {
      hide InOrder, Tick;
      var before := events[..|events| - 1];
      RunsInOrder(before);
      var (s, log) := Run(before);
      match events[|events| - 1] {
        case Chat(words) => ChatInOrder(s, log, Arrived(before), words);
        case Clock(lockon) =>
          TickInOrder(s, log, Arrived(before), lockon);
          assert Arrived(before) + [] == Arrived(before);
      }
    }
  }

  lemma ChatInOrder(s: State, log: seq<Ran>, arrived: seq<string>, words: seq<string>)
    requires InOrder(s, log, arrived)
    ensures InOrder(s.(commands := s.commands + words), log, arrived + words)
  {
    Assoc(Of(log, true), s.commands, words);
  }

  lemma InsertNothing(next: seq<string>)
    ensures InsertFront(next, []) == next
  {
  }

  lemma {:induction false} InsertAppend(next: seq<string>, xs: seq<string>, ys: seq<string>)
    ensures InsertFront(next, xs + ys) == InsertFront(InsertFront(next, xs), ys)
    decreases xs
  {
    if xs == [] {
      assert xs + ys == ys;
    } else {
      assert (xs + ys)[1..] == xs[1..] + ys;
      InsertAppend([xs[0]] + next, xs[1..], ys);
    }
  }

  lemma ChainOfNone(w: string)
    ensures Chain([], w) == NO_EFFECT
  {
  }

  // ---- The client -------------------------------------------------------------

  class Client {
    const controller1: SwitchController
    var commandQueue: seq<string>
    var nextCommands: seq<string>
    var lockon: bool

    function View(): State
      reads this, controller1
    {
      State(commandQueue, nextCommands, controller1.View())
    }

    constructor ()
      ensures View() == START && !lockon && fresh(controller1)
    {
      controller1 := new SwitchController();
      commandQueue, nextCommands, lockon := [], [], false;
    }

    /** The end of handleChat: more than twenty commands, or any invalid one, drop the line. */
    method Enqueue(commands: seq<string>, valid: bool)
      modifies this`commandQueue
      ensures View() == old(View()).(commands := old(commandQueue) +
                          if valid && |commands| <= 20 then commands else [])
    {
      var words := if valid && |commands| <= 20 then commands else [];
      var i := 0;
      while i < |words|
        invariant 0 <= i <= |words|
        invariant commandQueue == old(commandQueue) + words[..i]
      {
        commandQueue := commandQueue + [words[i]];
        i := i + 1;
      }
      assert words[..|words|] == words;
    }

    method InsertAll(cs: seq<string>)
      modifies this`nextCommands
      ensures nextCommands == InsertFront(old(nextCommands), cs)
    {
      var i := 0;
      assert cs[0..] == cs;
      while i < |cs|
        invariant 0 <= i <= |cs|
        invariant InsertFront(nextCommands, cs[i..]) == InsertFront(old(nextCommands), cs)
      {
        assert cs[i..][1..] == cs[i + 1..];
        nextCommands := [cs[i]] + nextCommands;
        i := i + 1;
      }
    }

    /** One row of the chain. */
    method PerformRow(row: Row, command: string, reset: Option<bool>) returns (settled: Option<bool>)
      modifies this`nextCommands, controller1
      ensures var e := if command in row.words then Then(Effect([], [], reset), row) else Effect([], [], reset);
              && controller1.View() == PressAll(old(controller1.View()), e.keys)
              && nextCommands == InsertFront(old(nextCommands), e.inserts) && settled == e.reset
    {
      hide PressAll, InsertFront;
      PressNothing(controller1.View());
      InsertNothing(nextCommands);
      settled := reset;
      if command in row.words {
        controller1.AssignAll(row.keys);
        InsertAll(row.inserts);
        assert [] + row.keys == row.keys && [] + row.inserts == row.inserts;
        if row.reset.Some? {
          settled := row.reset;
        }
      }
    }

    /** The chain of conditions on a word. */
    method PerformChain(rows: seq<Row>, command: string) returns (settled: Option<bool>)
      modifies this`nextCommands, controller1
      ensures var e := Chain(rows, command);
              && controller1.View() == PressAll(old(controller1.View()), e.keys)
              && nextCommands == InsertFront(old(nextCommands), e.inserts) && settled == e.reset
    {
      hide PressAll, InsertFront, Chain;
      PressNothing(controller1.View());
      InsertNothing(nextCommands);
      ChainOfNone(command);
      settled := None;
      var i := 0;
      assert rows[..0] == [];
      while i < |rows|
        invariant 0 <= i <= |rows|
        invariant controller1.View() == PressAll(old(controller1.View()), Chain(rows[..i], command).keys)
        invariant nextCommands == InsertFront(old(nextCommands), Chain(rows[..i], command).inserts)
        invariant settled == Chain(rows[..i], command).reset
      {
        assert rows[..i + 1] == rows[..i] + [rows[i]];
        ChainSnoc(rows[..i], rows[i], command);
        PressAppend(old(controller1.View()), Chain(rows[..i], command).keys, rows[i].keys);
        InsertAppend(old(nextCommands), Chain(rows[..i], command).inserts, rows[i].inserts);
        PressNothing(controller1.View());
        InsertNothing(nextCommands);
        assert [] + rows[i].keys == rows[i].keys && [] + rows[i].inserts == rows[i].inserts;
        settled := PerformRow(rows[i], command, settled);
        i := i + 1;
      }
      assert rows[..i] == rows;
    }

    /** The buttons of a chord. */
    method PerformChord(parts: seq<string>)
      modifies controller1
      ensures controller1.View() == PressAll(old(controller1.View()), ChordKeys(parts))
    {
      hide PressAll, Chain, Chords, ButtonName, TapRows;
      PressNothing(controller1.View());
      var i := 0;
      assert parts[..0] == [];
      while i < |parts|
        invariant 0 <= i <= |parts|
        invariant controller1.View() == PressAll(old(controller1.View()), ChordKeys(parts[..i]))
      {
        var keys := Chain(TapRows(Chords()), ButtonName(parts[i])).keys;
        assert parts[..i + 1][..i] == parts[..i];
        PressAppend(old(controller1.View()), ChordKeys(parts[..i]), keys);
        controller1.AssignAll(keys);
        i := i + 1;
      }
      assert parts[..i] == parts;
    }

    /** Everything a word does, and whether to reset afterwards. */
    method Perform(command: string, default: bool) returns (reset: bool)
      modifies this`nextCommands, controller1
      ensures controller1.View() == PressAll(old(controller1.View()), Keys(command))
      ensures nextCommands == InsertFront(old(nextCommands), Inserts(command))
      ensures reset == Resets(command, default)
    {
      hide PressAll, InsertFront, Chain, Table, Split, ChordKeys;
      var settled := PerformChain(Table(), command);
      reset := if settled.Some? then settled.value else default;
      if '+' in command {
        PressAppend(old(controller1.View()), Chain(Table(), command).keys, ChordKeys(Split(command)));
        PerformChord(Split(command));
        reset := true;
      }
    }

    /**
     One scheduler tick. `sent` are the lines that go to the controller: after every tick
     that runs a command the last line is that of the state the controller is left in.
     */
    method DecreaseQueue() returns (ran: Option<Ran>, sent: seq<string>)
      modifies this, controller1
      ensures (View(), ran) == Tick(old(View()), lockon) && lockon == old(lockon)
      ensures sent == [] <==> ran.None?
      ensures sent != [] ==> sent[|sent| - 1] == Output(controller1.View())
      ensures ran.Some? ==>
              sent[0] == Output(PressAll(LockOn(old(controller1.View()), lockon), Keys(ran.value.command)))
    {
      hide PressAll, EffectOf, InsertFront, Output;
      var fromChat := commandQueue != [];
      if |commandQueue| > 0 {
        nextCommands := nextCommands + [commandQueue[0]];
        commandQueue := commandQueue[1..];
      }
      var reset := true;
      if lockon {
        controller1.Assign(Hold(ZL));
        reset := false;
      }
      sent := [];
      ran := None;
      if |nextCommands| > 0 {
        var command := nextCommands[|nextCommands| - 1];
        nextCommands := nextCommands[..|nextCommands| - 1];
        ran := Some(Ran(command, fromChat));
        reset := Perform(command, reset);
        controller1.GetOutput();
        sent := [controller1.output];
        if reset {
          controller1.Reset();
          controller1.GetOutput();
          sent := sent + [controller1.output];
        }
      }
    }
  }
}
