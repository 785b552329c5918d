/**
 What a macro does from its first word on: which rows its words match, and the states that
 the scheduler shows while it plays.
 */
module MacroRuns {
  import opened Basics
  import opened ChatWords
  import opened Commands
  import opened Controller
  import opened Scheduler

  /** The word runs the `k`-th step of the macro. */
  predicate RunsStep(w: string, m: Macro, k: nat) {
    1 <= k <= |m.steps| && if k == 1 then w in m.names else w == StepName(m, k)
  }

  // ---- Words of different macros are different --------------------------------

  lemma JumpOrDive(w: string, m: Macro, n: Macro)
    requires (m in Jumps() || m in Dives()) && IsMacro(n) && w in m.names && w in n.names
    ensures m == n
  {
    Letters(w);
  }

  lemma FlipOrPound(w: string, m: Macro, n: Macro)
    requires (m in Flips() || m in Pounds() || m in Spin()) && IsMacro(n) && w in m.names && w in n.names
    ensures m == n
  {
    Letters(w);
  }

  lemma StemsApart(m: Macro, n: Macro)
    requires IsMacro(m) && IsMacro(n) && m.stem == n.stem
    ensures m == n
  {
    Letters(m.stem);
  }

  lemma StepsApart(m: Macro, k: nat, n: Macro, j: nat)
    requires WellNamed(m) && WellNamed(n) && 2 <= k < 20 && 2 <= j < 20 && StepName(m, k) == StepName(n, j)
    ensures k == j && m.stem == n.stem
  {
    hide Rank, Number, WellNamed, Decimal;
    StepNumber(m, k);
    StepNumber(n, j);
    assert m.stem == StepName(m, k)[..|m.stem|] && n.stem == StepName(n, j)[..|n.stem|];
    assert |m.stem| == |StepName(m, k)| - |Decimal(k)|;
  }

  /** A word runs at most one step of one macro. */
  lemma OneMeaning(w: string, m: Macro, k: nat, n: Macro, j: nat)
    requires IsMacro(m) && IsMacro(n) && RunsStep(w, m, k) && RunsStep(w, n, j)
    ensures m == n && k == j
  {
    hide IsMacro, WellNamed, StepName, Number, Rank;
    MacroNamed(m);
    MacroNamed(n);
    StepsFew(m);
    StepsFew(n);
    if k == 1 && j == 1 {
      SameName(w, m, n);
    } else if k == 1 {
      StepNumber(n, j);
      NameNumber(w, m);
    } else if j == 1 {
      StepNumber(m, k);
      NameNumber(w, n);
    } else {
      StepsApart(m, k, n, j);
      StemsApart(m, n);
    }
  }

  lemma SameName(w: string, m: Macro, n: Macro)
    requires IsMacro(m) && IsMacro(n) && w in m.names && w in n.names
    ensures m == n
  {
    hide Jumps, Dives, Flips, Pounds, Spin;
    if m in Jumps() || m in Dives() {
      JumpOrDive(w, m, n);
    } else {
      FlipOrPound(w, m, n);
    }
  }

  lemma NameNumber(w: string, m: Macro)
    requires WellNamed(m) && w in m.names
    ensures Number(w) == 1
  {
  }

  // ---- They are no other words either -----------------------------------------

  lemma NameNoSlow(w: string, m: Macro, i: nat)
    requires IsMacro(m) && w in m.names && i < |SlowSticks()|
    ensures w !in SlowSticks()[i].0
  {
    Letters(w);
  }

  lemma NameNoHeld(w: string, m: Macro, i: nat)
    requires IsMacro(m) && w in m.names && i < |HeldSticks()|
    ensures w !in HeldSticks()[i].0
  {
    Letters(w);
  }

  lemma NameNoPad(w: string, m: Macro, i: nat)
    requires IsMacro(m) && w in m.names && i < |Pads()|
    ensures w !in Pads()[i].0
  {
    Letters(w);
  }

  lemma NameNoLook(w: string, m: Macro, i: nat)
    requires IsMacro(m) && w in m.names && i < |Looks()|
    ensures w !in Looks()[i].0
  {
    Letters(w);
  }

  lemma NameNoPress(w: string, m: Macro, i: nat)
    requires IsMacro(m) && w in m.names && i < |Presses()|
    ensures w !in Presses()[i].0
  {
    Letters(w);
  }

  lemma NameNoTap(w: string, m: Macro, i: nat)
    requires IsMacro(m) && w in m.names && i < |Taps()|
    ensures w !in Taps()[i].0
  {
    hide SlowSticks, HeldSticks, Pads, Looks, Presses, IsMacro;
    TapCounts();
    if i < 12 {
      NameNoSlow(w, m, i);
    } else if i < 24 {
      NameNoHeld(w, m, i - 12);
    } else if i < 28 {
      NameNoPad(w, m, i - 24);
    } else if i < 40 {
      NameNoLook(w, m, i - 28);
    } else {
      NameNoPress(w, m, i - 40);
    }
  }

  lemma StickNumbers(w: string, i: nat)
    requires i < 12 && (w in SlowSticks()[i].0 || w in HeldSticks()[i].0)
    ensures Number(w) == 1
  {
  }

  lemma PadNumbers(w: string, i: nat)
    requires (i < 4 && w in Pads()[i].0) || (i < 12 && w in Looks()[i].0)
    ensures Number(w) == 1
  {
  }

  lemma PressNumbers(w: string, i: nat)
    requires i < |Presses()| && w in Presses()[i].0
    ensures Number(w) == 1
  {
  }

  lemma TapNumbers(w: string, i: nat)
    requires i < |Taps()| && w in Taps()[i].0
    ensures Number(w) == 1
  {
    hide SlowSticks, HeldSticks, Pads, Looks, Presses, Number;
    TapCounts();
    if i < 12 {
      StickNumbers(w, i);
    } else if i < 24 {
      StickNumbers(w, i - 12);
    } else if i < 28 {
      PadNumbers(w, i - 24);
    } else if i < 40 {
      PadNumbers(w, i - 28);
    } else {
      PressNumbers(w, i - 40);
    }
  }

  lemma MacroNoTap(w: string, m: Macro, k: nat, i: nat)
    requires IsMacro(m) && RunsStep(w, m, k) && i < |Taps()|
    ensures w !in Taps()[i].0
  {
    hide IsMacro, WellNamed, StepName, Number, Rank, Taps;
    if k == 1 {
      NameNoTap(w, m, i);
    } else {
      MacroNamed(m);
      StepsFew(m);
      StepNumber(m, k);
      if w in Taps()[i].0 {
        TapNumbers(w, i);
      }
    }
  }

  lemma NameNoSprint(w: string, m: Macro, i: nat)
    requires IsMacro(m) && w in m.names && i < |Sprints()|
    ensures w !in Sprints()[i].0
  {
    Letters(w);
  }

  lemma SprintNumbers(w: string, i: nat)
    requires i < |Sprints()| && w in Sprints()[i].0
    ensures Number(w) == 1
  {
  }

  lemma NameNoOther(w: string, m: Macro, r: Row)
    requires IsMacro(m) && w in m.names && r in Others()
    ensures w !in r.words
  {
    Letters(w);
  }

  lemma OtherNumbers(w: string, r: Row)
    requires r in Others() && w in r.words
    ensures Number(w) == 1 || w == "jump back2"
  {
  }

  lemma MacroNoSprint(w: string, m: Macro, k: nat, i: nat)
    requires IsMacro(m) && RunsStep(w, m, k) && i < |Sprints()|
    ensures w !in Sprints()[i].0
  {
    hide IsMacro, WellNamed, StepName, Number, Rank, Sprints;
    if k == 1 {
      NameNoSprint(w, m, i);
    } else {
      MacroNamed(m);
      StepsFew(m);
      StepNumber(m, k);
      if w in Sprints()[i].0 {
        SprintNumbers(w, i);
      }
    }
  }

  lemma MacroNoOther(w: string, m: Macro, k: nat, r: Row)
    requires IsMacro(m) && RunsStep(w, m, k) && r in Others()
    ensures w !in r.words
  {
    hide IsMacro, WellNamed, StepName, Number, Rank, Others;
    if k == 1 {
      NameNoOther(w, m, r);
    } else {
      MacroNamed(m);
      StepsFew(m);
      StepNumber(m, k);
      StepIsNotJumpBack2(m, k);
      if w in r.words {
        OtherNumbers(w, r);
      }
    }
  }

  // ---- What a word of a macro does --------------------------------------------

  lemma {:induction false} ChainLeft(a: seq<Row>, b: seq<Row>, w: string)
    requires Chain(b, w) == NO_EFFECT
    ensures Chain(a + b, w) == Chain(a, w)
    decreases b
  {
    if b == [] {
      assert a + b == a;
    } else {
      var k := |b| - 1;
      assert w !in b[k].words || (b[k].keys == [] && b[k].inserts == [] && b[k].reset.None?);
      ChainLeft(a, b[..k], w);
      ChainSnoc(a + b[..k], b[k], w);
      assert a + b == (a + b[..k]) + [b[k]];
    }
  }

  lemma {:induction false} ChainRight(a: seq<Row>, b: seq<Row>, w: string)
    requires Chain(a, w) == NO_EFFECT
    ensures Chain(a + b, w) == Chain(b, w)
    decreases b
  {
    if b == [] {
      assert a + b == a;
    } else {
      var k := |b| - 1;
      ChainRight(a, b[..k], w);
      ChainSnoc(a + b[..k], b[k], w);
      assert a + b == (a + b[..k]) + [b[k]];
    }
  }

  function RowEffect(r: Row): Effect {
    Effect(r.keys, r.inserts, r.reset)
  }

  /** A word that is in one row only has the effect of that row. */
  lemma {:induction false} OneRow(rows: seq<Row>, w: string, k: nat)
    requires k < |rows| && forall i :: 0 <= i < |rows| ==> (w in rows[i].words <==> i == k)
    ensures Chain(rows, w) == RowEffect(rows[k])
    decreases |rows|
  {
    hide Chain;
    var front, last := rows[..|rows| - 1], rows[|rows| - 1];
    assert rows == front + [last];
    ChainSnoc(front, last, w);
    if k == |rows| - 1 {
      NoRow(front, w);
      assert [] + last.keys == last.keys && [] + last.inserts == last.inserts;
    } else {
      OneRow(front, w, k);
    }
  }

  lemma OwnRows(w: string, m: Macro, k: nat)
    requires IsMacro(m) && RunsStep(w, m, k)
    ensures Chain(MacroRows(m), w) == RowEffect(MacroRow(m, k))
  {
    hide IsMacro, Chain, StepName;
    forall i | 0 <= i < |m.steps| ensures w in MacroRows(m)[i].words <==> i == k - 1 {
      assert w in MacroRows(m)[i].words <==> RunsStep(w, m, i + 1);
      if RunsStep(w, m, i + 1) {
        OneMeaning(w, m, k, m, i + 1);
      }
    }
    OneRow(MacroRows(m), w, k - 1);
  }

  lemma OtherRows(w: string, m: Macro, k: nat, n: Macro)
    requires IsMacro(m) && IsMacro(n) && RunsStep(w, m, k) && m != n
    ensures Chain(MacroRows(n), w) == NO_EFFECT
  {
    hide IsMacro, Chain, StepName;
    forall r | r in MacroRows(n) ensures w !in r.words {
      var i :| 0 <= i < |n.steps| && r == MacroRows(n)[i];
      assert w in r.words <==> RunsStep(w, n, i + 1);
      if w in r.words {
        OneMeaning(w, m, k, n, i + 1);
      }
    }
    NoRow(MacroRows(n), w);
  }

  /** No macro is in a table twice. */
  predicate AllDifferent(ms: seq<Macro>) {
    forall i, j :: 0 <= i < j < |ms| ==> ms[i] != ms[j]
  }

  /** A table of macros, with or without the one that the word belongs to. */
  lemma {:induction false} TableEffect(ms: seq<Macro>, w: string, m: Macro, k: nat)
    requires IsMacro(m) && RunsStep(w, m, k) && AllDifferent(ms) && forall n :: n in ms ==> IsMacro(n)
    ensures Chain(MacroTable(ms), w) == if m in ms then RowEffect(MacroRow(m, k)) else NO_EFFECT
    decreases |ms|
  {
    hide IsMacro, Chain, MacroRows, MacroRow, RunsStep;
    if ms == [] {
      NoRow(MacroTable(ms), w);
    } else {
      var front, last := ms[..|ms| - 1], ms[|ms| - 1];
      assert ms == front + [last] && last in ms;
      TableEffect(front, w, m, k);
      if last == m {
        assert m !in front;
        OwnRows(w, m, k);
        ChainRight(MacroTable(front), MacroRows(last), w);
      } else {
        OtherRows(w, m, k, last);
        ChainLeft(MacroTable(front), MacroRows(last), w);
      }
    }
  }

  lemma TablesDiffer()
    ensures AllDifferent(Jumps()) && AllDifferent(Dives()) && AllDifferent(Flips())
    ensures AllDifferent(Pounds()) && AllDifferent(Spin())
  {
    assert Dives()[0].stem[0] == 's' && Dives()[1].stem[0] == 'd' && Dives()[2].stem[0] == 'h';
    assert Jumps()[0].stem[0] == 'l' && Jumps()[1].stem[0] == 'j';
    assert Flips()[0].stem[0] == 'r' && Flips()[1].stem[0] == 'b';
  }

  /** Where a macro is in the table, by the first letter of its stem. */
  function Block(m: Macro): nat
    requires m.stem != []
  {
    var c := m.stem[0];
    if c == 'l' || c == 'j' then 0
    else if c == 'r' || c == 'b' then 2
    else if c == 'g' then 3
    else if |m.stem| == 4 && c == 's' then 4
    else 1
  }

  lemma BlockOf(m: Macro)
    requires IsMacro(m)
    ensures m.stem != []
    ensures (m in Jumps() <==> Block(m) == 0) && (m in Dives() <==> Block(m) == 1)
    ensures (m in Flips() <==> Block(m) == 2) && (m in Pounds() <==> Block(m) == 3) && (m in Spin() <==> Block(m) == 4)
  {
  }

  /** `here` is where the effect of a chain comes from, if this is the block. */
  predicate Only(rows: seq<Row>, w: string, here: bool, e: Effect) {
    Chain(rows, w) == if here then e else NO_EFFECT
  }

  lemma OnlyOne(a: seq<Row>, b: seq<Row>, w: string, inA: bool, inB: bool, e: Effect)
    requires Only(a, w, inA, e) && Only(b, w, inB, e) && !(inA && inB)
    ensures Only(a + b, w, inA || inB, e)
  {
    hide Chain;
    if inB {
      ChainRight(a, b, w);
    } else {
      ChainLeft(a, b, w);
    }
  }

  lemma OthersSilent(w: string, m: Macro, k: nat)
    requires IsMacro(m) && RunsStep(w, m, k)
    ensures Chain(Others(), w) == NO_EFFECT && Chain(TapRows(Sprints()), w) == NO_EFFECT
    ensures Chain(TapRows(Taps()), w) == NO_EFFECT
  {
    hide IsMacro, Chain, RunsStep, Others, Sprints, Taps;
    forall r | r in Others() ensures w !in r.words {
      MacroNoOther(w, m, k, r);
    }
    NoRow(Others(), w);
    forall i | 0 <= i < |Sprints()| ensures w !in Sprints()[i].0 {
      MacroNoSprint(w, m, k, i);
    }
    NoTap(Sprints(), w);
    forall i | 0 <= i < |Taps()| ensures w !in Taps()[i].0 {
      MacroNoTap(w, m, k, i);
    }
    NoTap(Taps(), w);
  }

  lemma LaterEffect(w: string, m: Macro, k: nat)
    requires IsMacro(m) && RunsStep(w, m, k)
    ensures Chain(LaterRows(), w) == RowEffect(MacroRow(m, k))
  {
    hide Chain, RunsStep, Others, Sprints, TapRows, MacroTable, MacroRow, RowEffect, Block, AllDifferent,
      Jumps, Dives, Flips, Pounds, Spin;
    StepBounds(w, m, k);
    TablesDiffer();
    BlockOf(m);
    OthersSilent(w, m, k);
    var e, n := RowEffect(MacroRow(m, k)), Block(m);
    TableEffect(Jumps(), w, m, k);
    TableEffect(Dives(), w, m, k);
    TableEffect(Flips(), w, m, k);
    TableEffect(Pounds(), w, m, k);
    TableEffect(Spin(), w, m, k);
    var a := MacroTable(Jumps());
    var b := a + Others();
    var c := b + MacroTable(Dives());
    var d := c + MacroTable(Flips());
    var f := d + MacroTable(Pounds());
    var g := f + TapRows(Sprints());
    OnlyOne(a, Others(), w, n == 0, false, e);
    OnlyOne(b, MacroTable(Dives()), w, n == 0, n == 1, e);
    OnlyOne(c, MacroTable(Flips()), w, n <= 1, n == 2, e);
    OnlyOne(d, MacroTable(Pounds()), w, n <= 2, n == 3, e);
    OnlyOne(f, TapRows(Sprints()), w, n <= 3, false, e);
    OnlyOne(g, MacroTable(Spin()), w, n <= 3, n == 4, e);
    assert LaterRows() == g + MacroTable(Spin());
  }

  lemma NoPlusInMacro(w: string, m: Macro, k: nat)
    requires IsMacro(m) && RunsStep(w, m, k)
    ensures '+' !in w
  {
    hide IsMacro, WellNamed, StepName;
    if k == 1 {
      MacroWordsPlain(w, m);
    } else {
      MacroNamed(m);
      StepsFew(m);
      MacroWordsPlain(m.stem, m);
      StepWordsPlain(m, k);
    }
  }

  /** A word of a macro does what its step says and nothing else, and queues the next step alone. */
  lemma StepEffect(w: string, m: Macro, k: nat)
    requires IsMacro(m) && RunsStep(w, m, k)
    ensures Keys(w) == m.steps[k - 1]
    ensures Inserts(w) == if k < |m.steps| then [StepName(m, k + 1)] else []
    ensures forall default :: Resets(w, default) == (k == |m.steps|)
  {
    hide IsMacro, Chain, RunsStep, Table, LaterRows, Taps, TapRows, StepName, ChordKeys, Split;
    TapsFirst();
    OthersSilent(w, m, k);
    LaterEffect(w, m, k);
    ChainRight(TapRows(Taps()), LaterRows(), w);
    NoPlusInMacro(w, m, k);
  }

  // ---- The words that do not follow the pattern -------------------------------

  lemma OtherNoTap(w: string, j: nat, i: nat)
    requires j < 4 && w in Others()[j].words && i < |Taps()|
    ensures w !in Taps()[i].0
  {
    hide SlowSticks, HeldSticks, Pads, Looks, Presses, Others;
    TapCounts();
    if i < 12 {
      OtherNoStick(w, j, i);
    } else if i < 24 {
      OtherNoStick(w, j, i - 12);
    } else if i < 28 {
      OtherNoPad(w, j, i - 24);
    } else if i < 40 {
      OtherNoPad(w, j, i - 28);
    } else {
      OtherNoPress(w, j, i - 40);
    }
  }

  lemma OtherNoStick(w: string, j: nat, i: nat)
    requires j < 4 && w in Others()[j].words && i < 12
    ensures w !in SlowSticks()[i].0 && w !in HeldSticks()[i].0
  {
    Letters(w);
  }

  lemma OtherNoPad(w: string, j: nat, i: nat)
    requires j < 4 && w in Others()[j].words && i < 12
    ensures (i < 4 ==> w !in Pads()[i].0) && w !in Looks()[i].0
  {
    Letters(w);
  }

  lemma OtherNoPress(w: string, j: nat, i: nat)
    requires j < 4 && w in Others()[j].words && i < |Presses()|
    ensures w !in Presses()[i].0
  {
    Letters(w);
  }

  lemma OtherNoSprint(w: string, j: nat, i: nat)
    requires j < 4 && w in Others()[j].words && i < |Sprints()|
    ensures w !in Sprints()[i].0
  {
    Letters(w);
  }

  lemma OtherOnce(w: string, j: nat, i: nat)
    requires j < 4 && w in Others()[j].words && i < 4
    ensures w in Others()[i].words <==> i == j
  {
    Letters(w);
  }

  lemma OtherNoMacro(w: string, j: nat, ms: seq<Macro>)
    requires j < 4 && w in Others()[j].words && forall m :: m in ms ==> IsMacro(m)
    ensures Chain(MacroTable(ms), w) == NO_EFFECT
  {
    hide Chain, IsMacro, MacroTable, Others;
    forall r | r in MacroTable(ms) ensures w !in r.words {
      InMacroTable(ms, r);
      var m, k :| m in ms && 1 <= k <= |m.steps| && r == MacroRow(m, k);
      OtherInOthers(j);
      if w in r.words {
        assert RunsStep(w, m, k);
        MacroNoOther(w, m, k, Others()[j]);
      }
    }
    NoRow(MacroTable(ms), w);
  }

  lemma OtherInOthers(j: nat)
    requires j < 4
    ensures |Others()| == 4 && Others()[j] in Others()
  {
  }

  /** Each of these words does what its row says and nothing else. */
  lemma OtherEffect(w: string, j: nat)
    requires j < 4 && w in Others()[j].words
    ensures EffectOf(w) == RowEffect(Others()[j])
  {
    hide Chain, Others, Sprints, Taps, MacroTable, Jumps, Dives, Flips, Pounds, Spin, RowEffect, Table, LaterRows;
    OtherInOthers(j);
    forall i | 0 <= i < |Taps()| ensures w !in Taps()[i].0 {
      OtherNoTap(w, j, i);
    }
    NoTap(Taps(), w);
    forall i | 0 <= i < |Sprints()| ensures w !in Sprints()[i].0 {
      OtherNoSprint(w, j, i);
    }
    NoTap(Sprints(), w);
    forall i | 0 <= i < 4 ensures w in Others()[i].words <==> i == j {
      OtherOnce(w, j, i);
    }
    OneRow(Others(), w, j);
    LaterOther(w, j, RowEffect(Others()[j]));
    TapsFirst();
    ChainRight(TapRows(Taps()), LaterRows(), w);
    OtherWordsPlain(w, Others()[j]);
  }

  lemma LaterOther(w: string, j: nat, e: Effect)
    requires j < 4 && w in Others()[j].words && Chain(Others(), w) == e
    requires Chain(TapRows(Sprints()), w) == NO_EFFECT
    ensures Chain(LaterRows(), w) == e
  {
    hide Chain, Others, Sprints, TapRows, MacroTable, Jumps, Dives, Flips, Pounds, Spin;
    OtherNoMacro(w, j, Jumps());
    OtherNoMacro(w, j, Dives());
    OtherNoMacro(w, j, Flips());
    OtherNoMacro(w, j, Pounds());
    OtherNoMacro(w, j, Spin());
    var a := MacroTable(Jumps());
    var b := a + Others();
    var c := b + MacroTable(Dives());
    var d := c + MacroTable(Flips());
    var f := d + MacroTable(Pounds());
    var g := f + TapRows(Sprints());
    OnlyOne(a, Others(), w, false, true, e);
    OnlyOne(b, MacroTable(Dives()), w, true, false, e);
    OnlyOne(c, MacroTable(Flips()), w, true, false, e);
    OnlyOne(d, MacroTable(Pounds()), w, true, false, e);
    OnlyOne(f, TapRows(Sprints()), w, true, false, e);
    OnlyOne(g, MacroTable(Spin()), w, true, false, e);
    assert LaterRows() == g + MacroTable(Spin());
  }

  // ---- The scheduler plays it -------------------------------------------------

  /** The controller while the `k`-th step is held: all keys since the first. */
  function Played(m: Macro, k: nat): Controls
    requires k <= |m.steps|
  {
    PressAll(NEUTRAL, Flatten(m.steps[..k]))
  }

  lemma PlayedOn(m: Macro, k: nat)
    requires k < |m.steps|
    ensures Played(m, k + 1) == PressAll(Played(m, k), m.steps[k])
  {
    hide PressAll;
    assert m.steps[..k + 1] == m.steps[..k] + [m.steps[k]];
    FlattenSnoc(m.steps[..k], m.steps[k]);
    PressAppend(NEUTRAL, Flatten(m.steps[..k]), m.steps[k]);
  }

  /** Ticks without lock-on. */
  function Ticks(s: State, n: nat): State {
    if n == 0 then s else Tick(Ticks(s, n - 1), false).0
  }

  lemma OneStep(s: State, w: string, m: Macro, k: nat)
    requires IsMacro(m) && RunsStep(w, m, k) && s.controls == Played(m, k - 1)
    requires (s.commands == [w] && s.next == []) || (s.commands == [] && s.next == [w])
    ensures Fetch(s).Some? && Fetch(s).value.0.command == w && Shown(s, w, false) == Played(m, k)
    ensures Tick(s, false).0 ==
            if k < |m.steps| then State([], [StepName(m, k + 1)], Played(m, k)) else State([], [], NEUTRAL)
  {
    hide IsMacro, PressAll, Keys, Inserts, Resets, StepName, RunsStep;
    StepEffect(w, m, k);
    StepBounds(w, m, k);
    PlayedOn(m, k - 1);
    InsertOne(if k < |m.steps| then [StepName(m, k + 1)] else []);
  }

  lemma StepBounds(w: string, m: Macro, k: nat)
    requires RunsStep(w, m, k)
    ensures 1 <= k <= |m.steps|
  {
  }

  lemma InsertOne(cs: seq<string>)
    requires |cs| <= 1
    ensures InsertFront([], cs) == cs
  {
    if cs != [] {
      assert [cs[0]] + [] == cs && cs[1..] == [];
    }
  }

  /**
   A macro that is sent to an idle scheduler plays: the `k`-th tick runs its `k`-th step and
   shows all keys of the steps so far, and after the last one the controller is neutral and
   nothing is queued.
   */
  lemma {:induction false} MacroPlays(w: string, m: Macro, k: nat)
    requires IsMacro(m) && w in m.names && 1 <= k <= |m.steps|
    ensures var s := Ticks(State([w], [], NEUTRAL), k - 1);
            && Fetch(s).Some? && RunsStep(Fetch(s).value.0.command, m, k)
            && Shown(s, Fetch(s).value.0.command, false) == Played(m, k)
    ensures Ticks(State([w], [], NEUTRAL), k) ==
            if k < |m.steps| then State([], [StepName(m, k + 1)], Played(m, k)) else State([], [], NEUTRAL)
    decreases k
  {
    hide IsMacro, Tick, Fetch, Shown, Played, StepName;
    var start := State([w], [], NEUTRAL);
    if k == 1 {
      NothingPlayed(m);
      OneStep(start, w, m, 1);
    } else {
      MacroPlays(w, m, k - 1);
      OneStep(Ticks(start, k - 1), StepName(m, k), m, k);
    }
  }

  lemma NothingPlayed(m: Macro)
    ensures Played(m, 0) == NEUTRAL
  {
    assert m.steps[..0] == [];
  }

  lemma JumpBackEffect()
    ensures Keys("jump back") == [LY(STICK_MAX)] && Inserts("jump back") == ["jump forward2"]
    ensures !Resets("jump back", true)
  {
    hide EffectOf;
    OtherEffect("jump back", 0);
  }

  lemma JumpForwardStep()
    ensures |Jumps()| == 2 && IsMacro(Jumps()[1]) && RunsStep("jump forward2", Jumps()[1], 2) && |Jumps()[1].steps| == 2
    ensures Jumps()[1].steps[1] == [LY(STICK_MIN), Hold(B)]
  {
    assert Decimal(2) == ['2'] && StepName(Jumps()[1], 2) == "jump forward2";
  }

  /** So jumping back pulls the stick back first and then jumps forward. */
  lemma JumpBackPlays()
    ensures var s := State(["jump back"], [], NEUTRAL);
            var t := Tick(s, false).0;
            && Shown(s, "jump back", false) == NEUTRAL.(ly := STICK_MAX)
            && t == State([], ["jump forward2"], NEUTRAL.(ly := STICK_MAX))
            && Shown(t, "jump forward2", false) == NEUTRAL.(ly := STICK_MIN, held := {B})
            && Tick(t, false).0 == State([], [], NEUTRAL)
  {
    hide Keys, Inserts, Resets, IsMacro, RunsStep, Jumps;
    JumpBackEffect();
    JumpForwardStep();
    StepEffect("jump forward2", Jumps()[1], 2);
    InsertOne(["jump forward2"]);
    InsertOne([]);
    PressOne(NEUTRAL, LY(STICK_MAX));
    var c := NEUTRAL.(ly := STICK_MAX);
    assert [LY(STICK_MIN), Hold(B)] == [LY(STICK_MIN)] + [Hold(B)];
    PressAppend(c, [LY(STICK_MIN)], [Hold(B)]);
    PressOne(c, LY(STICK_MIN));
    PressOne(c.(ly := STICK_MIN), Hold(B));
  }

  // ---- The spin ---------------------------------------------------------------

  /** The eight positions of the stick, clockwise from the top. */
  function Clock(n: nat): seq<Key>
    requires n < 8
  {
    [[LX(STICK_CENTER), LY(STICK_MIN)], [LX(STICK_MAX), LY(STICK_MIN)], [LX(STICK_MAX), LY(STICK_CENTER)],
     [LX(STICK_MAX), LY(STICK_MAX)], [LX(STICK_CENTER), LY(STICK_MAX)], [LX(STICK_MIN), LY(STICK_MAX)],
     [LX(STICK_MIN), LY(STICK_CENTER)], [LX(STICK_MIN), LY(STICK_MIN)]][n]
  }

  /** Where the `n`-th step of the spin points. */
  function SpinAt(n: nat): nat
    requires 1 <= n <= 16
  {
    var k := (n - 1) % 8;
    if k < 3 then k else (k + 1) % 8
  }

  lemma SpinPoints(n: nat)
    requires 1 <= n <= 16
    ensures SpinKeys(n) == Clock(SpinAt(n))
  {
  }

  /**
   The spin goes clockwise twice, the lower right left out each time, and rests at the top
   between the rounds.
   */
  lemma SpinGoesRound(n: nat)
    requires 1 <= n <= 16
    ensures Spin()[0].steps[n - 1] == Clock(SpinAt(n))
    ensures n < 16 ==> (SpinAt(n) + (if n % 8 == 3 then 2 else if n == 8 then 0 else 1)) % 8 == SpinAt(n + 1)
  {
    hide SpinKeys, Clock, SpinAt;
    SpinPoints(n);
    if n < 16 {
      SpinMoves(n);
    }
  }

  lemma SpinMoves(n: nat)
    requires 1 <= n < 16
    ensures (SpinAt(n) + (if n % 8 == 3 then 2 else if n == 8 then 0 else 1)) % 8 == SpinAt(n + 1)
  {
  }

  // ---- Macros in terms of words -----------------------------------------------

  /** The words that macros are made of. */
  lemma WordKeys()
    ensures Keys("up") == [LY(STICK_MIN)] && Keys("b") == [Hold(B)] && Keys("y") == [Hold(Y)]
    ensures Keys("zl") == [Hold(ZL)]
  {
    hide Keys;
    PlainKeys(2);
    PlainKeys(13);
    PlainKeys(15);
    PlainKeys(18);
  }

  /** Sprints are the chord of up and b; macros hold the keys of such words step by step. */
  lemma MacrosAreWords()
    ensures var up, b, y, zl := Keys("up"), Keys("b"), Keys("y"), Keys("zl");
            && (forall i :: 0 <= i < |Sprints()| ==> Sprints()[i].1 == up + b)
            && Jumps()[0].steps == [up, up + zl, up + b, up + b + [Release(ZL)]]
            && Jumps()[1].steps == [up, up + b]
            && Dives()[0].steps == [zl, y] == Flips()[0].steps
            && Dives()[1].steps == [b, zl, y] == Dives()[2].steps
            && Flips()[1].steps == [zl, b] && Pounds()[0].steps == [b, zl]
  {
    hide Keys;
    WordKeys();
    assert Keys("up") + Keys("zl") == [LY(STICK_MIN), Hold(ZL)];
    assert Keys("up") + Keys("b") == [LY(STICK_MIN), Hold(B)];
    assert Keys("up") + Keys("b") + [Release(ZL)] == [LY(STICK_MIN), Hold(B), Release(ZL)];
  }
}
