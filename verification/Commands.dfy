/**
 What the chat words do. The scheduler compares a word with a chain of independent
 conditions; each is a row here, and every row that matches takes effect, in order.
 A word with a plus sign is a chord and is taken apart last.
 */
module Commands {
  import opened Basics
  import opened Controller

  /** Fields set, words inserted at the front of nextCommands, and the value given to `reset`. */
  datatype Row = Row(words: seq<string>, keys: seq<Key>, inserts: seq<string>, reset: Option<bool>)

  /** Words that set fields and reset afterwards. */
  function TapRow(tap: (seq<string>, seq<Key>)): Row {
    Row(tap.0, tap.1, [], Some(true))
  }

  function TapRows(taps: seq<(seq<string>, seq<Key>)>): seq<Row> {
    seq(|taps|, i requires 0 <= i < |taps| => TapRow(taps[i]))
  }

  /** Short words for the left stick. */
  function SlowSticks(): seq<(seq<string>, seq<Key>)> {
    [
      (["sssleft", "sssl"], [LX(STICK_MIN)]),
      (["sssright", "sssr"], [LX(STICK_MAX)]),
      (["sssup", "sssu"], [LY(STICK_MIN)]),
      (["sssdown", "sssd"], [LY(STICK_MAX)]),
      (["ssleft", "ssl"], [LX(STICK_MIN)]),
      (["ssright", "ssr"], [LX(STICK_MAX)]),
      (["ssup", "ssu"], [LY(STICK_MIN)]),
      (["ssdown", "ssd"], [LY(STICK_MAX)]),
      (["sleft", "sl"], [LX(STICK_MIN)]),
      (["sright", "sr"], [LX(STICK_MAX)]),
      (["sup", "su"], [LY(STICK_MIN)]),
      (["sdown", "sd"], [LY(STICK_MAX)])
    ]
  }

  /** Words that hold the left stick. */
  function HeldSticks(): seq<(seq<string>, seq<Key>)> {
    [
      (["left", "l"], [LX(STICK_MIN)]),
      (["right", "r"], [LX(STICK_MAX)]),
      (["up", "u"], [LY(STICK_MIN)]),
      (["down", "d"], [LY(STICK_MAX)]),
      (["hleft", "hl"], [LX(STICK_MIN)]),
      (["hright", "hr"], [LX(STICK_MAX)]),
      (["hup", "hu"], [LY(STICK_MIN)]),
      (["hdown", "hd"], [LY(STICK_MAX)]),
      (["hhleft"], [LX(STICK_MIN)]),
      (["hhright"], [LX(STICK_MAX)]),
      (["hhup"], [LY(STICK_MIN)]),
      (["hhdown"], [LY(STICK_MAX)])
    ]
  }

  function Pads(): seq<(seq<string>, seq<Key>)> {
    [
      (["dleft", "dl"], [Dpad(DPAD_LEFT)]),
      (["dright", "dr"], [Dpad(DPAD_RIGHT)]),
      (["dup", "du"], [Dpad(DPAD_UP)]),
      (["ddown", "dd"], [Dpad(DPAD_DOWN)])
    ]
  }

  /** Words for the right stick. */
  function Looks(): seq<(seq<string>, seq<Key>)> {
    [
      (["slook left", "sll"], [RX(STICK_MIN)]),
      (["slook right", "slr"], [RX(STICK_MAX)]),
      (["slook up", "slu"], [RY(STICK_MIN)]),
      (["slook down", "sld"], [RY(STICK_MAX)]),
      (["look left", "ll"], [RX(STICK_MIN)]),
      (["look right", "lr"], [RX(STICK_MAX)]),
      (["look up", "lu"], [RY(STICK_MIN)]),
      (["look down", "ld"], [RY(STICK_MAX)]),
      (["hlook left", "hll"], [RX(STICK_MIN)]),
      (["hlook right", "hlr"], [RX(STICK_MAX)]),
      (["hlook up", "hlu"], [RY(STICK_MIN)]),
      (["hlook down", "hld"], [RY(STICK_MAX)])
    ]
  }

  function Presses(): seq<(seq<string>, seq<Key>)> {
    [
      (["a"], [Hold(A)]),
      (["ha"], [Hold(A)]),
      (["sb"], [Hold(B)]),
      (["b"], [Hold(B)]),
      (["hb"], [Hold(B)]),
      (["hhb"], [Hold(B)]),
      (["hhhb"], [Hold(B)]),
      (["x"], [Hold(X)]),
      (["hx"], [Hold(X)]),
      (["y"], [Hold(Y)]),
      (["hy"], [Hold(Y)]),
      (["lstick"], [Hold(LStick)]),
      (["rstick"], [Hold(RStick)]),
      (["l"], [Hold(L)]),
      (["r"], [Hold(R)]),
      (["hr"], [Hold(R)]),
      (["zl"], [Hold(ZL)]),
      (["zr"], [Hold(ZR)]),
      (["minus"], [Hold(Minus)]),
      (["plus"], [Hold(Plus)]),
      (["home"], [Hold(Home)])
    ]
  }

  /** Sticks, d-pad and buttons; `l`, `r` and `hr` occur twice. */
  function Taps(): seq<(seq<string>, seq<Key>)> {
    SlowSticks() + HeldSticks() + Pads() + Looks() + Presses()
  }

  function Sprints(): seq<(seq<string>, seq<Key>)> {
    [
      (["sprint"], [LY(STICK_MIN), Hold(B)]),
      (["hsprint"], [LY(STICK_MIN), Hold(B)]),
      (["hhsprint"], [LY(STICK_MIN), Hold(B)])
    ]
  }

  /**
   A macro: each step but the last queues the next and leaves the controller held. The
   first step goes by any of `names`, the others by `stem` and their number.
   */
  datatype Macro = Macro(names: seq<string>, stem: string, steps: seq<seq<Key>>)

  function StepName(m: Macro, k: nat): string {
    m.stem + Decimal(k)
  }

  function MacroRow(m: Macro, k: nat): Row
    requires 1 <= k <= |m.steps|
  {
    Row(if k == 1 then m.names else [StepName(m, k)], m.steps[k - 1],
        if k < |m.steps| then [StepName(m, k + 1)] else [], Some(k == |m.steps|))
  }

  function MacroRows(m: Macro): seq<Row> {
    seq(|m.steps|, i requires 0 <= i < |m.steps| => MacroRow(m, i + 1))
  }

  function MacroTable(ms: seq<Macro>): seq<Row> {
    if ms == [] then [] else MacroTable(ms[..|ms| - 1]) + MacroRows(ms[|ms| - 1])
  }

  function Jumps(): seq<Macro> {
    [
      Macro(["long jump"], "long jump",
            [[LY(STICK_MIN)], [LY(STICK_MIN), Hold(ZL)], [LY(STICK_MIN), Hold(B)],
             [LY(STICK_MIN), Hold(B), Release(ZL)]]),
      Macro(["jump forward"], "jump forward", [[LY(STICK_MIN)], [LY(STICK_MIN), Hold(B)]])
    ]
  }

  /** Rows that do not follow the pattern. */
  function Others(): seq<Row> {
    [
      Row(["jump back"], [LY(STICK_MAX)], ["jump forward2"], Some(false)),
      Row(["jump back2"], [LY(STICK_MAX), Hold(B)], [], Some(true)),
      Row(["cap bounce"], [], ["b", "y", "sdive", "hy", "y", "sdive"], None),
      Row(["swim"], [], ["b", "b", "b", "b"], None)
    ]
  }

  function Dives(): seq<Macro> {
    [
      Macro(["sdive"], "sdive", [[Hold(ZL)], [Hold(Y)]]),
      Macro(["dive"], "dive", [[Hold(B)], [Hold(ZL)], [Hold(Y)]]),
      Macro(["hdive"], "hdive", [[Hold(B)], [Hold(ZL)], [Hold(Y)]])
    ]
  }

  function Flips(): seq<Macro> {
    [
      Macro(["roll"], "roll", [[Hold(ZL)], [Hold(Y)]]),
      Macro(["backflip", "bf", "back flip"], "backflip", [[Hold(ZL)], [Hold(B)]])
    ]
  }

  function Pounds(): seq<Macro> {
    [
      Macro(["ground pound", "gp", "groundpound"], "ground pound", [[Hold(B)], [Hold(ZL)]])
    ]
  }

  function SpinKeys(n: nat): seq<Key> {
    if n == 1 || n == 8 || n == 9 || n == 16 then [LX(STICK_CENTER), LY(STICK_MIN)]
    else if n == 2 || n == 10 then [LX(STICK_MAX), LY(STICK_MIN)]
    else if n == 3 || n == 11 then [LX(STICK_MAX), LY(STICK_CENTER)]
    else if n == 4 || n == 12 then [LX(STICK_CENTER), LY(STICK_MAX)]
    else if n == 5 || n == 13 then [LX(STICK_MIN), LY(STICK_MAX)]
    else if n == 6 || n == 14 then [LX(STICK_MIN), LY(STICK_CENTER)]
    else [LX(STICK_MIN), LY(STICK_MIN)]
  }

  function Spin(): seq<Macro> {
    [Macro(["spin"], "spin", seq(16, i requires 0 <= i < 16 => SpinKeys(i + 1)))]
  }

  /** The whole chain, in the order of the source. */
  function Table(): seq<Row> {
    TapRows(Taps()) + MacroTable(Jumps()) + Others() + MacroTable(Dives()) + MacroTable(Flips()) +
    MacroTable(Pounds()) + TapRows(Sprints()) + MacroTable(Spin())
  }

  // ---- Dispatch ---------------------------------------------------------------

  datatype Effect = Effect(keys: seq<Key>, inserts: seq<string>, reset: Option<bool>)

  const NO_EFFECT := Effect([], [], None)

  function Then(e: Effect, r: Row): Effect {
    Effect(e.keys + r.keys, e.inserts + r.inserts, if r.reset.Some? then r.reset else e.reset)
  }

  /** All rows that match, in order. */
  function Chain(rows: seq<Row>, w: string): Effect {
    if rows == [] then NO_EFFECT
    else
      var e, r := Chain(rows[..|rows| - 1], w), rows[|rows| - 1];
      if w in r.words then Then(e, r) else e
  }

  /** The button names a chord understands, once `s` and `h` are taken out. */
  function Chords(): seq<(seq<string>, seq<Key>)> {
    [
      (["left"], [LX(STICK_MIN)]),
      (["rigt"], [LX(STICK_MAX)]),
      (["up"], [LY(STICK_MIN)]),
      (["down"], [LY(STICK_MAX)]),
      (["dleft"], [Dpad(DPAD_LEFT)]),
      (["drigt"], [Dpad(DPAD_RIGHT)]),
      (["dup"], [Dpad(DPAD_UP)]),
      (["ddown"], [Dpad(DPAD_DOWN)]),
      (["look left"], [RX(STICK_MIN)]),
      (["look rigt"], [RX(STICK_MAX)]),
      (["look up"], [RY(STICK_MIN)]),
      (["look down"], [RY(STICK_MAX)]),
      (["a"], [Hold(A)]),
      (["b"], [Hold(B)]),
      (["x"], [Hold(X)]),
      (["y"], [Hold(Y)]),
      (["l"], [Hold(L)]),
      (["r"], [Hold(R)]),
      (["zl"], [Hold(ZL)]),
      (["zr"], [Hold(ZR)]),
      (["minus"], [Hold(Minus)])
    ]
  }

  /** The parts between plus signs. */
  function Split(w: string): (parts: seq<string>)
    ensures parts != []
  {
    if w == [] then [[]]
    else
      var c, parts := w[|w| - 1], Split(w[..|w| - 1]);
      if c == '+' then parts + [[]]
      else parts[|parts| - 1 := parts[|parts| - 1] + [c]]
  }

  /** White space as Python's `strip` understands it. */
  predicate IsSpace(c: char) {
    || c == ' ' || '\t' <= c <= '\r' || '\U{1C}' <= c <= '\U{1F}' || c == '\U{85}' || c == '\U{A0}'
    || c == '\U{1680}' || '\U{2000}' <= c <= '\U{200A}' || c == '\U{2028}' || c == '\U{2029}'
    || c == '\U{202F}' || c == '\U{205F}' || c == '\U{3000}'
  }

  function Trim(w: string): string {
    if w != [] && IsSpace(w[0]) then Trim(w[1..])
    else if w != [] && IsSpace(w[|w| - 1]) then Trim(w[..|w| - 1])
    else w
  }

  function Without(w: string, x: char): (v: string)
    ensures x !in v && forall c :: c in v ==> c in w
  {
    if w == [] then []
    else Without(w[..|w| - 1], x) + (if w[|w| - 1] == x then [] else [w[|w| - 1]])
  }

  /** A name without its letters `s` and `h`. */
  function Bare(w: string): string {
    Without(Without(w, 's'), 'h')
  }

  function ButtonName(part: string): string {
    Bare(Trim(part))
  }

  function ChordKeys(parts: seq<string>): seq<Key> {
    if parts == [] then []
    else ChordKeys(parts[..|parts| - 1]) + Chain(TapRows(Chords()), ButtonName(parts[|parts| - 1])).keys
  }

  /** The chain, then the chord. */
  function EffectOf(w: string): Effect {
    var e := Chain(Table(), w);
    if '+' in w then Effect(e.keys + ChordKeys(Split(w)), e.inserts, Some(true)) else e
  }

  function Keys(w: string): seq<Key> {
    EffectOf(w).keys
  }

  function Inserts(w: string): seq<string> {
    EffectOf(w).inserts
  }

  /** Whether the controller is reset after a word; words that say nothing leave `default`. */
  predicate Resets(w: string, default: bool) {
    if EffectOf(w).reset.Some? then EffectOf(w).reset.value else default
  }

  // ---- The chain in general ---------------------------------------------------

  lemma ChainSnoc(rows: seq<Row>, r: Row, w: string)
    ensures Chain(rows + [r], w) == if w in r.words then Then(Chain(rows, w), r) else Chain(rows, w)
  {
    hide Then;
    assert (rows + [r])[..|rows|] == rows;
  }

  /** Every key of the effect comes from a row that matches. */
  lemma {:induction false} ChainKeys(rows: seq<Row>, w: string, k: Key)
    requires k in Chain(rows, w).keys
    ensures exists r :: r in rows && w in r.words && k in r.keys
  {
    var before, r := rows[..|rows| - 1], rows[|rows| - 1];
    if !(w in r.words && k in r.keys) {
      ChainKeys(before, w, k);
      var q :| q in before && w in q.words && k in q.keys;
      assert q in rows;
    }
  }

  /** Every inserted word comes from a row that matches. */
  lemma {:induction false} ChainInserts(rows: seq<Row>, w: string, x: string)
    requires x in Chain(rows, w).inserts
    ensures exists r :: r in rows && w in r.words && x in r.inserts
  {
    var before, r := rows[..|rows| - 1], rows[|rows| - 1];
    if !(w in r.words && x in r.inserts) {
      ChainInserts(before, w, x);
      var q :| q in before && w in q.words && x in q.inserts;
      assert q in rows;
    }
  }

  /** A row that matches has its insertions in the effect, and settles the reset if it sets it. */
  lemma {:induction false} ChainHas(rows: seq<Row>, w: string, r: Row)
    requires r in rows && w in r.words
    ensures r.reset.Some? ==> Chain(rows, w).reset.Some?
    ensures forall x :: x in r.inserts ==> x in Chain(rows, w).inserts
  {
    var before := rows[..|rows| - 1];
    if r in before {
      ChainHas(before, w, r);
    } else {
      assert r == rows[|rows| - 1];
    }
  }

  /** The reset of the effect is that of some row that matches. */
  lemma {:induction false} ChainReset(rows: seq<Row>, w: string)
    ensures Chain(rows, w).reset.Some? ==>
            exists r :: r in rows && w in r.words && r.reset == Chain(rows, w).reset
  {
    if rows != [] {
      var before, r := rows[..|rows| - 1], rows[|rows| - 1];
      ChainReset(before, w);
      if !(w in r.words && r.reset.Some?) && Chain(rows, w).reset.Some? {
        var q :| q in before && w in q.words && q.reset == Chain(before, w).reset;
        assert q in rows;
      }
    }
  }

  // ---- What holds of every row ------------------------------------------------

  /** Some row of the table matches the word and settles the reset. */
  predicate Handled(x: string) {
    exists r :: r in Table() && x in r.words && r.reset.Some?
  }

  /** A later step of a macro: queued by a step that leaves the controller held. */
  predicate Continuation(x: string) {
    exists r :: r in Table() && r.reset == Some(false) && x in r.inserts
  }

  /** The number a word ends with; one if it has none. */
  function Number(w: string): nat {
    if w == [] || !('0' <= w[|w| - 1] <= '9') then 1
    else
      var low := w[|w| - 1] as int - '0' as int;
      if |w| >= 2 && '0' <= w[|w| - 2] <= '9' then 10 * (w[|w| - 2] as int - '0' as int) + low else low
  }

  /** Insertion leads to words with higher numbers, or from the two series to plain words. */
  function Rank(w: string): nat {
    (if Number(w) < 20 then 20 - Number(w) else 0) + (if w == "cap bounce" || w == "swim" then 1 else 0)
  }

  /** Rows that say nothing about the reset set nothing; rows that hold queue what will let go. */
  predicate Sound(r: Row) {
    && (r.reset.None? ==> r.keys == [])
    && (r.reset == Some(false) ==> r.inserts != [] && forall x :: x in r.inserts ==> Handled(x))
    && (forall w, x :: w in r.words && x in r.inserts ==> Rank(x) < Rank(w))
  }

  predicate Numeral(c: char) {
    '0' <= c <= '9'
  }

  /** No name of the macro ends in a digit, and its steps have at most two. */
  predicate WellNamed(m: Macro) {
    && m.stem != [] && !Numeral(m.stem[|m.stem| - 1]) && |m.steps| < 20
    && (forall w :: w in m.names ==> w != [] && !Numeral(w[|w| - 1]))
  }

  lemma StepNumber(m: Macro, k: nat)
    requires WellNamed(m) && 2 <= k < 20
    ensures Number(StepName(m, k)) == k && Rank(StepName(m, k)) == 20 - k
  {
    var w := StepName(m, k);
    if k < 10 {
      assert w == m.stem + [DigitChar(k)];
    } else {
      assert Decimal(k) == [DigitChar(1), DigitChar(k - 10)];
      assert w == m.stem + [DigitChar(1), DigitChar(k - 10)];
    }
    assert Numeral(w[|w| - 1]);
    assert w != "cap bounce" && w != "swim";
  }

  lemma {:induction false} InMacroTable(ms: seq<Macro>, r: Row)
    ensures r in MacroTable(ms) <==> exists m, k :: m in ms && 1 <= k <= |m.steps| && r == MacroRow(m, k)
  {
    hide MacroRow;
    if ms != [] {
      var before, m := ms[..|ms| - 1], ms[|ms| - 1];
      InMacroTable(before, r);
      if r in MacroRows(m) {
        var i :| 0 <= i < |m.steps| && MacroRows(m)[i] == r;
        assert m in ms && r == MacroRow(m, i + 1);
      }
      if m', k :| m' in ms && 1 <= k <= |m'.steps| && r == MacroRow(m', k) {
        if m' !in before {
          assert m' == m && MacroRows(m)[k - 1] == r;
        }
      }
    }
  }

  /** The rows of a macro whose rows are in the table. */
  lemma MacroSound(m: Macro, k: nat)
    requires WellNamed(m) && 1 <= k <= |m.steps|
    requires forall j :: 1 <= j <= |m.steps| ==> MacroRow(m, j) in Table()
    ensures Sound(MacroRow(m, k))
  {
    hide Table, StepName, Rank, Number, Handled;
    var r := MacroRow(m, k);
    if k < |m.steps| {
      var x := StepName(m, k + 1);
      StepNumber(m, k + 1);
      StepHandled(m, k + 1);
      forall w | w in r.words
        ensures Rank(x) < Rank(w)
      {
        if k == 1 {
          PlainRank(w);
        } else {
          StepNumber(m, k);
        }
      }
    }
  }

  lemma StepHandled(m: Macro, k: nat)
    requires 2 <= k <= |m.steps| && MacroRow(m, k) in Table()
    ensures Handled(StepName(m, k))
  {
    hide Table, StepName;
    assert StepName(m, k) in MacroRow(m, k).words;
  }

  lemma PlainRank(w: string)
    requires w != [] && !Numeral(w[|w| - 1])
    ensures Rank(w) >= 19
  {
  }

  lemma JumpsNamed(m: Macro)
    requires m in Jumps()
    ensures WellNamed(m) && m.stem != "jump back" && "jump back" !in m.names
  {
  }

  lemma DivesNamed(m: Macro)
    requires m in Dives()
    ensures WellNamed(m) && m.stem != "jump back" && "jump back" !in m.names
  {
  }

  lemma FlipsNamed(m: Macro)
    requires m in Flips()
    ensures WellNamed(m) && m.stem != "jump back"
  {
  }

  lemma FlipsNames(m: Macro)
    requires m in Flips()
    ensures "jump back" !in m.names
  {
  }

  lemma PoundsNamed(m: Macro)
    requires m in Pounds()
    ensures WellNamed(m) && m.stem != "jump back" && "jump back" !in m.names
  {
  }

  lemma SpinNamed(m: Macro)
    requires m in Spin()
    ensures WellNamed(m) && m.stem != "jump back" && "jump back" !in m.names
  {
  }

  /** All macros of the chain. */
  predicate IsMacro(m: Macro) {
    m in Jumps() || m in Dives() || m in Flips() || m in Pounds() || m in Spin()
  }

  lemma MacroNamed(m: Macro)
    requires IsMacro(m)
    ensures WellNamed(m) && m.stem != "jump back" && "jump back" !in m.names
  {
    hide Jumps, Dives, Flips, Pounds, Spin, WellNamed;
    if m in Jumps() {
      JumpsNamed(m);
    } else if m in Dives() {
      DivesNamed(m);
    } else if m in Flips() {
      FlipsNamed(m);
      FlipsNames(m);
    } else if m in Pounds() {
      PoundsNamed(m);
    } else {
      SpinNamed(m);
    }
  }

  lemma MacroInTable(m: Macro, k: nat)
    requires IsMacro(m) && 1 <= k <= |m.steps|
    ensures MacroRow(m, k) in Table()
  {
    hide Jumps, Dives, Flips, Pounds, Spin, MacroTable, TapRows, Others, MacroRow;
    var r := MacroRow(m, k);
    InMacroTable(Jumps(), r);
    InMacroTable(Dives(), r);
    InMacroTable(Flips(), r);
    InMacroTable(Pounds(), r);
    InMacroTable(Spin(), r);
  }

  /** A row of the table is a tap, a step of a macro, or one of the others. */
  lemma KindsOfRow(r: Row)
    requires r in Table()
    ensures || (r.inserts == [] && r.reset == Some(true))
            || (exists m, k :: IsMacro(m) && 1 <= k <= |m.steps| && r == MacroRow(m, k))
            || r in Others()
  {
    hide Jumps, Dives, Flips, Pounds, Spin, MacroTable, Taps, Sprints, Others, MacroRow;
    InMacroTable(Jumps(), r);
    InMacroTable(Dives(), r);
    InMacroTable(Flips(), r);
    InMacroTable(Pounds(), r);
    InMacroTable(Spin(), r);
    if r in MacroTable(Jumps()) {
      var m, k :| m in Jumps() && 1 <= k <= |m.steps| && r == MacroRow(m, k);
      assert IsMacro(m);
    } else if r in MacroTable(Dives()) {
      var m, k :| m in Dives() && 1 <= k <= |m.steps| && r == MacroRow(m, k);
      assert IsMacro(m);
    } else if r in MacroTable(Flips()) {
      var m, k :| m in Flips() && 1 <= k <= |m.steps| && r == MacroRow(m, k);
      assert IsMacro(m);
    } else if r in MacroTable(Pounds()) {
      var m, k :| m in Pounds() && 1 <= k <= |m.steps| && r == MacroRow(m, k);
      assert IsMacro(m);
    } else if r in MacroTable(Spin()) {
      var m, k :| m in Spin() && 1 <= k <= |m.steps| && r == MacroRow(m, k);
      assert IsMacro(m);
    }
  }

  lemma ForwardHandled()
    ensures Handled("jump forward2")
  {
    hide Table, Handled;
    var m := Jumps()[1];
    assert m.stem == "jump forward" && |m.steps| == 2;
    assert Decimal(2) == ['2'] && StepName(m, 2) == "jump forward2";
    MacroInTable(m, 2);
    StepHandled(m, 2);
  }

  lemma OthersSound(r: Row)
    requires r in Others()
    ensures Sound(r)
  {
    hide Handled;
    ForwardHandled();
  }

  lemma RowSound(r: Row)
    requires r in Table()
    ensures Sound(r)
  {
    hide Table, Handled, Others, WellNamed, IsMacro, Rank;
    KindsOfRow(r);
    if r in Others() {
      OthersSound(r);
    } else if m, k :| IsMacro(m) && 1 <= k <= |m.steps| && r == MacroRow(m, k) {
      MacroNamed(m);
      forall j | 1 <= j <= |m.steps|
        ensures MacroRow(m, j) in Table()
      {
        MacroInTable(m, j);
      }
      MacroSound(m, k);
    }
  }

  // ---- What holds of every word -----------------------------------------------

  /** Insertion goes down in rank, whatever the word. */
  lemma InsertsLower(w: string)
    ensures forall x :: x in Inserts(w) ==> Rank(x) < Rank(w)
  {
    hide Table, Chain, Rank, Handled;
    forall x | x in Inserts(w)
      ensures Rank(x) < Rank(w)
    {
      ChainInserts(Table(), w, x);
      var r :| r in Table() && w in r.words && x in r.inserts;
      RowSound(r);
    }
  }

  /** A continuation, when its turn comes, settles the reset. */
  lemma ContinuationSettles(w: string)
    requires Continuation(w)
    ensures EffectOf(w).reset.Some?
  {
    hide Table, Chain, Rank;
    var r :| r in Table() && r.reset == Some(false) && w in r.inserts;
    RowSound(r);
    var q :| q in Table() && w in q.words && q.reset.Some?;
    ChainHas(Table(), w, q);
  }

  /**
   Every word whatever, chords included: if it does not reset, it either leaves a
   continuation behind or sets nothing and is no continuation itself.
   */
  lemma NotResetting(w: string, lockon: bool)
    requires !Resets(w, !lockon)
    ensures (exists x :: x in Inserts(w) && Continuation(x)) || (Keys(w) == [] && !Continuation(w))
  {
    hide Table, Chain, Rank, Handled, ChordKeys, Split;
    var e := Chain(Table(), w);
    if e.reset.Some? {
      ChainReset(Table(), w);
      var r :| r in Table() && w in r.words && r.reset == e.reset;
      RowSound(r);
      ChainHas(Table(), w, r);
      assert r.inserts[0] in r.inserts;
      assert Continuation(r.inserts[0]);
    } else {
      if Continuation(w) {
        ContinuationSettles(w);
        assert false;
      }
      if e.keys != [] {
        SilentSetsNothing(w);
        assert false;
      }
    }
  }

  lemma SilentSetsNothing(w: string)
    requires Chain(Table(), w).reset.None?
    ensures Chain(Table(), w).keys == []
  {
    hide Table, Chain, Rank, Handled;
    var e := Chain(Table(), w);
    if e.keys != [] {
      var k := e.keys[0];
      ChainKeys(Table(), w, k);
      var r :| r in Table() && w in r.words && k in r.keys;
      RowSound(r);
      ChainHas(Table(), w, r);
      assert false;
    }
  }

  /** A chord never holds minus: its name has lost the `s` before it is looked up. */
  lemma ChordsNeverMinus(w: string)
    ensures Hold(Minus) !in ChordKeys(Split(w))
  {
    hide Split;
    PartsNeverMinus(Split(w));
  }

  lemma {:induction false} PartsNeverMinus(parts: seq<string>)
    ensures Hold(Minus) !in ChordKeys(parts)
  {
    if parts != [] {
      hide Chain;
      PartsNeverMinus(parts[..|parts| - 1]);
      NameHasNoS(parts[|parts| - 1]);
      NameNeverMinus(ButtonName(parts[|parts| - 1]));
    }
  }

  lemma NameHasNoS(part: string)
    ensures 's' !in ButtonName(part)
  {
    hide Without, Trim;
    var v := Without(Trim(part), 's');
    assert 's' !in v;
    assert forall c :: c in Without(v, 'h') ==> c in v;
  }

  lemma NameNeverMinus(name: string)
    requires 's' !in name
    ensures Hold(Minus) !in Chain(TapRows(Chords()), name).keys
  {
    hide Chain, Chords;
    assert 's' in "minus" by {
      assert "minus"[4] == 's';
    }
    if Hold(Minus) in Chain(TapRows(Chords()), name).keys {
      ChainKeys(TapRows(Chords()), name, Hold(Minus));
      var r :| r in TapRows(Chords()) && name in r.words && Hold(Minus) in r.keys;
      var i :| 0 <= i < |Chords()| && r == TapRow(Chords()[i]);
      MinusChord(i);
      assert false;
    }
  }

  lemma MinusChord(i: nat)
    requires i < |Chords()| && Hold(Minus) in Chords()[i].1
    ensures Chords()[i].0 == ["minus"]
  {
    assert i == 20;
  }

  /** The chain over two tables is the one over the first, then the one over the second. */
  lemma {:induction false} ChainAppend(a: seq<Row>, b: seq<Row>, w: string)
    ensures Chain(a + b, w).inserts == Chain(a, w).inserts + Chain(b, w).inserts
    ensures Chain(a + b, w).keys == Chain(a, w).keys + Chain(b, w).keys
    decreases b
  {
    if b == [] {
      assert a + b == a;
    } else {
      var k := |b| - 1;
      ChainAppend(a, b[..k], w);
      ChainSnoc(a + b[..k], b[k], w);
      assert a + b == (a + b[..k]) + [b[k]];
      Assoc(Chain(a, w).inserts, Chain(b[..k], w).inserts, b[k].inserts);
      Assoc(Chain(a, w).keys, Chain(b[..k], w).keys, b[k].keys);
    }
  }

  lemma {:induction false} QuietRows(rows: seq<Row>, w: string)
    requires forall r :: r in rows && w in r.words ==> r.inserts == []
    ensures Chain(rows, w).inserts == []
  {
    if rows != [] {
      QuietRows(rows[..|rows| - 1], w);
      assert rows[|rows| - 1] in rows;
    }
  }

  lemma QuietTaps(taps: seq<(seq<string>, seq<Key>)>, w: string)
    ensures Chain(TapRows(taps), w).inserts == []
  {
    hide Chain;
    QuietRows(TapRows(taps), w);
  }

  lemma QuietMacros(ms: seq<Macro>)
    requires forall m :: m in ms ==> IsMacro(m)
    ensures Chain(MacroTable(ms), "jump back").inserts == []
  {
    hide Chain, IsMacro, WellNamed, MacroTable;
    forall r | r in MacroTable(ms)
      ensures "jump back" !in r.words
    {
      InMacroTable(ms, r);
      var m, k :| m in ms && 1 <= k <= |m.steps| && r == MacroRow(m, k);
      MacroNamed(m);
      if k > 1 {
        StepIsNotPlain(m, k);
      }
    }
    QuietRows(MacroTable(ms), "jump back");
  }

  lemma StepIsNotPlain(m: Macro, k: nat)
    requires WellNamed(m) && 2 <= k <= |m.steps|
    ensures StepName(m, k) != "jump back"
  {
    StepNumber(m, k);
    assert Number("jump back") == 1;
  }

  lemma OthersInsert()
    ensures Chain(Others(), "jump back").inserts == ["jump forward2"]
  {
    var rows := Others();
    assert rows[..3][..2][..1][..0] == [];
    assert Chain(rows[..1], "jump back").inserts == ["jump forward2"] by {
      assert rows[..1] == [rows[0]];
      assert [rows[0]][..0] == [];
      assert [] + ["jump forward2"] == ["jump forward2"];
    }
    assert rows[..2][..1] == rows[..1] && rows[..3][..2] == rows[..2] && rows[..4] == rows;
  }

  /** Jumping back queues the second step of jumping forward, and nothing else. */
  lemma JumpBackGoesForward()
    ensures Inserts("jump back") == ["jump forward2"]
  {
    hide Chain, Taps, Sprints, Jumps, Dives, Flips, Pounds, Spin, TapRows, MacroTable, Others;
    var w := "jump back";
    var a := TapRows(Taps());
    var b := a + MacroTable(Jumps());
    var c := b + Others();
    var d := c + MacroTable(Dives());
    var e := d + MacroTable(Flips());
    var f := e + MacroTable(Pounds());
    var g := f + TapRows(Sprints());
    assert Table() == g + MacroTable(Spin());
    ChainAppend(a, MacroTable(Jumps()), w);
    ChainAppend(b, Others(), w);
    ChainAppend(c, MacroTable(Dives()), w);
    ChainAppend(d, MacroTable(Flips()), w);
    ChainAppend(e, MacroTable(Pounds()), w);
    ChainAppend(f, TapRows(Sprints()), w);
    ChainAppend(g, MacroTable(Spin()), w);
    QuietTaps(Taps(), w);
    QuietTaps(Sprints(), w);
    QuietMacros(Jumps());
    QuietMacros(Dives());
    QuietMacros(Flips());
    QuietMacros(Pounds());
    QuietMacros(Spin());
    OthersInsert();
  }

  /** No word queues its own second step. */
  lemma NothingQueuesJumpBack2(w: string)
    ensures "jump back2" !in Inserts(w)
  {
    hide Table, Chain;
    if "jump back2" in Inserts(w) {
      ChainInserts(Table(), w, "jump back2");
      var r :| r in Table() && w in r.words && "jump back2" in r.inserts;
      NoRowQueuesJumpBack2(r);
      assert false;
    }
  }

  lemma NoRowQueuesJumpBack2(r: Row)
    requires r in Table()
    ensures "jump back2" !in r.inserts
  {
    hide Table, IsMacro, Others;
    KindsOfRow(r);
    if r in Others() {
      OthersQueue(r);
    } else if m, k :| IsMacro(m) && 1 <= k <= |m.steps| && r == MacroRow(m, k) {
      MacroNamed(m);
      if k < |m.steps| {
        StepIsNotJumpBack2(m, k + 1);
      }
    }
  }

  lemma OthersQueue(r: Row)
    requires r in Others()
    ensures "jump back2" !in r.inserts
  {
  }

  lemma StepIsNotJumpBack2(m: Macro, k: nat)
    requires WellNamed(m) && m.stem != "jump back" && 2 <= k < 20
    ensures StepName(m, k) != "jump back2"
  {
    var w := StepName(m, k);
    StepNumber(m, k);
    assert Number("jump back2") == 2;
    if k == 2 {
      assert w[..|w| - 1] == m.stem;
      assert "jump back2"[..9] == "jump back";
    }
  }
}
