/**
 What chat words and chords press: the table of single words against the names of its
 buttons and ways, and chords against the words they are made of.
 */
module ChatWords {
  import opened Basics
  import opened Commands
  import opened Controller

  // ---- Taking a chord apart ---------------------------------------------------

  /** Words with plus signs between them. */
  function Join(parts: seq<string>): string
    requires parts != []
  {
    if |parts| == 1 then parts[0] else Join(parts[..|parts| - 1]) + "+" + parts[|parts| - 1]
  }

  /** The parts with `t` added to the last. */
  function Grown(parts: seq<string>, t: string): (r: seq<string>)
    requires parts != []
    ensures |r| == |parts|
  {
    parts[|parts| - 1 := parts[|parts| - 1] + t]
  }

  lemma SplitSnoc(w: string, c: char)
    ensures Split(w + [c]) == if c == '+' then Split(w) + [[]] else Grown(Split(w), [c])
  {
    assert (w + [c])[..|w|] == w;
  }

  lemma GrownNothing(parts: seq<string>)
    requires parts != []
    ensures Grown(parts, []) == parts
  {
    assert parts[|parts| - 1] + [] == parts[|parts| - 1];
  }

  lemma GrownTwice(parts: seq<string>, t: string, u: string)
    requires parts != []
    ensures Grown(Grown(parts, t), u) == Grown(parts, t + u)
  {
    Assoc(parts[|parts| - 1], t, u);
  }

  /** Characters without a plus sign go on with the last part. */
  lemma {:induction false} SplitOn(w: string, t: string)
    requires '+' !in t
    ensures Split(w + t) == Grown(Split(w), t)
    decreases |t|
  {
    hide Split, Grown;
    if t == [] {
      assert w + t == w;
      GrownNothing(Split(w));
    } else {
      var t', c := t[..|t| - 1], t[|t| - 1];
      SplitOn(w, t');
      assert w + t == (w + t') + [c] && t == t' + [c];
      SplitSnoc(w + t', c);
      GrownTwice(Split(w), t', [c]);
    }
  }

  /** Splitting gives back any parts that have no plus sign themselves. */
  lemma {:induction false} SplitJoin(parts: seq<string>)
    requires parts != [] && forall p :: p in parts ==> '+' !in p
    ensures Split(Join(parts)) == parts
    decreases |parts|
  {
    hide Split;
    var front, p := parts[..|parts| - 1], parts[|parts| - 1];
    if |parts| == 1 {
      SplitNothing();
      SplitOn([], p);
      assert [] + p == p;
    } else {
      SplitJoin(front);
      SplitSnoc(Join(front), '+');
      SplitOn(Join(front) + "+", p);
      assert [] + p == p;
    }
  }

  lemma SplitNothing()
    ensures Split([]) == [[]]
  {
  }

  /** Joining the parts of any word gives it back. */
  lemma {:induction false} JoinSplit(w: string)
    ensures Join(Split(w)) == w
  {
    if w != [] {
      var c, parts := w[|w| - 1], Split(w[..|w| - 1]);
      JoinSplit(w[..|w| - 1]);
      assert w == w[..|w| - 1] + [c];
      JoinGrows(parts, c);
    }
  }

  lemma JoinGrows(parts: seq<string>, c: char)
    requires parts != []
    ensures Join(parts + [[]]) == Join(parts) + "+"
    ensures Join(Grown(parts, [c])) == Join(parts) + [c]
  {
    assert (parts + [[]])[..|parts|] == parts && Join(parts) + "+" + [] == Join(parts) + "+";
    if |parts| > 1 {
      var front := parts[..|parts| - 1];
      assert Grown(parts, [c])[..|parts| - 1] == front;
      Assoc(Join(front) + "+", parts[|parts| - 1], [c]);
    }
  }

  /** No part of a word has a plus sign. */
  lemma {:induction false} PartsPlain(w: string)
    ensures forall p :: p in Split(w) ==> '+' !in p
  {
    if w != [] {
      PartsPlain(w[..|w| - 1]);
    }
  }

  // ---- Blanks and added letters -----------------------------------------------

  predicate Blanks(w: string) {
    forall i :: 0 <= i < |w| ==> IsSpace(w[i])
  }

  /** No blank at either end. */
  predicate Tight(w: string) {
    w != [] && !IsSpace(w[0]) && !IsSpace(w[|w| - 1])
  }

  lemma TrimFirst(w: string)
    requires w != [] && IsSpace(w[0])
    ensures Trim(w) == Trim(w[1..])
  {
  }

  lemma TrimLast(w: string)
    requires w != [] && !IsSpace(w[0]) && IsSpace(w[|w| - 1])
    ensures Trim(w) == Trim(w[..|w| - 1])
  {
  }

  lemma {:induction false} TrimPadded(before: string, w: string, after: string)
    requires Blanks(before) && Tight(w) && Blanks(after)
    ensures Trim(before + w + after) == w
    decreases |before| + |after|
  {
    hide IsSpace;
    var t := before + w + after;
    if before != [] {
      hide Trim;
      TrimPadded(before[1..], w, after);
      assert t[1..] == before[1..] + w + after && t[0] == before[0];
      TrimFirst(t);
    } else if after != [] {
      hide Trim;
      var after' := after[..|after| - 1];
      TrimPadded(before, w, after');
      assert t[..|t| - 1] == before + w + after' && t[|t| - 1] == after[|after| - 1] && t[0] == w[0];
      TrimLast(t);
    } else {
      assert t == w;
    }
  }

  /** `v` is `w` with any letters `s` and `h` put in anywhere. */
  predicate Adds(v: string, w: string) {
    if v == [] then w == []
    else
      var v', c := v[..|v| - 1], v[|v| - 1];
      ((c == 's' || c == 'h') && Adds(v', w)) || (w != [] && c == w[|w| - 1] && Adds(v', w[..|w| - 1]))
  }

  lemma WithoutSnoc(w: string, c: char, x: char)
    ensures Without(w + [c], x) == Without(w, x) + (if c == x then [] else [c])
  {
    assert (w + [c])[..|w|] == w;
  }

  lemma BareSnoc(w: string, c: char)
    ensures Bare(w + [c]) == Bare(w) + (if c == 's' || c == 'h' then [] else [c])
  {
    hide Without;
    WithoutSnoc(w, c, 's');
    if c == 's' {
      assert Without(w, 's') + [] == Without(w, 's');
      assert Bare(w) + [] == Bare(w);
    } else {
      WithoutSnoc(Without(w, 's'), c, 'h');
    }
  }

  /** The last letter is added, or is that of the word. */
  lemma AddsLast(v: string, w: string)
    requires Adds(v, w) && v != []
    ensures var v', c := v[..|v| - 1], v[|v| - 1];
            && v == v' + [c]
            && (|| ((c == 's' || c == 'h') && Adds(v', w))
                || (w != [] && c == w[|w| - 1] && w == w[..|w| - 1] + [c] && Adds(v', w[..|w| - 1])))
  {
  }

  /** Added letters are lost again. */
  lemma {:induction false} AddsBare(v: string, w: string)
    requires Adds(v, w)
    ensures Bare(v) == Bare(w)
    decreases |v|
  {
    hide Bare, Adds;
    if v == [] {
      AddsNothing(w);
    } else {
      var v', c := v[..|v| - 1], v[|v| - 1];
      AddsLast(v, w);
      BareSnoc(v', c);
      if (c == 's' || c == 'h') && Adds(v', w) {
        AddsBare(v', w);
      } else {
        AddsBare(v', w[..|w| - 1]);
        BareSnoc(w[..|w| - 1], c);
      }
    }
  }

  lemma AddsNothing(w: string)
    requires Adds([], w)
    ensures w == []
  {
  }

  /** Adding letters brings in nothing but `s` and `h`. */
  lemma {:induction false} AddsLetters(v: string, w: string)
    requires Adds(v, w)
    ensures |w| <= |v| && forall i :: 0 <= i < |v| ==> v[i] == 's' || v[i] == 'h' || v[i] in w
    decreases |v|
  {
    if v != [] {
      var v', c := v[..|v| - 1], v[|v| - 1];
      if (c == 's' || c == 'h') && Adds(v', w) {
        AddsLetters(v', w);
      } else {
        AddsLetters(v', w[..|w| - 1]);
        assert c in w;
      }
    }
  }

  /** A word between blanks, as a host of the chat may write it. */
  predicate Padded(part: string, before: string, v: string, after: string) {
    part == before + v + after && Blanks(before) && Blanks(after)
  }

  ghost predicate Variant(part: string, w: string) {
    exists before, v, after :: Padded(part, before, v, after) && Adds(v, w)
  }

  lemma {:induction false} AddsTight(v: string, w: string)
    requires Adds(v, w) && Tight(w)
    ensures Tight(v)
    decreases |v|
  {
    AddsLetters(v, w);
    var v', c := v[..|v| - 1], v[|v| - 1];
    if (c == 's' || c == 'h') && Adds(v', w) {
      AddsTight(v', w);
      assert v[0] == v'[0];
    } else {
      FirstLetter(v, w);
    }
  }

  /** A word with added letters begins with one of them or as the word does. */
  lemma {:induction false} FirstLetter(v: string, w: string)
    requires Adds(v, w) && w != []
    ensures v != [] && (v[0] == 's' || v[0] == 'h' || v[0] == w[0])
    decreases |v|
  {
    AddsLetters(v, w);
    var v', c := v[..|v| - 1], v[|v| - 1];
    if (c == 's' || c == 'h') && Adds(v', w) {
      FirstLetter(v', w);
      assert v[0] == v'[0];
    } else if |w| > 1 {
      FirstLetter(v', w[..|w| - 1]);
      assert v[0] == v'[0];
    } else {
      AddedOnly(v', w[..|w| - 1]);
    }
  }

  lemma AddedOnly(v: string, w: string)
    requires Adds(v, w) && w == []
    ensures v != [] ==> v[0] == 's' || v[0] == 'h'
  {
    AddsLetters(v, w);
  }

  /** However it is written, the chord looks up the bare name of the word. */
  lemma VariantNamed(part: string, w: string)
    requires Variant(part, w) && Tight(w) && '+' !in w
    ensures ButtonName(part) == Bare(w) && '+' !in part
  {
    hide Adds, Bare, Trim, Tight;
    var before, v, after :| Padded(part, before, v, after) && Adds(v, w);
    AddsTight(v, w);
    TrimPadded(before, v, after);
    AddsBare(v, w);
    AddsLetters(v, w);
    forall i | 0 <= i < |part| ensures part[i] != '+' {
      if |before| <= i < |before| + |v| {
        assert part[i] == v[i - |before|];
      } else {
        assert IsSpace(part[i]);
      }
    }
  }

  // ---- The words that a chord knows -------------------------------------------

  /** The plain words behind the names of the chord table, in its order. */
  function PlainWords(): (ws: seq<string>)
    ensures |ws| == 20
  {
    [
      "left", "right", "up", "down", "dleft", "dright", "dup", "ddown",
      "look left", "look right", "look up", "look down", "a", "b", "x", "y", "l", "r", "zl", "zr"
    ]
  }

  /** The names of the chord table, less minus. */
  function BareWords(): (ws: seq<string>)
    ensures |ws| == 20
  {
    [
      "left", "rigt", "up", "down", "dleft", "drigt", "dup", "ddown",
      "look left", "look rigt", "look up", "look down", "a", "b", "x", "y", "l", "r", "zl", "zr"
    ]
  }

  function Letter(w: string, i: nat): char {
    if i < |w| then w[i] else ' '
  }

  /** Enough letters to tell the words of the tables apart. */
  lemma Letters(w: string)
    ensures |w| > 0 ==> Letter(w, 0) == w[0]
    ensures |w| > 1 ==> Letter(w, 1) == w[1]
    ensures |w| > 2 ==> Letter(w, 2) == w[2]
    ensures |w| > 5 ==> Letter(w, 5) == w[5]
  {
  }

  lemma SlowMatches(w: string, k: nat, i: nat)
    requires k < |PlainWords()| && w == PlainWords()[k] && i < |SlowSticks()|
    ensures w !in SlowSticks()[i].0
  {
    Letters(w);
  }

  lemma HeldMatches(w: string, k: nat, i: nat)
    requires k < |PlainWords()| && w == PlainWords()[k] && i < |HeldSticks()|
    ensures w in HeldSticks()[i].0 <==> i == k < 4 || (k == 16 && i == 0) || (k == 17 && i == 1)
  {
    Letters(w);
  }

  lemma PadMatches(w: string, k: nat, i: nat)
    requires k < |PlainWords()| && w == PlainWords()[k] && i < |Pads()|
    ensures w in Pads()[i].0 <==> 4 <= k == i + 4 < 8
  {
    Letters(w);
  }

  lemma LookMatches(w: string, k: nat, i: nat)
    requires k < |PlainWords()| && w == PlainWords()[k] && i < |Looks()|
    ensures w in Looks()[i].0 <==> 8 <= k == i + 4 < 12
  {
    Letters(w);
  }

  lemma PressMatches(w: string, k: nat, i: nat)
    requires k < |PlainWords()| && w == PlainWords()[k] && i < |Presses()|
    ensures w in Presses()[i].0 <==>
              || (k == 12 && i == 0) || (k == 13 && i == 3) || (k == 14 && i == 7) || (k == 15 && i == 9)
              || (k == 16 && i == 13) || (k == 17 && i == 14) || (k == 18 && i == 16) || (k == 19 && i == 17)
  {
    Letters(w);
  }

  lemma ChordMatches(w: string, k: nat, i: nat)
    requires k < |BareWords()| && w == BareWords()[k] && i < |Chords()|
    ensures w in Chords()[i].0 <==> i == k
  {
    hide Chords, BareWords;
    if k < 12 {
      ChordWays(w, k, i);
    } else {
      ChordButtons(w, k, i);
    }
  }

  lemma ChordWays(w: string, k: nat, i: nat)
    requires k < 12 && w == BareWords()[k] && i < |Chords()|
    ensures w in Chords()[i].0 <==> i == k
  {
    Letters(w);
  }

  lemma ChordButtons(w: string, k: nat, i: nat)
    requires 12 <= k < |BareWords()| && w == BareWords()[k] && i < |Chords()|
    ensures w in Chords()[i].0 <==> i == k
  {
    Letters(w);
  }

  // ---- What a plain word presses ----------------------------------------------

  lemma {:induction false} NoRow(rows: seq<Row>, w: string)
    requires forall r :: r in rows ==> w !in r.words
    ensures Chain(rows, w) == NO_EFFECT
  {
    if rows != [] {
      NoRow(rows[..|rows| - 1], w);
      assert rows[|rows| - 1] in rows;
    }
  }

  lemma NoTap(taps: seq<(seq<string>, seq<Key>)>, w: string)
    requires forall i :: 0 <= i < |taps| ==> w !in taps[i].0
    ensures Chain(TapRows(taps), w) == NO_EFFECT
  {
    hide Chain;
    NoRow(TapRows(taps), w);
  }

  /** A word that is in one row only presses the keys of that row. */
  lemma {:induction false} OneTap(taps: seq<(seq<string>, seq<Key>)>, w: string, k: nat)
    requires k < |taps| && forall i :: 0 <= i < |taps| ==> (w in taps[i].0 <==> i == k)
    ensures Chain(TapRows(taps), w).keys == taps[k].1
    decreases |taps|
  {
    hide Chain;
    var front, last := taps[..|taps| - 1], taps[|taps| - 1];
    assert TapRows(taps) == TapRows(front) + [TapRow(last)];
    ChainSnoc(TapRows(front), TapRow(last), w);
    if k == |taps| - 1 {
      NoTap(front, w);
      assert [] + last.1 == last.1;
    } else {
      OneTap(front, w, k);
    }
  }

  lemma TapsAppend(a: seq<(seq<string>, seq<Key>)>, b: seq<(seq<string>, seq<Key>)>, w: string)
    ensures Chain(TapRows(a + b), w).keys == Chain(TapRows(a), w).keys + Chain(TapRows(b), w).keys
  {
    hide Chain;
    assert TapRows(a + b) == TapRows(a) + TapRows(b);
    ChainAppend(TapRows(a), TapRows(b), w);
  }

  /** What the stick does for the words `l` and `r`, which are in the table twice. */
  function StickToo(k: nat): seq<Key> {
    if k == 16 then [LX(STICK_MIN)] else if k == 17 then [LX(STICK_MAX)] else []
  }

  /** Where a plain word for a button stands in the table. */
  function PressAt(k: nat): nat
    requires 12 <= k < 20
  {
    [0, 3, 7, 9, 13, 14, 16, 17][k - 12]
  }

  function HeldPart(k: nat): seq<Key> {
    if k < 4 then HeldSticks()[k].1 else StickToo(k)
  }

  function PadPart(k: nat): seq<Key> {
    if 4 <= k < 8 then Pads()[k - 4].1 else []
  }

  function LookPart(k: nat): seq<Key> {
    if 8 <= k < 12 then Looks()[k - 4].1 else []
  }

  function PressPart(k: nat): seq<Key> {
    if 12 <= k < 20 then Presses()[PressAt(k)].1 else []
  }

  lemma WaysAgree(k: nat)
    requires k < 12
    ensures HeldPart(k) + PadPart(k) + LookPart(k) == Chords()[k].1
  {
  }

  lemma ButtonsAgree(k: nat)
    requires 12 <= k < 20
    ensures PressPart(k) == Chords()[k].1
  {
  }

  /** The rows for single words press what the chord table says, and for `l` and `r` the stick too. */
  lemma PartsAgree(k: nat)
    requires k < 20
    ensures [] + HeldPart(k) + PadPart(k) + LookPart(k) + PressPart(k) == StickToo(k) + Chords()[k].1
  {
    hide Chords, HeldSticks, Pads, Looks, Presses;
    if k < 12 {
      WaysAgree(k);
    } else {
      ButtonsAgree(k);
    }
  }

  lemma HeldKeys(w: string, k: nat)
    requires k < |PlainWords()| && w == PlainWords()[k]
    ensures Chain(TapRows(HeldSticks()), w).keys == HeldPart(k)
  {
    hide Chain, PlainWords;
    forall i | 0 <= i < |HeldSticks()|
      ensures w in HeldSticks()[i].0 <==> i == k < 4 || (k == 16 && i == 0) || (k == 17 && i == 1)
    {
      HeldMatches(w, k, i);
    }
    if k < 4 {
      OneTap(HeldSticks(), w, k);
    } else if k == 16 || k == 17 {
      OneTap(HeldSticks(), w, k - 16);
    } else {
      NoTap(HeldSticks(), w);
    }
  }

  lemma PadKeys(w: string, k: nat)
    requires k < |PlainWords()| && w == PlainWords()[k]
    ensures Chain(TapRows(Pads()), w).keys == PadPart(k)
  {
    hide Chain, PlainWords;
    forall i | 0 <= i < |Pads()| ensures w in Pads()[i].0 <==> 4 <= k == i + 4 < 8 {
      PadMatches(w, k, i);
    }
    if 4 <= k < 8 {
      OneTap(Pads(), w, k - 4);
    } else {
      NoTap(Pads(), w);
    }
  }

  lemma LookKeys(w: string, k: nat)
    requires k < |PlainWords()| && w == PlainWords()[k]
    ensures Chain(TapRows(Looks()), w).keys == LookPart(k)
  {
    hide Chain, PlainWords;
    forall i | 0 <= i < |Looks()| ensures w in Looks()[i].0 <==> 8 <= k == i + 4 < 12 {
      LookMatches(w, k, i);
    }
    if 8 <= k < 12 {
      OneTap(Looks(), w, k - 4);
    } else {
      NoTap(Looks(), w);
    }
  }

  lemma PressKeys(w: string, k: nat)
    requires k < |PlainWords()| && w == PlainWords()[k]
    ensures Chain(TapRows(Presses()), w).keys == PressPart(k)
  {
    hide Chain;
    forall i | 0 <= i < |Presses()| ensures w in Presses()[i].0 <==> 12 <= k && i == PressAt(k) {
      PressMatches(w, k, i);
    }
    if 12 <= k {
      OneTap(Presses(), w, PressAt(k));
    } else {
      NoTap(Presses(), w);
    }
  }

  lemma SlowKeys(w: string, k: nat)
    requires k < |PlainWords()| && w == PlainWords()[k]
    ensures Chain(TapRows(SlowSticks()), w).keys == []
  {
    hide Chain, PlainWords;
    forall i | 0 <= i < |SlowSticks()| ensures w !in SlowSticks()[i].0 {
      SlowMatches(w, k, i);
    }
    NoTap(SlowSticks(), w);
  }

  lemma TapKeys(w: string, k: nat)
    requires k < |PlainWords()| && w == PlainWords()[k]
    ensures Chain(TapRows(Taps()), w).keys == StickToo(k) + Chords()[k].1
  {
    hide Chain, TapRows, PlainWords, HeldPart, PadPart, LookPart, PressPart, StickToo, Chords,
      SlowSticks, HeldSticks, Pads, Looks, Presses;
    PartsAgree(k);
    SlowKeys(w, k);
    HeldKeys(w, k);
    PadKeys(w, k);
    LookKeys(w, k);
    PressKeys(w, k);
    TapsAppend(SlowSticks(), HeldSticks(), w);
    TapsAppend(SlowSticks() + HeldSticks(), Pads(), w);
    TapsAppend(SlowSticks() + HeldSticks() + Pads(), Looks(), w);
    TapsAppend(SlowSticks() + HeldSticks() + Pads() + Looks(), Presses(), w);
  }

  /** The rows of the table behind the taps. */
  function LaterRows(): seq<Row> {
    MacroTable(Jumps()) + Others() + MacroTable(Dives()) + MacroTable(Flips()) + MacroTable(Pounds()) +
    TapRows(Sprints()) + MacroTable(Spin())
  }

  lemma TapsFirst()
    ensures Table() == TapRows(Taps()) + LaterRows()
  {
    hide MacroTable, TapRows, Others, Taps, Sprints, Jumps, Dives, Flips, Pounds, Spin;
  }

  /** A later row is a step of a macro, a sprint or one of the others. */
  lemma KindsOfLaterRow(r: Row)
    requires r in LaterRows()
    ensures || (exists m, k :: IsMacro(m) && 1 <= k <= |m.steps| && r == MacroRow(m, k))
            || r in Others()
            || exists i :: 0 <= i < |Sprints()| && r == TapRow(Sprints()[i])
  {
    hide Jumps, Dives, Flips, Pounds, Spin, MacroTable, Sprints, Others, MacroRow, TapRow;
    InMacroTable(Jumps(), r);
    InMacroTable(Dives(), r);
    InMacroTable(Flips(), r);
    InMacroTable(Pounds(), r);
    InMacroTable(Spin(), r);
  }

  lemma PlainNoSprint(w: string, k: nat, i: nat)
    requires k < |PlainWords()| && w == PlainWords()[k] && i < |Sprints()|
    ensures w !in Sprints()[i].0
  {
    Letters(w);
  }

  lemma PlainNoOther(w: string, k: nat, r: Row)
    requires k < |PlainWords()| && w == PlainWords()[k] && r in Others()
    ensures w !in r.words
  {
    Letters(w);
  }

  lemma PlainNoMacro(w: string, k: nat, m: Macro)
    requires k < |PlainWords()| && w == PlainWords()[k] && IsMacro(m)
    ensures w !in m.names
  {
    Letters(w);
  }

  lemma PlainNoStep(w: string, k: nat, m: Macro, n: nat)
    requires k < |PlainWords()| && w == PlainWords()[k] && WellNamed(m) && 2 <= n < 20
    ensures w != StepName(m, n)
  {
    hide StepName, WellNamed, Rank, PlainWords;
    StepNumber(m, n);
    PlainNumber(w, k);
  }

  lemma PlainNumber(w: string, k: nat)
    requires k < |PlainWords()| && w == PlainWords()[k]
    ensures Number(w) == 1
  {
  }

  lemma PlainLater(w: string, k: nat)
    requires k < |PlainWords()| && w == PlainWords()[k]
    ensures Chain(LaterRows(), w) == NO_EFFECT
  {
    hide Chain, LaterRows, IsMacro, PlainWords, Others, Sprints, WellNamed;
    forall r | r in LaterRows() ensures w !in r.words {
      KindsOfLaterRow(r);
      if r in Others() {
        PlainNoOther(w, k, r);
      } else if m, n :| IsMacro(m) && 1 <= n <= |m.steps| && r == MacroRow(m, n) {
        MacroNamed(m);
        PlainNoMacro(w, k, m);
        if n > 1 {
          StepsFew(m);
          PlainNoStep(w, k, m, n);
        }
      } else {
        var i :| 0 <= i < |Sprints()| && r == TapRow(Sprints()[i]);
        PlainNoSprint(w, k, i);
      }
    }
    NoRow(LaterRows(), w);
  }

  lemma StepsFew(m: Macro)
    requires WellNamed(m)
    ensures |m.steps| < 20
  {
  }

  lemma PlainNoPlus(k: nat)
    requires k < |PlainWords()|
    ensures '+' !in PlainWords()[k] && Tight(PlainWords()[k])
  {
  }

  /** What a plain word presses by itself. */
  lemma PlainKeys(k: nat)
    requires k < |PlainWords()|
    ensures Keys(PlainWords()[k]) == StickToo(k) + Chords()[k].1
  {
    hide Chain, Table, LaterRows, Chords, StickToo, TapRows, Taps, PlainWords, ChordKeys, Tight, Split;
    var w := PlainWords()[k];
    TapsFirst();
    ChainAppend(TapRows(Taps()), LaterRows(), w);
    TapKeys(w, k);
    PlainLater(w, k);
    PlainNoPlus(k);
  }

  // ---- What a chord presses ---------------------------------------------------

  lemma {:induction false} BareFree(w: string)
    requires 's' !in w && 'h' !in w
    ensures Bare(w) == w
  {
    if w != [] {
      hide Bare;
      BareFree(w[..|w| - 1]);
      assert w == w[..|w| - 1] + [w[|w| - 1]];
      BareSnoc(w[..|w| - 1], w[|w| - 1]);
    }
  }

  lemma {:induction false} BareH(a: string, b: string)
    ensures Bare(a + "h" + b) == Bare(a + b)
    decreases |b|
  {
    hide Bare;
    if b == [] {
      assert a + "h" + b == a + "h" && a + b == a;
      BareSnoc(a, 'h');
    } else {
      var b', c := b[..|b| - 1], b[|b| - 1];
      BareH(a, b');
      assert a + "h" + b == (a + "h" + b') + [c] && a + b == (a + b') + [c];
      BareSnoc(a + "h" + b', c);
      BareSnoc(a + b', c);
    }
  }

  lemma NamesFree(k: nat)
    requires k < |BareWords()|
    ensures 's' !in BareWords()[k] && 'h' !in BareWords()[k]
  {
  }

  lemma NamesSame(k: nat)
    requires k < |BareWords()|
    ensures k != 1 && k != 5 && k != 9 ==> PlainWords()[k] == BareWords()[k]
  {
  }

  lemma BareOfPlain(k: nat)
    requires k < |PlainWords()|
    ensures Bare(PlainWords()[k]) == BareWords()[k]
  {
    hide Bare;
    NamesFree(k);
    NamesSame(k);
    BareFree(BareWords()[k]);
    if k == 1 {
      BareH("rig", "t");
      assert "rig" + "h" + "t" == "right" && "rig" + "t" == "rigt";
    } else if k == 5 {
      BareH("drig", "t");
      assert "drig" + "h" + "t" == "dright" && "drig" + "t" == "drigt";
    } else if k == 9 {
      BareH("look rig", "t");
      assert "look rig" + "h" + "t" == "look right" && "look rig" + "t" == "look rigt";
    }
  }

  /** Whatever blanks and letters are added, a plain word in a chord presses the keys of its name. */
  lemma PartKeys(part: string, k: nat)
    requires k < |PlainWords()| && Variant(part, PlainWords()[k])
    ensures Chain(TapRows(Chords()), ButtonName(part)).keys == Chords()[k].1 && '+' !in part
  {
    hide Chain, Variant, ButtonName, Bare, PlainWords, BareWords, Tight;
    PlainNoPlus(k);
    VariantNamed(part, PlainWords()[k]);
    BareOfPlain(k);
    var name := BareWords()[k];
    forall i | 0 <= i < |Chords()| ensures name in Chords()[i].0 <==> i == k {
      ChordMatches(name, k, i);
    }
    OneTap(Chords(), name, k);
  }

  // No single word has a plus sign.

  lemma StickWordsPlain(w: string, i: nat)
    requires i < 12 && (w in SlowSticks()[i].0 || w in HeldSticks()[i].0)
    ensures '+' !in w
  {
  }

  lemma PadWordsPlain(w: string, i: nat)
    requires (i < 4 && w in Pads()[i].0) || (i < 12 && w in Looks()[i].0)
    ensures '+' !in w
  {
  }

  lemma PressWordsPlain(w: string, i: nat)
    requires i < |Presses()| && w in Presses()[i].0
    ensures '+' !in w
  {
  }

  lemma TapWordsPlain(w: string, i: nat)
    requires i < |Taps()| && w in Taps()[i].0
    ensures '+' !in w
  {
    hide SlowSticks, HeldSticks, Pads, Looks, Presses;
    var n := |SlowSticks()|;
    assert n == 12 && |HeldSticks()| == 12 && |Pads()| == 4 && |Looks()| == 12 by { TapCounts(); }
    if i < 12 {
      StickWordsPlain(w, i);
    } else if i < 24 {
      StickWordsPlain(w, i - 12);
    } else if i < 28 {
      PadWordsPlain(w, i - 24);
    } else if i < 40 {
      PadWordsPlain(w, i - 28);
    } else {
      PressWordsPlain(w, i - 40);
    }
  }

  lemma TapCounts()
    ensures |SlowSticks()| == 12 && |HeldSticks()| == 12 && |Pads()| == 4 && |Looks()| == 12
  {
  }

  lemma SprintWordsPlain(w: string, i: nat)
    requires i < |Sprints()| && w in Sprints()[i].0
    ensures '+' !in w
  {
  }

  lemma OtherWordsPlain(w: string, r: Row)
    requires r in Others() && w in r.words
    ensures '+' !in w
  {
  }

  lemma JumpWordsPlain(w: string, m: Macro)
    requires (m in Jumps() || m in Dives()) && (w in m.names || w == m.stem)
    ensures '+' !in w
  {
  }

  lemma FlipWordsPlain(w: string, m: Macro)
    requires (m in Flips() || m in Pounds()) && (w in m.names || w == m.stem)
    ensures '+' !in w
  {
  }

  lemma SpinWordsPlain(w: string, m: Macro)
    requires m in Spin() && (w in m.names || w == m.stem)
    ensures '+' !in w
  {
  }

  lemma MacroWordsPlain(w: string, m: Macro)
    requires IsMacro(m) && (w in m.names || w == m.stem)
    ensures '+' !in w
  {
    hide Jumps, Dives, Flips, Pounds, Spin;
    if m in Jumps() || m in Dives() {
      JumpWordsPlain(w, m);
    } else if m in Spin() {
      SpinWordsPlain(w, m);
    } else {
      FlipWordsPlain(w, m);
    }
  }

  lemma StepWordsPlain(m: Macro, n: nat)
    requires '+' !in m.stem && 2 <= n < 20
    ensures '+' !in StepName(m, n)
  {
    if n < 10 {
      assert StepName(m, n) == m.stem + [DigitChar(n)];
    } else {
      assert Decimal(n) == [DigitChar(1), DigitChar(n - 10)];
    }
  }

  lemma LaterWordsPlain(w: string, r: Row)
    requires r in LaterRows() && w in r.words
    ensures '+' !in w
  {
    hide LaterRows, IsMacro, Others, Sprints, WellNamed, StepName;
    KindsOfLaterRow(r);
    if r in Others() {
      OtherWordsPlain(w, r);
    } else if m, n :| IsMacro(m) && 1 <= n <= |m.steps| && r == MacroRow(m, n) {
      if n > 1 {
        MacroNamed(m);
        StepsFew(m);
        MacroWordsPlain(m.stem, m);
        StepWordsPlain(m, n);
      } else {
        MacroWordsPlain(w, m);
      }
    } else {
      var i :| 0 <= i < |Sprints()| && r == TapRow(Sprints()[i]);
      SprintWordsPlain(w, i);
    }
  }

  /** So a word with a plus sign does nothing but its chord. */
  lemma PlusMatchesNothing(w: string)
    requires '+' in w
    ensures Chain(Table(), w) == NO_EFFECT
  {
    hide Chain, Table, LaterRows, Taps;
    TapsFirst();
    forall r | r in Table() ensures w !in r.words {
      if w in r.words {
        if r in LaterRows() {
          LaterWordsPlain(w, r);
        } else {
          var i :| 0 <= i < |Taps()| && r == TapRow(Taps()[i]);
          TapWordsPlain(w, i);
        }
        assert false;
      }
    }
    NoRow(Table(), w);
  }

  /** The keys of words one after the other. */
  function AllKeys(words: seq<string>): seq<Key> {
    if words == [] then [] else AllKeys(words[..|words| - 1]) + Keys(words[|words| - 1])
  }

  /** What a word presses as part of a chord: `l` and `r` are buttons there and do not move the stick. */
  function InChord(w: string): seq<Key> {
    if w == "l" then [Hold(L)] else if w == "r" then [Hold(R)] else Keys(w)
  }

  function AllInChord(words: seq<string>): seq<Key> {
    if words == [] then [] else AllInChord(words[..|words| - 1]) + InChord(words[|words| - 1])
  }

  lemma InChordKeys(k: nat)
    requires k < |PlainWords()|
    ensures InChord(PlainWords()[k]) == Chords()[k].1
    ensures Keys(PlainWords()[k]) == StickToo(k) + InChord(PlainWords()[k])
    ensures (PlainWords()[k] == "l" || PlainWords()[k] == "r") <==> k == 16 || k == 17
  {
    hide Keys;
    PlainKeys(k);
    PlainLR(PlainWords()[k], k);
  }

  lemma PlainLR(w: string, k: nat)
    requires k < |PlainWords()| && w == PlainWords()[k]
    ensures (w == "l" <==> k == 16) && (w == "r" <==> k == 17)
  {
    Letters(w);
  }

  /** Every part of a chord is a plain word with any blanks around it and any letters `s` and `h` added. */
  ghost predicate ChordOf(parts: seq<string>, words: seq<string>) {
    |parts| == |words| && forall i :: 0 <= i < |parts| ==> words[i] in PlainWords() && Variant(parts[i], words[i])
  }

  lemma PartInChord(part: string, w: string)
    requires w in PlainWords() && Variant(part, w)
    ensures Chain(TapRows(Chords()), ButtonName(part)).keys == InChord(w) && '+' !in part
  {
    hide Chain, Variant, ButtonName, TapRows, InChord, Chords;
    var k :| 0 <= k < |PlainWords()| && PlainWords()[k] == w;
    PartKeys(part, k);
    InChordKeys(k);
  }

  lemma {:induction false} PartsInChord(parts: seq<string>, words: seq<string>)
    requires ChordOf(parts, words)
    ensures ChordKeys(parts) == AllInChord(words) && forall p :: p in parts ==> '+' !in p
    decreases |parts|
  {
    hide Chain, Variant, ButtonName, TapRows, InChord, PlainWords, ChordKeys, AllInChord;
    if parts == [] {
      NoParts();
    } else {
      var n := |parts| - 1;
      PartsInChord(parts[..n], words[..n]);
      PartInChord(parts[n], words[n]);
      LastKeys(parts, n);
      LastWord(words, n);
      assert parts == parts[..n] + [parts[n]];
    }
  }

  lemma NoParts()
    ensures ChordKeys([]) == [] && AllInChord([]) == [] && AllKeys([]) == []
  {
  }

  lemma LastKeys(parts: seq<string>, n: nat)
    requires |parts| == n + 1
    ensures ChordKeys(parts) == ChordKeys(parts[..n]) + Chain(TapRows(Chords()), ButtonName(parts[n])).keys
  {
    hide Chain, TapRows, ButtonName, Chords;
  }

  lemma LastWord(words: seq<string>, n: nat)
    requires |words| == n + 1
    ensures AllInChord(words) == AllInChord(words[..n]) + InChord(words[n])
    ensures AllKeys(words) == AllKeys(words[..n]) + Keys(words[n])
  {
    hide InChord, Keys;
  }

  lemma JoinHasPlus(parts: seq<string>)
    requires |parts| >= 2
    ensures '+' in Join(parts)
  {
    assert Join(parts)[|Join(parts[..|parts| - 1])|] == '+';
  }

  /** A chord presses the keys of its words in order, queues nothing and resets. */
  lemma ChordIsItsWords(parts: seq<string>, words: seq<string>)
    requires ChordOf(parts, words) && |parts| >= 2
    ensures EffectOf(Join(parts)) == Effect(AllInChord(words), [], Some(true))
  {
    hide Chain, Table, ChordOf, ChordKeys, AllInChord, Split, Join;
    PartsInChord(parts, words);
    JoinHasPlus(parts);
    SplitJoin(parts);
    PlusMatchesNothing(Join(parts));
    assert [] + AllInChord(words) == AllInChord(words);
  }

  /** The words that are a direction and a button at once. */
  predicate Twofold(w: string) {
    w == "l" || w == "r"
  }

  /** Keys of the words one by one: those of the chord, and one more for every `l` and `r`. */
  lemma {:induction false} SticksToo(words: seq<string>)
    requires forall w :: w in words ==> w in PlainWords()
    ensures |AllInChord(words)| <= |AllKeys(words)|
    ensures (forall w :: w in words ==> !Twofold(w)) ==> AllInChord(words) == AllKeys(words)
    ensures (exists w :: w in words && Twofold(w)) ==> |AllInChord(words)| < |AllKeys(words)|
    decreases |words|
  {
    hide PlainWords, InChord, Keys, AllInChord, AllKeys, Twofold;
    if words == [] {
      NoParts();
    } else {
      var n := |words| - 1;
      SticksToo(words[..n]);
      LastWord(words, n);
      WordToo(words[n]);
      assert words == words[..n] + [words[n]];
    }
  }

  lemma WordToo(w: string)
    requires w in PlainWords()
    ensures if Twofold(w) then |InChord(w)| < |Keys(w)| else InChord(w) == Keys(w)
  {
    hide PlainWords, Keys;
    var k :| 0 <= k < |PlainWords()| && PlainWords()[k] == w;
    InChordKeys(k);
  }

  /** These are the keys of the same words sent one by one if and only if none of them is `l` or `r`. */
  lemma ChordIsItsWordsIff(parts: seq<string>, words: seq<string>)
    requires ChordOf(parts, words) && |parts| >= 2
    ensures Keys(Join(parts)) == AllKeys(words) <==> forall w :: w in words ==> !Twofold(w)
  {
    hide AllInChord, AllKeys, Join, Variant, PlainWords, Twofold;
    ChordIsItsWords(parts, words);
    SticksToo(words);
  }

  // ---- What the rows for single words press -----------------------------------

  datatype Way = Leftward | Rightward | Upward | Downward

  /** The way that a word ends in: left or l, right or r, up or u, down or d. */
  function WayOf(w: string): Way
    requires w != []
  {
    var c := w[|w| - 1];
    if c == 'l' || (c == 't' && |w| > 1 && w[|w| - 2] == 'f') then Leftward
    else if c == 'r' || c == 't' then Rightward
    else if c == 'u' || c == 'p' then Upward
    else Downward
  }

  function LeftStick(way: Way): Key {
    match way
    case Leftward => LX(STICK_MIN)
    case Rightward => LX(STICK_MAX)
    case Upward => LY(STICK_MIN)
    case Downward => LY(STICK_MAX)
  }

  function RightStick(way: Way): Key {
    match way
    case Leftward => RX(STICK_MIN)
    case Rightward => RX(STICK_MAX)
    case Upward => RY(STICK_MIN)
    case Downward => RY(STICK_MAX)
  }

  function PadKey(way: Way): Key {
    match way
    case Leftward => Dpad(DPAD_LEFT)
    case Rightward => Dpad(DPAD_RIGHT)
    case Upward => Dpad(DPAD_UP)
    case Downward => Dpad(DPAD_DOWN)
  }

  /** Every word of the sticks and the d-pad goes the way it ends in. */
  lemma SlowSticksPoint(w: string, i: nat)
    requires i < |SlowSticks()| && w in SlowSticks()[i].0
    ensures w != [] && SlowSticks()[i].1 == [LeftStick(WayOf(w))]
  {
  }

  lemma HeldSticksPoint(w: string, i: nat)
    requires i < |HeldSticks()| && w in HeldSticks()[i].0
    ensures w != [] && HeldSticks()[i].1 == [LeftStick(WayOf(w))]
  {
  }

  lemma PadsPoint(w: string, i: nat)
    requires i < |Pads()| && w in Pads()[i].0
    ensures w != [] && Pads()[i].1 == [PadKey(WayOf(w))]
  {
  }

  lemma LooksPoint(w: string, i: nat)
    requires i < |Looks()| && w in Looks()[i].0
    ensures w != [] && Looks()[i].1 == [RightStick(WayOf(w))]
  {
  }

  function NameOf(button: Button): string {
    match button
    case LStick => "lstick"
    case L => "l"
    case ZL => "zl"
    case Minus => "minus"
    case Capture => "capture"
    case A => "a"
    case B => "b"
    case X => "x"
    case Y => "y"
    case RStick => "rstick"
    case R => "r"
    case ZR => "zr"
    case Plus => "plus"
    case Home => "home"
  }

  /** The word is the name of the button behind any letters `s` and `h`. */
  predicate Names(w: string, button: Button) {
    var name := NameOf(button);
    var n := |w| - |name|;
    && n >= 0
    && (forall j :: 0 <= j < n ==> w[j] == 's' || w[j] == 'h')
    && (forall j :: 0 <= j < |name| ==> w[n + j] == name[j])
  }

  /** The row holds exactly the button that the word names. */
  predicate HoldsNamed(w: string, keys: seq<Key>) {
    |keys| == 1 && keys[0].Hold? && Names(w, keys[0].button)
  }

  lemma EarlyPresses(w: string, i: nat)
    requires i < 11 && w in Presses()[i].0
    ensures HoldsNamed(w, Presses()[i].1)
  {
  }

  lemma LatePresses(w: string, i: nat)
    requires 11 <= i < |Presses()| && w in Presses()[i].0
    ensures HoldsNamed(w, Presses()[i].1)
  {
  }

  /** Every word of the buttons holds the button that it names. */
  lemma PressesName(w: string, i: nat)
    requires i < |Presses()| && w in Presses()[i].0
    ensures HoldsNamed(w, Presses()[i].1)
  {
    hide Presses, HoldsNamed;
    if i < 11 {
      EarlyPresses(w, i);
    } else {
      LatePresses(w, i);
    }
  }
}
