/**
 The bridge's stack of input sources: the newest source is read until it ends, then the
 one below it goes on; everything delivered can be recorded.
 */
module InputStack {
  import opened Basics

  type Message = seq<byte>

  /**
   What a generator has left: the messages of a file or macro, or a live controller. A
   live controller has no end and delivers the state it is in when asked, but a state it
   cannot encode raises IndexError and finishes it.
   */
  datatype Source = Finite(messages: seq<Message>) | Live

  /** `Ended` is StopIteration. */
  datatype Outcome = Delivered(message: Message) | Ended

  /** __next__ on the list of sources, newest last; `now` is what a live controller would send. */
  function NextOf(l: seq<Source>, now: Option<Message>): (seq<Source>, Outcome)
    decreases |l|
  {
    if l == [] then (l, Ended)
    else
      var top, below := l[|l| - 1], l[..|l| - 1];
      match top
      case Finite(ms) =>
        if ms == [] then NextOf(below, now) else (below + [Finite(ms[1..])], Delivered(ms[0]))
      case Live =>
        match now
        case Some(m) => (l, Delivered(m))
        case None => (below + [Finite([])], Ended)
  }

  // ---- One future -------------------------------------------------------------

  /** All that is still to come, with the sources run together. */
  datatype Future =
    | Nothing
    | Then(message: Message, rest: Future)
    | FromLive(below: Future)

  function Before(ms: seq<Message>, rest: Future): Future {
    if ms == [] then rest else Then(ms[0], Before(ms[1..], rest))
  }

  /** A source interrupts: it comes before everything else. */
  function Interrupt(s: Source, rest: Future): Future {
    match s
    case Finite(ms) => Before(ms, rest)
    case Live => FromLive(rest)
  }

  function FutureOf(l: seq<Source>): Future {
    if l == [] then Nothing else Interrupt(l[|l| - 1], FutureOf(l[..|l| - 1]))
  }

  function Advance(future: Future, now: Option<Message>): (Future, Outcome) {
    match future
    case Nothing => (Nothing, Ended)
    case Then(m, rest) => (rest, Delivered(m))
    case FromLive(below) =>
      match now
      case Some(m) => (future, Delivered(m))
      case None => (below, Ended)
  }

  lemma FutureSnoc(l: seq<Source>, s: Source)
    ensures FutureOf(l + [s]) == Interrupt(s, FutureOf(l))
  {
    assert (l + [s])[..|l|] == l;
  }

  /** The stack delivers its future. */
  lemma {:induction false} NextAdvances(l: seq<Source>, now: Option<Message>)
    ensures var (l', out) := NextOf(l, now);
            Advance(FutureOf(l), now) == (FutureOf(l'), out)
    decreases |l|
  {
    if l != [] {
      var top, below := l[|l| - 1], l[..|l| - 1];
      match top {
        case Finite(ms) =>
          if ms == [] {
            NextAdvances(below, now);
          } else {
            FutureSnoc(below, Finite(ms[1..]));
          }
        case Live =>
          if now.None? {
            FutureSnoc(below, Finite([]));
          }
      }
    }
  }

  // ---- Runs -------------------------------------------------------------------

  /** A source is pushed, or the next message taken while a live controller would send `now`. */
  datatype Op = Push(source: Source) | Take(now: Option<Message>)

  function Run(l: seq<Source>, ops: seq<Op>): (seq<Source>, seq<Outcome>)
    decreases ops
  {
    if ops == [] then (l, [])
    else match ops[0]
      case Push(s) => Run(l + [s], ops[1..])
      case Take(now) =>
        var (l', out) := NextOf(l, now);
        var (last, outs) := Run(l', ops[1..]);
        (last, [out] + outs)
  }

  function RunFuture(future: Future, ops: seq<Op>): (Future, seq<Outcome>)
    decreases ops
  {
    if ops == [] then (future, [])
    else match ops[0]
      case Push(s) => RunFuture(Interrupt(s, future), ops[1..])
      case Take(now) =>
        var (next, out) := Advance(future, now);
        var (last, outs) := RunFuture(next, ops[1..]);
        (last, [out] + outs)
  }

  /** Under any pushes and takes the stack is one future with interruptions put in front. */
  lemma {:induction false} StackIsFuture(l: seq<Source>, ops: seq<Op>)
    ensures var (l', outs) := Run(l, ops);
            RunFuture(FutureOf(l), ops) == (FutureOf(l'), outs)
    decreases ops
  {
    hide FutureOf, Interrupt, NextOf, Advance;
    if ops != [] {
      match ops[0] {
        case Push(s) =>
          FutureSnoc(l, s);
          StackIsFuture(l + [s], ops[1..]);
        case Take(now) =>
          NextAdvances(l, now);
          StackIsFuture(NextOf(l, now).0, ops[1..]);
      }
    }
  }

  // ---- Interruptions ----------------------------------------------------------

  /** One future, and then another. */
  function Join(first: Future, rest: Future): Future {
    match first
    case Nothing => rest
    case Then(m, more) => Then(m, Join(more, rest))
    case FromLive(below) => FromLive(Join(below, rest))
  }

  lemma {:induction false} BeforeJoin(ms: seq<Message>, first: Future, rest: Future)
    ensures Before(ms, Join(first, rest)) == Join(Before(ms, first), rest)
    decreases ms
  {
    if ms != [] {
      BeforeJoin(ms[1..], first, rest);
    }
  }

  lemma InterruptJoin(s: Source, first: Future, rest: Future)
    ensures Interrupt(s, Join(first, rest)) == Join(Interrupt(s, first), rest)
  {
    if s.Finite? {
      BeforeJoin(s.messages, first, rest);
    }
  }

  /** As long as the sources in front do not run dry, those behind play no part. */
  lemma {:induction false} RunJoin(first: Future, rest: Future, ops: seq<Op>)
    requires Ended !in RunFuture(first, ops).1
    ensures var (last, outs) := RunFuture(first, ops);
            RunFuture(Join(first, rest), ops) == (Join(last, rest), outs)
    decreases ops
  {
    hide Interrupt;
    if ops != [] {
      match ops[0] {
        case Push(s) =>
          InterruptJoin(s, first, rest);
          RunJoin(Interrupt(s, first), rest, ops[1..]);
        case Take(now) =>
          var (next, out) := Advance(first, now);
          var outs := RunFuture(first, ops).1;
          assert outs[0] == out && outs[1..] == RunFuture(next, ops[1..]).1;
          RunJoin(next, rest, ops[1..]);
      }
    }
  }

  lemma {:induction false} RunAppend(l: seq<Source>, xs: seq<Op>, ys: seq<Op>)
    ensures var (mid, outs) := Run(l, xs);
            Run(l, xs + ys) == (Run(mid, ys).0, outs + Run(mid, ys).1)
    decreases xs
  {
    hide NextOf;
    if xs == [] {
      assert xs + ys == ys && [] + Run(l, ys).1 == Run(l, ys).1;
    } else {
      assert (xs + ys)[1..] == xs[1..] + ys;
      match xs[0] {
        case Push(s) => RunAppend(l + [s], xs[1..], ys);
        case Take(now) =>
          var (next, out) := NextOf(l, now);
          RunAppend(next, xs[1..], ys);
          var (mid, outs) := Run(next, xs[1..]);
          Assoc([out], outs, Run(mid, ys).1);
      }
    }
  }

  /** Stacks with the same future deliver the same. */
  lemma SameFuture(l: seq<Source>, k: seq<Source>, ops: seq<Op>)
    requires FutureOf(l) == FutureOf(k)
    ensures Run(l, ops).1 == Run(k, ops).1
  {
    hide FutureOf;
    StackIsFuture(l, ops);
    StackIsFuture(k, ops);
  }

  /**
   Interruptions, however many and however nested: if what is pushed suffices for what is
   taken, all of it comes from what was pushed, and when that is used up the sources below
   go on exactly where they stopped, whatever happens next.
   */
  lemma InterruptionsResume(l: seq<Source>, ops: seq<Op>, more: seq<Op>)
    requires Ended !in Run([], ops).1 && FutureOf(Run([], ops).0) == Nothing
    ensures Run(l, ops + more).1 == Run([], ops).1 + Run(l, more).1
  {
    hide RunFuture;
    assert FutureOf([]) == Nothing;
    StackIsFuture([], ops);
    StackIsFuture(l, ops);
    RunJoin(Nothing, FutureOf(l), ops);
    hide FutureOf, Run;
    RunAppend(l, ops, more);
    SameFuture(Run(l, ops).0, l, more);
  }

  function Takes(nows: seq<Option<Message>>): (ops: seq<Op>)
    ensures |ops| == |nows|
  {
    seq(|nows|, i requires 0 <= i < |nows| => Take(nows[i]))
  }

  function AllDelivered(ms: seq<Message>): (outs: seq<Outcome>)
    ensures |outs| == |ms|
  {
    seq(|ms|, i requires 0 <= i < |ms| => Delivered(ms[i]))
  }

  /** A pushed file or macro is delivered completely, and in order, before anything else. */
  lemma {:induction false} FileDelivered(ms: seq<Message>, nows: seq<Option<Message>>)
    requires |nows| == |ms|
    ensures Run([], [Push(Finite(ms))] + Takes(nows)).1 == AllDelivered(ms)
    ensures FutureOf(Run([], [Push(Finite(ms))] + Takes(nows)).0) == Nothing
  {
    var ops := [Push(Finite(ms))] + Takes(nows);
    StackIsFuture([], ops);
    assert ops[1..] == Takes(nows);
    assert FutureOf([]) == Nothing;
    FutureDelivers(ms, nows);
  }

  lemma {:induction false} FutureDelivers(ms: seq<Message>, nows: seq<Option<Message>>)
    requires |nows| == |ms|
    ensures RunFuture(Before(ms, Nothing), Takes(nows)) == (Nothing, AllDelivered(ms))
    decreases ms
  {
    if ms == [] {
      assert Takes(nows) == [];
    } else {
      assert Takes(nows)[0] == Take(nows[0]) && Takes(nows)[1..] == Takes(nows[1..]);
      FutureDelivers(ms[1..], nows[1..]);
      assert AllDelivered(ms) == [Delivered(ms[0])] + AllDelivered(ms[1..]);
    }
  }

  // ---- The object -------------------------------------------------------------

  /** Messages among the outcomes, run together. */
  function Recorded(outs: seq<Outcome>): seq<byte> {
    if outs == [] then []
    else Recorded(outs[..|outs| - 1]) + (if outs[|outs| - 1].Delivered? then outs[|outs| - 1].message else [])
  }

  lemma RecordedSnoc(outs: seq<Outcome>, out: Outcome)
    ensures Recorded(outs + [out]) == Recorded(outs) + if out.Delivered? then out.message else []
  {
    assert (outs + [out])[..|outs|] == outs;
  }

  class Stack {
    var l: seq<Source>
    /** Contents of the record file and of an open macro file; `None` is no file. */
    var recordFile: Option<seq<byte>>
    var macroFile: Option<seq<byte>>
    /** Everything returned, and everything returned since the macro was started. */
    ghost var returned: seq<Outcome>
    ghost var sinceMacro: seq<Outcome>

    ghost predicate Valid()
      reads this
    {
      && (recordFile.Some? ==> recordFile.value == Recorded(returned))
      && (macroFile.Some? ==> macroFile.value == Recorded(sinceMacro))
    }

    constructor (recording: bool)
      ensures Valid() && l == [] && returned == [] && macroFile == None && recordFile.Some? == recording
    {
      l, macroFile, returned, sinceMacro := [], None, [], [];
      recordFile := if recording then Some([]) else None;
    }

    /** A macro file is opened only if none is open. */
    method MacroStart()
      requires Valid()
      modifies this`macroFile, this`sinceMacro
      ensures Valid() && macroFile.Some?
      ensures if old(macroFile).None? then macroFile == Some([]) && sinceMacro == []
              else macroFile == old(macroFile) && sinceMacro == old(sinceMacro)
    {
      if macroFile.None? {
        macroFile, sinceMacro := Some([]), [];
      }
    }

    /** The finished macro, if one was open, is what was returned since it was started. */
    method MacroEnd() returns (file: Option<seq<byte>>)
      requires Valid()
      modifies this`macroFile
      ensures Valid() && macroFile == None && file == old(macroFile)
      ensures file.Some? ==> file.value == Recorded(sinceMacro)
    {
      file := macroFile;
      macroFile := None;
    }

    method Push(it: Source)
      requires Valid()
      modifies this`l
      ensures Valid() && l == old(l) + [it] && FutureOf(l) == Interrupt(it, FutureOf(old(l)))
    {
      hide FutureOf, Interrupt, Recorded;
      FutureSnoc(l, it);
      l := l + [it];
    }

    method Next(now: Option<Message>) returns (out: Outcome)
      requires Valid()
      modifies this
      ensures Valid()
      ensures Advance(FutureOf(old(l)), now) == (FutureOf(l), out)
      ensures |l| <= |old(l)| && recordFile.Some? == old(recordFile.Some?) && macroFile.Some? == old(macroFile.Some?)
      ensures returned == old(returned) + [out] && sinceMacro == old(sinceMacro) + [out]
    {
      hide FutureOf, Advance, Recorded;
      NextAdvances(l, now);
      ghost var want := NextOf(l, now);
      while true
        invariant Valid() && NextOf(l, now) == want && |l| <= |old(l)|
        invariant returned == old(returned) && sinceMacro == old(sinceMacro)
        invariant recordFile == old(recordFile) && macroFile == old(macroFile)
        decreases |l|
      {
        if l == [] {
          out := Ended;
          break;
        }
        var top, below := l[|l| - 1], l[..|l| - 1];
        match top {
          case Finite(ms) =>
            if ms != [] {
              out := Delivered(ms[0]);
              l := below + [Finite(ms[1..])];
              break;
            }
            l := below;
          case Live =>
            if now.Some? {
              out := Delivered(now.value);
            } else {
              out := Ended;
              l := below + [Finite([])];
            }
            break;
        }
      }
      RecordedSnoc(returned, out);
      RecordedSnoc(sinceMacro, out);
      returned, sinceMacro := returned + [out], sinceMacro + [out];
      if out.Delivered? {
        if recordFile.Some? {
          recordFile := Some(recordFile.value + out.message);
        }
        if macroFile.Some? {
          macroFile := Some(macroFile.value + out.message);
        }
      } else {
        NothingAppended(recordFile, macroFile);
      }
    }

    lemma NothingAppended(r: Option<seq<byte>>, m: Option<seq<byte>>)
      ensures r.Some? ==> r.value + [] == r.value
      ensures m.Some? ==> m.value + [] == m.value
    {
    }
  }
}
