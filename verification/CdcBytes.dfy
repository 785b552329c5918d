/**
 Chip erase, the identification commands, and the commands of the CDC bootloader that
 move one byte or one word at a time.
 */
module CdcBytes {
  import opened Avr
  import opened Basics
  import opened Bits
  import opened Cdc
  import opened CdcBlocks

  /** A command that is a single character. */
  function Plain(c: char): (s: seq<byte>)
    requires c < 256 as char
    ensures |s| == 1
  {
    [c as int]
  }

  /** A command with one byte of argument. */
  function WithByte(c: char, b: byte): (s: seq<byte>)
    requires c < 256 as char
    ensures |s| == 2
  {
    [c as int, b]
  }

  lemma PlainStep(part: Part, d: Device, c: char, rest: seq<seq<byte>>, e: Device, answer: seq<byte>)
    requires c < 256 as char && Execute(part, d, c as int, []) == Reply(e, answer, [])
    ensures var next := Session(part, e, rest);
            Session(part, d, [Plain(c)] + rest) == (next.0, [answer] + next.1)
    ensures Exact(part, d, [Plain(c)] + rest) == Exact(part, e, rest)
  {
    hide Execute, Session, Exact;
    SessionStep(part, d, Plain(c), rest, e, answer);
  }

  lemma ByteStep(part: Part, d: Device, c: char, b: byte, rest: seq<seq<byte>>, e: Device, answer: seq<byte>)
    requires c < 256 as char && Execute(part, d, c as int, [b]) == Reply(e, answer, [])
    ensures var next := Session(part, e, rest);
            Session(part, d, [WithByte(c, b)] + rest) == (next.0, [answer] + next.1)
    ensures Exact(part, d, [WithByte(c, b)] + rest) == Exact(part, e, rest)
  {
    hide Execute, Session, Exact;
    assert WithByte(c, b) == [c as int] + [b];
    OneByte(c as int, [b]);
    SessionStep(part, d, WithByte(c, b), rest, e, answer);
  }

  // ---- Chip erase -------------------------------------------------------------

  /** Flash after a chip erase: what waited in the buffer, 0xFF up to `boot`, then what was there. */
  predicate Erased(was: Flash, boot: nat, f: Flash) {
    && |f.mem| == |was.mem| && f.buf == (if boot == 0 then was.buf else Blank(was.Page()))
    && forall i :: 0 <= i < |f.mem| ==>
         f.mem[i] == if i >= boot then was.mem[i] else if i < |was.buf| then was.buf[i] else 255
  }

  lemma FirstPage(f: Flash)
    requires f.Page() <= |f.mem|
    ensures Write(Erase(f, 0), 0) == Flash(Put(f.mem, 0, f.buf), Blank(f.Page()))
  {
    hide Put, Write;
    assert f.buf + Blank(0) == f.buf;
    CommitPage(f, Erase(f, 0), 0, f.buf);
  }

  lemma EraseLeaves(f: Flash, boot: nat)
    requires boot <= |f.mem| && Aligned(f.Page(), boot)
    ensures Erased(f, boot, EraseFrom(f, boot, 0))
  {
    if boot > 0 {
      hide Write, Erase;
      AlignedGap(f.Page(), 0, boot);
      FirstPage(f);
      EraseAll(Write(Erase(f, 0), 0), boot, f.Page());
    }
  }

  /** The erase command empties the application section and touches nothing else. */
  lemma EraseCommand(part: Part, d: Device)
    requires part.boot <= |d.flash.mem| && Aligned(d.flash.Page(), part.boot)
    ensures var (e, answers) := Session(part, d, [Plain('e')]);
            answers == [[CR]] && Erased(d.flash, part.boot, e.flash) && e == d.(flash := e.flash)
    ensures Exact(part, d, [Plain('e')])
  {
    hide EraseFrom, Session, Exact, Erased;
    var e := d.(flash := EraseFrom(d.flash, part.boot, 0));
    PlainStep(part, d, 'e', [], e, [CR]);
    assert [Plain('e')] + [] == [Plain('e')] && [[CR]] + [] == [[CR]];
    SessionEnd(part, e);
    EraseLeaves(d.flash, part.boot);
  }

  /** The whole section reads as 0xFF if and only if nothing waited in the page buffer. */
  lemma EraseBlanksIff(part: Part, d: Device)
    requires part.boot <= |d.flash.mem| && Aligned(d.flash.Page(), part.boot)
    ensures var e := Session(part, d, [Plain('e')]).0;
            (forall a :: 0 <= a < part.boot ==> ReadByte(e.flash, a) == 255) <==> part.boot == 0 || BufferBlank(d.flash)
  {
    hide Session;
    var f, e := d.flash, Session(part, d, [Plain('e')]).0;
    EraseCommand(part, d);
    if part.boot > 0 && forall a :: 0 <= a < part.boot ==> ReadByte(e.flash, a) == 255 {
      AlignedGap(f.Page(), 0, part.boot);
      forall i | 0 <= i < |f.buf| ensures f.buf[i] == 255 {
        assert ReadByte(e.flash, i) == 255;
      }
    }
  }

  /** Erase, set the address, read: the answers in terms of the flash that the erase leaves. */
  lemma ErasedSession(part: Part, d: Device, start: nat, sizes: seq<nat>, end: nat, f: Flash)
    requires f == EraseFrom(d.flash, part.boot, 0) && end <= |f.mem| <= 0x2_0000
    requires start % 2 == 0 && start < 0x8000 && end % 2 == 0 && start + Total(sizes) == end
    requires forall i :: 0 <= i < |sizes| ==> sizes[i] % 2 == 0 && sizes[i] < 0x10000
    ensures var s := [Plain('e')] + ([AddressCommand(start)] + Reads('F', sizes));
            && Session(part, d, s).0 == d.(flash := f, curr := end)
            && Session(part, d, s).1 == [[CR]] + ([[CR]] + (Slices(f.mem, start, sizes) + []))
            && Exact(part, d, s)
  {
    hide Session, Exact, EraseFrom, AddressCommand, Reads, Slices, Plain, Total;
    var d1 := d.(flash := f);
    PlainStep(part, d, 'e', [AddressCommand(start)] + Reads('F', sizes), d1, [CR]);
    AddressStep(part, d1, start, Reads('F', sizes));
    assert Reads('F', sizes) + [] == Reads('F', sizes);
    ReadsReturn(part, d1.(curr := start), sizes, end, []);
    SessionEnd(part, d1.(curr := end));
  }

  /** After an erase, block reads of any even sizes inside the section return nothing but 0xFF. */
  lemma ErasedReads(part: Part, d: Device, start: nat, sizes: seq<nat>)
    requires BufferBlank(d.flash) && part.boot <= |d.flash.mem| <= 0x2_0000 && Aligned(d.flash.Page(), part.boot)
    requires start % 2 == 0 && start < 0x8000 && start + Total(sizes) <= part.boot
    requires forall i :: 0 <= i < |sizes| ==> sizes[i] % 2 == 0 && sizes[i] < 0x10000
    ensures var s := [Plain('e')] + ([AddressCommand(start)] + Reads('F', sizes));
            var (e, answers) := Session(part, d, s);
            && |answers| == |sizes| + 2 && answers[..2] == [[CR], [CR]]
            && Flatten(answers[2..]) == Blank(Total(sizes))
            && e == d.(flash := e.flash, curr := start + Total(sizes)) && Exact(part, d, s)
  {
    hide Session, Exact, EraseFrom, AddressCommand, Reads, Slices, Flatten, Plain, Erased, Total;
    var f, end := EraseFrom(d.flash, part.boot, 0), start + Total(sizes);
    EraseLeaves(d.flash, part.boot);
    ErasedPiece(d.flash, part.boot, f, start, end);
    EvenSizes(sizes);
    EvenSum(start, Total(sizes));
    ErasedSession(part, d, start, sizes, end, f);
    SlicesJoin(f.mem, start, sizes);
    SlicesCount(f.mem, start, sizes);
    TwoReturns(Slices(f.mem, start, sizes));
  }

  lemma TwoReturns(reading: seq<seq<byte>>)
    ensures var answers := [[CR]] + ([[CR]] + (reading + []));
            |answers| == |reading| + 2 && answers[..2] == [[CR], [CR]] && answers[2..] == reading
  {
  }

  lemma ErasedPiece(was: Flash, boot: nat, f: Flash, a: nat, end: nat)
    requires BufferBlank(was) && Erased(was, boot, f) && a <= end <= boot <= |was.mem|
    ensures |f.mem| == |was.mem| && f.mem[a..end] == Blank(end - a)
  {
  }

  lemma {:induction false} SlicesCount(m: seq<byte>, a: nat, sizes: seq<nat>)
    requires a + Total(sizes) <= |m|
    ensures |Slices(m, a, sizes)| == |sizes|
    decreases sizes
  {
    if sizes != [] {
      SlicesCount(m, a + sizes[0], sizes[1..]);
    }
  }

  // ---- EEPROM one byte at a time ----------------------------------------------

  /** One command per byte, and one answer per byte. */
  function ByteWrites(data: seq<byte>): seq<seq<byte>> {
    if data == [] then [] else [WithByte('D', data[0])] + ByteWrites(data[1..])
  }

  function ByteReads(n: nat): seq<seq<byte>> {
    if n == 0 then [] else [Plain('d')] + ByteReads(n - 1)
  }

  function Singles(data: seq<byte>): seq<seq<byte>> {
    if data == [] then [] else [[data[0]]] + Singles(data[1..])
  }

  lemma NoSingles()
    ensures Singles([]) == []
  {
  }

  lemma SinglesCons(b: byte, rest: seq<byte>)
    ensures Singles([b] + rest) == [[b]] + Singles(rest)
  {
    assert ([b] + rest)[1..] == rest;
  }

  lemma {:induction false} SinglesJoin(data: seq<byte>)
    ensures Flatten(Singles(data)) == data
  {
    if data != [] {
      hide Flatten;
      SinglesJoin(data[1..]);
      FlattenCons([data[0]], Singles(data[1..]));
      assert data == [data[0]] + data[1..];
    }
  }

  lemma OneByteWritten(part: Part, d: Device, a: nat, done: seq<byte>, b: byte)
    requires a + |done| < |d.eeprom| <= 0x4000
    ensures Execute(part, AfterEeprom(d, a, done), 'D' as int, [b]) ==
            Reply(AfterEeprom(d, a, done + [b]), [CR], [])
  {
    var at := a + |done|;
    assert EepromAddress(2 * at) == at && Advance(2 * at) == 2 * (at + 1);
    assert Put(d.eeprom, a, done)[at := b] == Put(d.eeprom, a, done + [b]);
  }

  lemma {:induction false} BytesWritten(part: Part, d: Device, a: nat, done: seq<byte>, more: seq<byte>,
                                        whole: seq<byte>, tail: seq<seq<byte>>)
    requires whole == done + more && a + |whole| <= |d.eeprom| <= 0x4000
    ensures var next := Session(part, AfterEeprom(d, a, whole), tail);
            Session(part, AfterEeprom(d, a, done), ByteWrites(more) + tail) == (next.0, Returns(|more|) + next.1)
    ensures Exact(part, AfterEeprom(d, a, done), ByteWrites(more) + tail) ==
            Exact(part, AfterEeprom(d, a, whole), tail)
    decreases more
  {
    hide Session, Exact, AfterEeprom, Execute;
    var next := Session(part, AfterEeprom(d, a, whole), tail);
    if more == [] {
      assert ByteWrites(more) + tail == tail && whole == done;
      assert Returns(0) + next.1 == next.1;
    } else {
      hide WithByte;
      var b, rest := more[0], more[1..];
      Assoc([WithByte('D', b)], ByteWrites(rest), tail);
      OneByteWritten(part, d, a, done, b);
      ByteStep(part, AfterEeprom(d, a, done), 'D', b, ByteWrites(rest) + tail, AfterEeprom(d, a, done + [b]), [CR]);
      assert whole == done + [b] + rest;
      BytesWritten(part, d, a, done + [b], rest, whole, tail);
      Assoc([[CR]], Returns(|rest|), next.1);
    }
  }

  lemma OneByteRead(part: Part, d: Device, a: nat)
    requires d.curr == 2 * a && a < |d.eeprom| <= 0x4000
    ensures Execute(part, d, 'd' as int, []) == Reply(d.(curr := 2 * (a + 1)), [d.eeprom[a]], [])
  {
    assert EepromAddress(2 * a) == a && Advance(2 * a) == 2 * (a + 1);
  }

  lemma {:induction false} BytesRead(part: Part, d: Device, a: nat, n: nat, end: nat)
    requires d.curr == 2 * a && a + n == end <= |d.eeprom| <= 0x4000
    ensures Session(part, d, ByteReads(n)) == (d.(curr := 2 * end), Singles(d.eeprom[a..end]))
    ensures Exact(part, d, ByteReads(n))
    decreases n
  {
    hide Session, Exact, Execute, Plain, Singles;
    if n == 0 {
      SessionEnd(part, d);
      assert Singles([]) == [] by { NoSingles(); }
    } else {
      var e := d.(curr := 2 * (a + 1));
      OneByteRead(part, d, a);
      BytesRead(part, e, a + 1, n - 1, end);
      PlainStep(part, d, 'd', ByteReads(n - 1), e, [d.eeprom[a]]);
      SinglesCons(d.eeprom[a], d.eeprom[a + 1..end]);
      assert d.eeprom[a..end] == [d.eeprom[a]] + d.eeprom[a + 1..end];
    }
  }

  /**
   EEPROM written one byte at a time holds the data, as it does written in blocks, and
   read one byte at a time gives the data back.
   */
  lemma EepromByByte(part: Part, d: Device, a: nat, data: seq<byte>)
    requires a + |data| <= |d.eeprom| <= 0x4000 && a < 0x4000
    ensures var s := [AddressCommand(2 * a)] +
                     (ByteWrites(data) + ([AddressCommand(2 * a)] + ByteReads(|data|)));
            var (e, answers) := Session(part, d, s);
            var n := |data| + 2;
            && e.eeprom == Put(d.eeprom, a, data) && e.flash == d.flash && e.run == d.run
            && |answers| >= n && answers[..n] == Returns(n) && Flatten(answers[n..]) == data
            && Exact(part, d, s)
  {
    hide Session, Exact, AddressCommand, ByteWrites, ByteReads, Put, Flatten, Returns, Singles;
    var reading := ByteReads(|data|);
    AddressStep(part, d, 2 * a, ByteWrites(data) + ([AddressCommand(2 * a)] + reading));
    var d1 := d.(curr := 2 * a);
    PutNothing(d.eeprom, a);
    assert [] + data == data;
    BytesWritten(part, d1, a, [], data, data, [AddressCommand(2 * a)] + reading);
    var d2 := AfterEeprom(d1, a, data);
    AddressStep(part, d2, 2 * a, reading);
    BytesRead(part, d2.(curr := 2 * a), a, |data|, a + |data|);
    PutHolds(d.eeprom, a, data);
    SinglesJoin(data);
    assert Singles(data) + [] == Singles(data);
    Answers(|data|, Singles(data));
  }

  // ---- Flash one word at a time -----------------------------------------------

  /** A word, its upper byte first: the address advances after the lower byte. */
  function WordFills(words: seq<(byte, byte)>): seq<seq<byte>> {
    if words == [] then []
    else [WithByte('C', words[0].1), WithByte('c', words[0].0)] + WordFills(words[1..])
  }

  /** The bytes that the host means. */
  function Meant(words: seq<(byte, byte)>): (s: seq<byte>)
    ensures |s| == 2 * |words|
  {
    if words == [] then [] else [words[0].0, words[0].1] + Meant(words[1..])
  }

  /** The same with zero for every upper byte. */
  function Lowered(words: seq<(byte, byte)>): (s: seq<byte>)
    ensures |s| == 2 * |words|
  {
    if words == [] then [] else [words[0].0, 0] + Lowered(words[1..])
  }

  /** An even address and the odd one behind it are in the same word of the same page. */
  lemma SameWord(f: Flash, a: nat)
    requires a % 2 == 0
    ensures var b := Base(f.Page(), a);
            && Base(f.Page(), a + 1) == b && (a - b) % 2 == 0 && (a + 1 - b) % 2 == 1 && a - b + 1 < f.Page()
  {
    hide Base;
    var p := f.Page();
    var b := Base(p, a);
    EvenPages(p, a);
    BaseAligned(p, a);
    EvenDifference(b, a);
    RoomForWord(a - b, p);
    BaseOfPage(p, b, a + 1);
  }

  lemma FillAgain(f: Flash, a: nat, v: byte, w: byte)
    requires a % 2 == 0
    ensures Fill(Fill(f, a, v), a + 1, w) == Fill(f, a, Word(w, 0))
  {
    hide Base;
    SameWord(f, a);
    WordParts(w, 0);
  }

  lemma WordFilled(part: Part, d: Device, hi: byte, lo: byte, rest: seq<seq<byte>>)
    requires d.curr + 2 < U32
    ensures var e := d.(flash := Fill(d.flash, d.curr, Word(lo, 0)), curr := d.curr + 2);
            var next := Session(part, e, rest);
            && Session(part, d, [WithByte('C', hi)] + ([WithByte('c', lo)] + rest)) ==
               (next.0, [[CR]] + ([[CR]] + next.1))
            && Exact(part, d, [WithByte('C', hi)] + ([WithByte('c', lo)] + rest)) == Exact(part, e, rest)
  {
    hide Session, Exact, Fill, WithByte;
    var d1 := d.(flash := Fill(d.flash, d.curr, hi));
    var e := d.(flash := Fill(d1.flash, d.curr + 1, lo), curr := d.curr + 2);
    FillAgain(d.flash, d.curr, hi, lo);
    ByteStep(part, d, 'C', hi, [WithByte('c', lo)] + rest, d1, [CR]);
    assert Advance(d.curr) == d.curr + 2;
    ByteStep(part, d1, 'c', lo, rest, e, [CR]);
  }

  lemma WordFillsCons(w: (byte, byte), rest: seq<(byte, byte)>, tail: seq<seq<byte>>)
    ensures WordFills([w] + rest) + tail ==
            [WithByte('C', w.1)] + ([WithByte('c', w.0)] + (WordFills(rest) + tail))
    ensures Lowered([w] + rest) == [w.0, 0] + Lowered(rest)
  {
    hide WithByte;
    assert ([w] + rest)[1..] == rest;
  }

  lemma ReturnsTwice(n: nat, tail: seq<seq<byte>>)
    ensures [[CR]] + ([[CR]] + (Returns(n) + tail)) == Returns(n + 2) + tail
  {
    assert Returns(n + 1) == [[CR]] + Returns(n);
  }

  /** Words sent one after the other wait in the buffer without their upper bytes. */
  lemma {:induction false} WordsFilled(part: Part, d: Device, was: Flash, b: nat, done: seq<byte>,
                                       words: seq<(byte, byte)>, tail: seq<seq<byte>>) returns (g: Flash)
    requires Filling(was, d.flash, b, done) && |done| + 2 * |words| <= was.Page() && |was.mem| <= 0x2_0000
    requires d.curr == b + |done|
    ensures Filling(was, g, b, done + Lowered(words))
    ensures (b + |done| + 2 * |words|) % 2 == 0 && b + |done| + 2 * |words| < U32
    ensures var e := d.(flash := g, curr := b + |done| + 2 * |words|);
            var next := Session(part, e, tail);
            && Session(part, d, WordFills(words) + tail) == (next.0, Returns(2 * |words|) + next.1)
            && Exact(part, d, WordFills(words) + tail) == Exact(part, e, tail)
    decreases words
  {
    hide Session, Exact, Filling, Fill, Word;
    FillingBounds(was, d.flash, b, done);
    g := d.flash;
    if words == [] {
      assert WordFills(words) + tail == tail && done + Lowered(words) == done;
      assert Returns(0) + Session(part, d, tail).1 == Session(part, d, tail).1;
    } else {
      hide WithByte, WordFills, Lowered, Returns;
      var w, rest := words[0], words[1..];
      assert words == [w] + rest;
      WordFillsCons(w, rest, tail);
      WordFilled(part, d, w.1, w.0, WordFills(rest) + tail);
      FillStep(was, d.flash, b, done, w.0, 0);
      var e := d.(flash := Fill(d.flash, d.curr, Word(w.0, 0)), curr := d.curr + 2);
      g := WordsFilled(part, e, was, b, done + [w.0, 0], rest, tail);
      Assoc(done, [w.0, 0], Lowered(rest));
      ReturnsTwice(2 * |rest|, Session(part, d.(flash := g, curr := b + |done| + 2 * |words|), tail).1);
    }
  }

  /** A page that reads as 0xFF, with nothing in the buffer, is ready to be filled. */
  lemma ReadyToFill(f: Flash, b: nat)
    requires BufferBlank(f) && Aligned(f.Page(), b) && b + f.Page() <= |f.mem|
    requires f.mem[b..b + f.Page()] == Blank(f.Page())
    ensures Filling(f, f, b, [])
  {
    hide Put, Aligned;
    assert [] + Blank(f.Page()) == f.buf;
    PutOwn(f.mem, b, Blank(f.Page()));
  }

  /** Putting back what is there changes nothing. */
  lemma PutOwn(m: seq<byte>, b: nat, d: seq<byte>)
    requires b + |d| <= |m| && m[b..b + |d|] == d
    ensures Put(m, b, d) == m
  {
    forall i | b <= i < b + |d| ensures m[i] == d[i - b] {
      assert m[i] == m[b..b + |d|][i - b];
    }
  }

  /** The commands that program one page a word at a time. */
  function ProgramWords(b: nat, words: seq<(byte, byte)>): seq<seq<byte>> {
    [AddressCommand(b)] + (WordFills(words) + ([AddressCommand(b)] + [Plain('m')]))
  }

  lemma PageWritten(part: Part, d: Device, b: nat)
    requires b % 2 == 0 && b < 0x8000
    ensures var s := [AddressCommand(b)] + [Plain('m')];
            && Session(part, d, s) == (d.(flash := Write(d.flash, b), curr := b), Returns(2))
            && Exact(part, d, s)
  {
    hide Session, Exact, AddressCommand, Plain, Write;
    AddressStep(part, d, b, [Plain('m')]);
    var e := d.(flash := Write(d.flash, b), curr := b);
    PlainStep(part, d.(curr := b), 'm', [], e, [CR]);
    assert [Plain('m')] + [] == [Plain('m')];
    SessionEnd(part, e);
    assert Returns(2) == [[CR]] + ([[CR]] + []);
  }

  /** Words programmed one at a time into an erased page reach flash with zero for every upper byte. */
  lemma WordsProgrammed(part: Part, d: Device, b: nat, words: seq<(byte, byte)>)
    requires BufferBlank(d.flash) && Aligned(d.flash.Page(), b) && b < 0x8000
    requires b + d.flash.Page() <= |d.flash.mem| <= 0x2_0000
    requires d.flash.mem[b..b + d.flash.Page()] == Blank(d.flash.Page()) && 2 * |words| <= d.flash.Page()
    ensures var (e, answers) := Session(part, d, ProgramWords(b, words));
            && e.flash == Flash(Put(d.flash.mem, b, Lowered(words)), Blank(d.flash.Page()))
            && e == d.(flash := e.flash, curr := b)
            && answers == [[CR]] + (Returns(2 * |words|) + Returns(2))
    ensures Exact(part, d, ProgramWords(b, words))
  {
    hide Session, Exact, AddressCommand, Plain, Write, WordFills, Lowered, Returns, Put;
    var f := d.flash;
    EvenStart(f, b);
    ReadyToFill(f, b);
    var last := [AddressCommand(b)] + [Plain('m')];
    AddressStep(part, d, b, WordFills(words) + last);
    var g := WordsFilled(part, d.(curr := b), f, b, [], words, last);
    assert [] + Lowered(words) == Lowered(words);
    PageWritten(part, d.(flash := g, curr := b + 2 * |words|), b);
    CommitPage(f, g, b, Lowered(words));
    PutBlank(f.mem, b, Lowered(words), f.Page());
  }

  lemma PutBlank(m: seq<byte>, b: nat, d: seq<byte>, p: nat)
    requires |d| <= p && b + p <= |m| && m[b..b + p] == Blank(p)
    ensures Put(m, b, d + Blank(p - |d|)) == Put(m, b, d)
  {
    forall i | b + |d| <= i < b + p ensures m[i] == 255 {
      assert m[i] == m[b..b + p][i - b];
    }
  }

  /** So flash holds the words that the host meant if and only if all their upper bytes are zero. */
  lemma WordsProgrammedIff(part: Part, d: Device, b: nat, words: seq<(byte, byte)>)
    requires BufferBlank(d.flash) && Aligned(d.flash.Page(), b) && b < 0x8000
    requires b + d.flash.Page() <= |d.flash.mem| <= 0x2_0000
    requires d.flash.mem[b..b + d.flash.Page()] == Blank(d.flash.Page()) && 2 * |words| <= d.flash.Page()
    ensures var e := Session(part, d, ProgramWords(b, words)).0;
            && |e.flash.mem| == |d.flash.mem|
            && (e.flash.mem[b..b + 2 * |words|] == Meant(words) <==> forall w :: w in words ==> w.1 == 0)
  {
    hide Session, Lowered, Meant;
    WordsProgrammed(part, d, b, words);
    PutHolds(d.flash.mem, b, Lowered(words));
    LoweredIff(words);
  }

  lemma {:induction false} LoweredIff(words: seq<(byte, byte)>)
    ensures Lowered(words) == Meant(words) <==> forall w :: w in words ==> w.1 == 0
  {
    if words != [] {
      var w, rest := words[0], words[1..];
      LoweredIff(rest);
      var low, meant := Lowered(words), Meant(words);
      assert low[2..] == Lowered(rest) && meant[2..] == Meant(rest);
      assert low[1] == 0 && meant[1] == w.1 && low[0] == meant[0];
      assert low == low[..2] + low[2..] && meant == meant[..2] + meant[2..];
      assert words == [w] + rest;
    }
  }

  /** A word read from flash arrives upper byte first and leaves everything as it was. */
  lemma WordRead(part: Part, d: Device, a: nat)
    requires a % 2 == 0 && a < 0x8000 && a + 2 <= |d.flash.mem|
    ensures var s := [AddressCommand(a)] + [Plain('R')];
            && Session(part, d, s) ==
               (d.(curr := a), [[CR], [d.flash.mem[a + 1], d.flash.mem[a]]])
            && Exact(part, d, s)
  {
    hide Session, Exact, AddressCommand, Plain;
    AddressStep(part, d, a, [Plain('R')]);
    PlainStep(part, d.(curr := a), 'R', [], d.(curr := a), [d.flash.mem[a + 1], d.flash.mem[a]]);
    assert [Plain('R')] + [] == [Plain('R')];
    SessionEnd(part, d.(curr := a));
    assert [[CR]] + ([[d.flash.mem[a + 1], d.flash.mem[a]]] + []) == [[CR], [d.flash.mem[a + 1], d.flash.mem[a]]];
  }

  // ---- Identification ---------------------------------------------------------

  /** Commands that only ask, unknown ones included. */
  predicate Asks(c: char) {
    c < 256 as char && c != 'B' && c != 'g' && c != 'E' && !OnFlash(c) && !OnAddress(c) && !TakesArgument(c)
  }

  function Questions(cs: string): seq<seq<byte>>
    requires forall c :: c in cs ==> Asks(c)
  {
    if cs == "" then [] else
      assert Asks(cs[0]);
      [Plain(cs[0])] + Questions(cs[1..])
  }

  function Replies(part: Part, d: Device, cs: string): (rs: seq<seq<byte>>)
    requires forall c :: c in cs ==> Asks(c)
    ensures |rs| == |cs|
  {
    seq(|cs|, i requires 0 <= i < |cs| => assert Asks(cs[i]); InfoAnswer(part, d, cs[i] as int))
  }

  lemma RepliesCons(part: Part, d: Device, cs: string)
    requires cs != "" && forall c :: c in cs ==> Asks(c)
    ensures Asks(cs[0])
    ensures Replies(part, d, cs) == [InfoAnswer(part, d, cs[0] as int)] + Replies(part, d, cs[1..])
  {
    hide InfoAnswer;
  }

  /** Any run of questions leaves the device as it is. */
  lemma {:induction false} QuestionsAnswered(part: Part, d: Device, cs: string)
    requires forall c :: c in cs ==> Asks(c)
    ensures Session(part, d, Questions(cs)) == (d, Replies(part, d, cs)) && Exact(part, d, Questions(cs))
    decreases |cs|
  {
    if cs == "" {
      SessionEnd(part, d);
    } else {
      hide Session, Exact, Plain, InfoAnswer;
      var c := cs[0];
      RepliesCons(part, d, cs);
      QuestionsAnswered(part, d, cs[1..]);
      PlainStep(part, d, c, Questions(cs[1..]), d, InfoAnswer(part, d, c as int));
    }
  }

  /** The block size that the host is told, upper byte first, is the page size of the flash it writes to. */
  lemma BlockSizeTold(part: Part, d: Device)
    ensures var (e, answers) := Session(part, d, Questions("b"));
            && e == d && |answers| == 1 && |answers[0]| == 3 && answers[0][0] == 'Y' as int
            && Word(answers[0][2], answers[0][1]) == d.flash.Page()
  {
    hide Session;
    QuestionsAnswered(part, d, "b");
    assert Replies(part, d, "b")[0] == InfoAnswer(part, d, 'b' as int);
  }

  /** The identifier that the programmer looks for, the version, and the part code that stands for every part. */
  lemma IdentityTold(part: Part, d: Device)
    ensures var s, v, t := InfoAnswer(part, d, 'S' as int), InfoAnswer(part, d, 'V' as int),
                           InfoAnswer(part, d, 't' as int);
            && |s| == 7 && (forall i :: 0 <= i < 7 ==> s[i] == "LUFACDC"[i] as int)
            && |v| == 2 && (forall i :: 0 <= i < 2 ==> v[i] == "10"[i] as int)
            && t == [0x44, 0]
  {
    assert "LUFACDC"[0] == 'L' && "LUFACDC"[1] == 'U' && "LUFACDC"[2] == 'F' && "LUFACDC"[3] == 'A';
    assert "LUFACDC"[4] == 'C' && "LUFACDC"[5] == 'D' && "LUFACDC"[6] == 'C';
  }

  /** The questions that the bootloader knows. */
  const KNOWN := "tapSVsrFNQbPL"

  /** Other questions are refused, except the synchronisation byte, which is not answered. */
  lemma UnknownRefused(part: Part, d: Device, c: char)
    requires Asks(c) && c !in KNOWN
    ensures Session(part, d, Questions([c])) == (d, if c as int == 27 then [[]] else [['?' as int]])
  {
    hide Session, InfoAnswer;
    QuestionsAnswered(part, d, [c]);
    assert Replies(part, d, [c]) == [InfoAnswer(part, d, c as int)];
    AnswerKinds(part, d, c);
  }

  lemma AnswerKinds(part: Part, d: Device, c: char)
    requires Asks(c) && c !in KNOWN
    ensures InfoAnswer(part, d, c as int) == if c as int == 27 then [] else ['?' as int]
  {
  }

  // ---- Leaving ----------------------------------------------------------------

  /** The bootloader is left by the exit command and no other, in any session whatever. */
  lemma {:induction false} LeftIff(part: Part, d: Device, commands: seq<seq<byte>>)
    ensures Session(part, d, commands).0.run <==>
            d.run && forall c :: c in commands ==> Next(c) != 'E' as int
    decreases commands
  {
    if commands != [] {
      hide Execute, Next, Rest;
      var c, rest := commands[0], commands[1..];
      RunKept(part, d, Next(c), Rest(c));
      LeftIff(part, Execute(part, d, Next(c), Rest(c)).device, rest);
      assert commands == [c] + rest;
    }
  }

  lemma RunKept(part: Part, d: Device, c: byte, s: seq<byte>)
    ensures Execute(part, d, c, s).device.run <==> d.run && c != 'E' as int
  {
    hide InfoAnswer, ReadFlash, FillFlash, ReadEeprom, WriteEeprom, Next, Rest, EraseFrom, Fill, Write, Erase, Word;
  }

  /** Commands with an argument that is not used take exactly that argument and change nothing. */
  lemma ArgumentTaken(part: Part, d: Device, c: char, b: byte)
    requires c < 256 as char && TakesArgument(c)
    ensures Session(part, d, [WithByte(c, b)]) == (d, [[CR]]) && Exact(part, d, [WithByte(c, b)])
  {
    hide Session, Exact, WithByte;
    ByteStep(part, d, c, b, [], d, [CR]);
    assert [WithByte(c, b)] + [] == [WithByte(c, b)] && [[CR]] + [] == [[CR]];
    SessionEnd(part, d);
  }
}
