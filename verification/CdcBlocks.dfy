/**
 Block writes and reads with the self-advancing address of the CDC bootloader.
 */
module CdcBlocks {
  import opened Avr
  import opened Basics
  import opened Bits
  import opened Cdc

  /** The header of a block command: command, size, memory type. */
  function Header(command: char, size: nat, kind: char): (h: seq<byte>)
    requires command < 256 as char && kind < 256 as char
    ensures |h| == 4
  {
    [command as int, Hi(size), Lo(size), kind as int]
  }

  function AddressCommand(a: nat): (h: seq<byte>)
    ensures |h| == 3
  {
    ['A' as int, Hi(a / 2), Lo(a / 2)]
  }

  /** Block writes of the given memory, one after the other. */
  function Writes(kind: char, blocks: seq<seq<byte>>): seq<seq<byte>>
    requires kind < 256 as char
  {
    if blocks == [] then [] else [Header('B', |blocks[0]|, kind) + blocks[0]] + Writes(kind, blocks[1..])
  }

  /** Block reads of the given sizes. */
  function Reads(kind: char, sizes: seq<nat>): seq<seq<byte>>
    requires kind < 256 as char
  {
    if sizes == [] then [] else [Header('g', sizes[0], kind)] + Reads(kind, sizes[1..])
  }

  function Total(sizes: seq<nat>): nat {
    if sizes == [] then 0 else sizes[0] + Total(sizes[1..])
  }

  /** `n` answers of a single carriage return. */
  function Returns(n: nat): (r: seq<seq<byte>>)
    ensures |r| == n
  {
    if n == 0 then [] else [[CR]] + Returns(n - 1)
  }

  lemma WritesCons(kind: char, b: seq<byte>, rest: seq<seq<byte>>, tail: seq<seq<byte>>)
    requires kind < 256 as char
    ensures Writes(kind, [b] + rest) + tail == [Header('B', |b|, kind) + b] + (Writes(kind, rest) + tail)
  {
    hide Header;
    assert ([b] + rest)[1..] == rest;
  }

  lemma ReadsCons(kind: char, n: nat, rest: seq<nat>, tail: seq<seq<byte>>)
    requires kind < 256 as char
    ensures Reads(kind, [n] + rest) + tail == [Header('g', n, kind)] + (Reads(kind, rest) + tail)
  {
    hide Header;
    assert ([n] + rest)[1..] == rest;
  }

  // ---- One command ------------------------------------------------------------

  lemma StreamBytes(a: byte, b: byte, c: byte, t: seq<byte>)
    ensures var s := [a, b, c] + t;
            Next(s) == a && Next(Rest(s)) == b && Next(Rest(Rest(s))) == c && Rest(Rest(Rest(s))) == t
  {
    var s := [a, b, c] + t;
    assert s[1..] == [b, c] + t && ([b, c] + t)[1..] == [c] + t && ([c] + t)[1..] == t;
  }

  /** What filling the buffer leaves: the page open with `data`, the address after it, the rest. */
  predicate Filled(f: Flash, b: nat, data: seq<byte>, rest: seq<byte>, r: (Flash, nat, seq<byte>)) {
    Filling(f, r.0, b, data) && r.1 == b + |data| && r.2 == rest
  }

  lemma {:induction false} FillFlashFills(f: Flash, g: Flash, b: nat, curr: nat, data: seq<byte>, more: seq<byte>,
                                          tail: seq<byte>, low: byte)
    requires Filling(f, g, b, data) && |data| + |more| <= f.Page() && |f.mem| <= 0x2_0000
    requires curr == b + |data| && curr % 2 == 0 && |more| % 2 == 0
    ensures Filled(f, b, data + more, tail, FillFlash(g, curr, false, low, |more|, more + tail))
    decreases |more|
  {
    hide Fill, Filling;
    if more == [] {
      assert more + tail == tail && data + more == data;
    } else {
      hide FillFlash, Filled;
      var lo, hi, more' := more[0], more[1], more[2..];
      assert more == [lo, hi] + more' && more + tail == [lo, hi] + (more' + tail);
      FillingBounds(f, g, b, data);
      FillStep(f, g, b, data, lo, hi);
      FillFlashFills(f, Fill(g, curr, Word(lo, hi)), b, curr + 2, data + [lo, hi], more', tail, lo);
      FillFlashWord(g, curr, curr + 2, low, lo, hi, |more|, more' + tail);
      Assoc(data, [lo, hi], more');
    }
  }

  lemma FillFlashWord(g: Flash, curr: nat, next: nat, low: byte, lo: byte, hi: byte, n: nat, t: seq<byte>)
    requires curr % 2 == 0 && next % 2 == 0 && next == curr + 2 < U32 && n >= 2
    ensures FillFlash(g, curr, false, low, n, [lo, hi] + t) ==
            FillFlash(Fill(g, curr, Word(lo, hi)), next, false, lo, n - 2, t)
  {
    hide Fill, Word, Next, Rest;
    TwoBytes(lo, hi, t);
    assert Advance(curr) == next;
  }

  lemma FillingBounds(f: Flash, g: Flash, b: nat, data: seq<byte>)
    requires Filling(f, g, b, data)
    ensures b + f.Page() <= |f.mem| && |data| % 2 == 0
  {
  }

  lemma TwoBytes(lo: byte, hi: byte, t: seq<byte>)
    ensures var s := [lo, hi] + t;
            Next(s) == lo && Next(Rest(s)) == hi && Rest(Rest(s)) == t
  {
    var s := [lo, hi] + t;
    assert s[1..] == [hi] + t && ([hi] + t)[1..] == t;
  }

  /** A block command is understood as its header says. */
  lemma BlockUnderstood(part: Part, d: Device, write: bool, n: nat, kind: char, tail: seq<byte>)
    requires n < 0x10000 && kind < 256 as char
    ensures var c := if write then 'B' else 'g';
            var s := Header(c, n, kind) + tail;
            Execute(part, d, Next(s), Rest(s)) == TransferBlock(d, write, n, kind, tail)
  {
    hide TransferBlock, Next, Rest;
    var c := if write then 'B' else 'g';
    var s := Header(c, n, kind) + tail;
    assert s == [c as int] + ([Hi(n), Lo(n), kind as int] + tail);
    OneByte(c as int, [Hi(n), Lo(n), kind as int] + tail);
    StreamBytes(Hi(n), Lo(n), kind as int, tail);
    assert Word(Lo(n), Hi(n)) == n;
  }

  /** The address after `n` bytes. */
  function Past(curr: nat, n: nat): (a: nat)
    requires curr % 2 == 0 && n % 2 == 0 && curr + n < U32
    ensures a % 2 == 0 && a < U32
  {
    curr + n
  }

  /** Writing a block of at most a page, of even size, at a page boundary. */
  lemma FlashBlockWritten(d: Device, data: seq<byte>, tail: seq<byte>)
    requires BufferBlank(d.flash) && Aligned(d.flash.Page(), d.curr) && d.curr < |d.flash.mem| <= 0x2_0000
    requires 0 < |data| <= d.flash.Page() && |data| % 2 == 0
    ensures TransferBlock(d, true, |data|, 'F', data + tail) ==
            Reply(d.(flash := Committed(d.flash, d.curr, data), curr := Past(d.curr, |data|)), [CR], tail)
  {
    hide FillFlash, Put, Erase, Write, Loaded;
    var f, n := d.flash, |data|;
    AlignedGap(f.Page(), d.curr, |f.mem|);
    StartFilling(f, d.curr);
    FillFlashFills(f, Erase(f, d.curr), d.curr, d.curr, [], data, tail, 0);
    assert [] + data == data;
    var (g, curr, rest) := FillFlash(Erase(f, d.curr), d.curr, false, 0, n, data + tail);
    CommitPage(f, g, d.curr, data);
    LoadedPage(f.Page(), f.mem, d.curr, data);
  }

  lemma {:induction false} ReadFlashReads(f: Flash, curr: nat, n: nat)
    requires curr % 2 == 0 && n % 2 == 0 && curr + n <= |f.mem| <= 0x2_0000
    ensures ReadFlash(f, curr, false, n) == (f.mem[curr..curr + n], curr + n)
    decreases n
  {
    if n == 0 {
      assert f.mem[curr..curr] == [];
    } else {
      hide ReadFlash;
      ReadFlashReads(f, curr + 2, n - 2);
      ReadFlashWord(f, curr, n);
      assert f.mem[curr..curr + n] == [f.mem[curr], f.mem[curr + 1]] + f.mem[curr + 2..curr + n];
    }
  }

  lemma ReadFlashWord(f: Flash, curr: nat, n: nat)
    requires curr % 2 == 0 && 2 <= n && curr + n <= |f.mem| <= 0x2_0000
    ensures var (bs, last) := ReadFlash(f, curr + 2, false, n - 2);
            ReadFlash(f, curr, false, n) == ([f.mem[curr], f.mem[curr + 1]] + bs, last)
  {
    var (bs, last) := ReadFlash(f, curr + 2, false, n - 2);
    assert ReadFlash(f, curr, true, n - 1) == ([f.mem[curr + 1]] + bs, last);
    assert [f.mem[curr]] + ([f.mem[curr + 1]] + bs) == [f.mem[curr], f.mem[curr + 1]] + bs;
  }

  lemma FlashBlockRead(d: Device, n: nat, tail: seq<byte>)
    requires n % 2 == 0 && d.curr + n <= |d.flash.mem| <= 0x2_0000
    ensures TransferBlock(d, false, n, 'F', tail) ==
            Reply(d.(curr := d.curr + n), d.flash.mem[d.curr..d.curr + n], tail)
  {
    hide ReadFlash;
    ReadFlashReads(d.flash, d.curr, n);
  }

  // ---- Runs of commands -------------------------------------------------------

  /** A command at the head of a session. */
  lemma SessionStep(part: Part, d: Device, c: seq<byte>, rest: seq<seq<byte>>, e: Device, answer: seq<byte>)
    requires Execute(part, d, Next(c), Rest(c)) == Reply(e, answer, [])
    ensures var next := Session(part, e, rest);
            Session(part, d, [c] + rest) == (next.0, [answer] + next.1)
    ensures Exact(part, d, [c] + rest) == Exact(part, e, rest)
  {
    hide Execute;
    assert ([c] + rest)[1..] == rest;
  }

  lemma AddressStep(part: Part, d: Device, a: nat, rest: seq<seq<byte>>)
    requires a % 2 == 0 && a < 0x8000
    ensures var next := Session(part, d.(curr := a), rest);
            Session(part, d, [AddressCommand(a)] + rest) == (next.0, [[CR]] + next.1)
    ensures Exact(part, d, [AddressCommand(a)] + rest) == Exact(part, d.(curr := a), rest)
  {
    hide SetAddress, Session, Exact;
    AddressSet(a);
    TwoBytes(Hi(a / 2), Lo(a / 2), []);
    var s := [Hi(a / 2), Lo(a / 2)];
    assert AddressCommand(a) == ['A' as int] + s && s + [] == s;
    OneByte('A' as int, s);
    SessionStep(part, d, AddressCommand(a), rest, d.(curr := a), [CR]);
  }

  /** One block write at the head of a session. */
  lemma WriteStep(part: Part, d: Device, kind: char, b: seq<byte>, rest: seq<seq<byte>>, e: Device)
    requires |b| < 0x10000 && kind < 256 as char
    requires TransferBlock(d, true, |b|, kind, b) == Reply(e, [CR], [])
    ensures var next := Session(part, e, rest);
            Session(part, d, [Header('B', |b|, kind) + b] + rest) == (next.0, [[CR]] + next.1)
    ensures Exact(part, d, [Header('B', |b|, kind) + b] + rest) == Exact(part, e, rest)
  {
    hide Session, Exact, Execute, TransferBlock;
    BlockUnderstood(part, d, true, |b|, kind, b);
    SessionStep(part, d, Header('B', |b|, kind) + b, rest, e, [CR]);
  }

  /** The device after programming `data` from `start` over the flash `f`. */
  function AfterWrites(d: Device, f: Flash, start: nat, data: seq<byte>): Device
    requires (start + |data|) % 2 == 0 && start + |data| < U32
  {
    d.(flash := Committed(f, start, data), curr := start + |data|)
  }

  lemma BlockCommitted(d: Device, f: Flash, start: nat, done: seq<byte>, b: seq<byte>)
    requires Aligned(f.Page(), start + |done|) && start + |done + b| <= |f.mem| <= 0x2_0000 && |b| == f.Page()
    requires (start + |done|) % 2 == 0
    ensures Aligned(f.Page(), start + |done + b|) && (start + |done + b|) % 2 == 0
    ensures TransferBlock(AfterWrites(d, f, start, done), true, |b|, 'F', b) ==
            Reply(AfterWrites(d, f, start, done + b), [CR], [])
  {
    hide TransferBlock, Loaded;
    assert b + [] == b;
    FlashBlockWritten(AfterWrites(d, f, start, done), b, []);
    AlignedSum(f.Page(), start + |done|, f.Page());
    LoadedAppend(f.Page(), f.mem, start, done, b);
  }

  lemma EvenTotal(start: nat, done: seq<byte>, f: Flash, blocks: seq<seq<byte>>)
    requires (start + |done|) % 2 == 0 && forall b :: b in blocks ==> |b| == f.Page()
    ensures (start + |done + Flatten(blocks)|) % 2 == 0
  {
    hide Flatten;
    EvenFlatten(blocks);
  }

  /** Page-sized block writes from a page boundary on; `whole` is all that is written. */
  lemma {:induction false} WritesLoad(part: Part, d: Device, f: Flash, start: nat, done: seq<byte>,
                                      blocks: seq<seq<byte>>, whole: seq<byte>, tail: seq<seq<byte>>)
    requires forall b :: b in blocks ==> |b| == f.Page()
    requires Aligned(f.Page(), start + |done|) && (start + |done|) % 2 == 0 && (start + |whole|) % 2 == 0
    requires whole == done + Flatten(blocks) && start + |whole| <= |f.mem| <= 0x2_0000
    ensures var next := Session(part, AfterWrites(d, f, start, whole), tail);
            Session(part, AfterWrites(d, f, start, done), Writes('F', blocks) + tail) ==
            (next.0, Returns(|blocks|) + next.1)
    ensures Exact(part, AfterWrites(d, f, start, done), Writes('F', blocks) + tail) ==
            Exact(part, AfterWrites(d, f, start, whole), tail)
    decreases blocks
  {
    hide Session, Exact, AfterWrites, TransferBlock, Aligned;
    var next := Session(part, AfterWrites(d, f, start, whole), tail);
    if blocks == [] {
      assert Writes('F', blocks) + tail == tail && whole == done;
      assert Returns(0) + next.1 == next.1;
    } else {
      hide Writes, Header, Flatten;
      var b, rest := blocks[0], blocks[1..];
      assert blocks == [b] + rest;
      FlattenCons(b, rest);
      Assoc(done, b, Flatten(rest));
      BlockCommitted(d, f, start, done, b);
      WritesCons('F', b, rest, tail);
      WriteStep(part, AfterWrites(d, f, start, done), 'F', b, Writes('F', rest) + tail,
                AfterWrites(d, f, start, done + b));
      WritesLoad(part, d, f, start, done + b, rest, whole, tail);
      Assoc([[CR]], Returns(|rest|), next.1);
    }
  }

  /** Consecutive pieces of memory of the given sizes. */
  function Slices(m: seq<byte>, a: nat, sizes: seq<nat>): seq<seq<byte>>
    requires a + Total(sizes) <= |m|
    decreases sizes
  {
    if sizes == [] then [] else [m[a..a + sizes[0]]] + Slices(m, a + sizes[0], sizes[1..])
  }

  lemma {:induction false} SlicesJoin(m: seq<byte>, a: nat, sizes: seq<nat>)
    requires a + Total(sizes) <= |m|
    ensures Flatten(Slices(m, a, sizes)) == m[a..a + Total(sizes)]
    decreases sizes
  {
    if sizes == [] {
      assert m[a..a] == [];
    } else {
      var n, t := sizes[0], Total(sizes[1..]);
      hide Flatten;
      SlicesJoin(m, a + n, sizes[1..]);
      FlattenCons(m[a..a + n], Slices(m, a + n, sizes[1..]));
      assert m[a..a + n + t] == m[a..a + n] + m[a + n..a + n + t];
    }
  }

  lemma ReadStep(part: Part, d: Device, kind: char, n: nat, rest: seq<seq<byte>>, e: Device, answer: seq<byte>)
    requires n < 0x10000 && kind < 256 as char
    requires TransferBlock(d, false, n, kind, []) == Reply(e, answer, [])
    ensures var next := Session(part, e, rest);
            Session(part, d, [Header('g', n, kind)] + rest) == (next.0, [answer] + next.1)
    ensures Exact(part, d, [Header('g', n, kind)] + rest) == Exact(part, e, rest)
  {
    hide Session, Exact, Execute, TransferBlock;
    assert Header('g', n, kind) + [] == Header('g', n, kind);
    BlockUnderstood(part, d, false, n, kind, []);
    SessionStep(part, d, Header('g', n, kind), rest, e, answer);
  }

  lemma {:induction false} EvenSizes(sizes: seq<nat>)
    requires forall i :: 0 <= i < |sizes| ==> sizes[i] % 2 == 0
    ensures Total(sizes) % 2 == 0
  {
    if sizes != [] {
      EvenSizes(sizes[1..]);
    }
  }

  /** Block reads of any even sizes return flash from the current address up to `end`. */
  lemma {:induction false} ReadsReturn(part: Part, d: Device, sizes: seq<nat>, end: nat, tail: seq<seq<byte>>)
    requires forall i :: 0 <= i < |sizes| ==> sizes[i] % 2 == 0 && sizes[i] < 0x10000
    requires d.curr + Total(sizes) == end <= |d.flash.mem| <= 0x2_0000 && end % 2 == 0
    ensures var next := Session(part, d.(curr := end), tail);
            Session(part, d, Reads('F', sizes) + tail) == (next.0, Slices(d.flash.mem, d.curr, sizes) + next.1)
    ensures Exact(part, d, Reads('F', sizes) + tail) == Exact(part, d.(curr := end), tail)
    decreases sizes
  {
    hide Session, Exact, TransferBlock;
    var next := Session(part, d.(curr := end), tail);
    if sizes == [] {
      assert Reads('F', sizes) + tail == tail;
      assert [] + next.1 == next.1;
    } else {
      hide Reads, Header;
      var n, rest := sizes[0], sizes[1..];
      assert sizes == [n] + rest;
      FlashBlockRead(d, n, []);
      ReadsCons('F', n, rest, tail);
      var e := d.(curr := d.curr + n);
      var piece := d.flash.mem[d.curr..d.curr + n];
      ReadStep(part, d, 'F', n, Reads('F', rest) + tail, e, piece);
      ReadsReturn(part, e, rest, end, tail);
      Assoc([piece], Slices(d.flash.mem, e.curr, rest), next.1);
    }
  }

  /**
   Flash: set the address to a page boundary, write page-sized blocks, set it again and
   read with any even sizes. Flash holds the blocks one after the other, every other page
   is unchanged, and the reads return the blocks.
   */
  lemma FlashRoundTrip(part: Part, d: Device, start: nat, blocks: seq<seq<byte>>, sizes: seq<nat>)
    requires BufferBlank(d.flash) && Aligned(d.flash.Page(), start) && start < 0x8000 && |d.flash.mem| <= 0x2_0000
    requires forall b :: b in blocks ==> |b| == d.flash.Page()
    requires start + |Flatten(blocks)| <= |d.flash.mem|
    requires forall i :: 0 <= i < |sizes| ==> sizes[i] % 2 == 0 && sizes[i] < 0x10000
    requires Total(sizes) == |Flatten(blocks)|
    ensures var s := [AddressCommand(start)] + (Writes('F', blocks) + ([AddressCommand(start)] + Reads('F', sizes)));
            var (e, answers) := Session(part, d, s);
            var n := |blocks| + 2;
            && e.flash == Committed(d.flash, start, Flatten(blocks))
            && |answers| >= n && answers[..n] == Returns(n) && Flatten(answers[n..]) == Flatten(blocks)
            && Exact(part, d, s)
  {
    hide Session, Exact, AddressCommand, Writes, Reads, Slices, Committed, Flatten, Returns;
    var g := Committed(d.flash, start, Flatten(blocks));
    FlashSession(part, d, start, blocks, sizes);
    SlicesJoin(g.mem, start, sizes);
    CommittedHolds(d.flash, start, Flatten(blocks));
    Answers(|blocks|, Slices(g.mem, start, sizes));
  }

  /** The answers of the round trip, in terms of the flash it leaves. */
  lemma FlashSession(part: Part, d: Device, start: nat, blocks: seq<seq<byte>>, sizes: seq<nat>)
    requires BufferBlank(d.flash) && Aligned(d.flash.Page(), start) && start < 0x8000 && |d.flash.mem| <= 0x2_0000
    requires forall b :: b in blocks ==> |b| == d.flash.Page()
    requires start + |Flatten(blocks)| <= |d.flash.mem|
    requires forall i :: 0 <= i < |sizes| ==> sizes[i] % 2 == 0 && sizes[i] < 0x10000
    requires Total(sizes) == |Flatten(blocks)|
    ensures var s := [AddressCommand(start)] + (Writes('F', blocks) + ([AddressCommand(start)] + Reads('F', sizes)));
            var g := Committed(d.flash, start, Flatten(blocks));
            && |g.mem| == |d.flash.mem| && Session(part, d, s).0.flash == g
            && Session(part, d, s).1 == [[CR]] + (Returns(|blocks|) + ([[CR]] + (Slices(g.mem, start, sizes) + [])))
            && Exact(part, d, s)
  {
    hide Session, Exact, AddressCommand, Writes, Reads, Slices, AfterWrites, Committed, Flatten, Aligned, Returns;
    var f, data, reading := d.flash, Flatten(blocks), Reads('F', sizes);
    EvenStart(f, start);
    AddressStep(part, d, start, Writes('F', blocks) + ([AddressCommand(start)] + reading));
    var d1 := d.(curr := start);
    StartWrites(d1, f, start);
    assert [] + data == data;
    EvenTotal(start, [], f, blocks);
    WritesLoad(part, d1, f, start, [], blocks, data, [AddressCommand(start)] + reading);
    var d2 := AfterWrites(d1, f, start, data);
    WritesFrame(d1, f, start, data);
    AddressStep(part, d2, start, reading);
    var d3 := d2.(curr := start);
    assert reading + [] == reading;
    EvenSizes(sizes);
    ReadsReturn(part, d3, sizes, start + Total(sizes), []);
    SessionEnd(part, d3.(curr := start + Total(sizes)));
  }

  lemma EvenStart(f: Flash, start: nat)
    requires Aligned(f.Page(), start)
    ensures start % 2 == 0
  {
    EvenPages(f.Page(), start);
  }

  lemma StartWrites(d: Device, f: Flash, start: nat)
    requires d.flash == f && BufferBlank(f) && Aligned(f.Page(), start) && start <= |f.mem| && d.curr == start
    ensures AfterWrites(d, f, start, []) == d
  {
    LoadedNothing(f.Page(), f.mem, start);
  }

  lemma WritesFrame(d: Device, f: Flash, start: nat, data: seq<byte>)
    requires (start + |data|) % 2 == 0 && start + |data| < U32
    ensures AfterWrites(d, f, start, data).flash == Committed(f, start, data)
    ensures |Committed(f, start, data).mem| == |f.mem|
  {
  }

  lemma SessionEnd(part: Part, d: Device)
    ensures Session(part, d, []) == (d, []) && Exact(part, d, [])
  {
  }

  lemma Answers(n: nat, reading: seq<seq<byte>>)
    ensures var answers := [[CR]] + (Returns(n) + ([[CR]] + (reading + [])));
            |answers| >= n + 2 && answers[..n + 2] == Returns(n + 2) && answers[n + 2..] == reading
  {
    ReturnsSnoc(n + 1);
    assert Returns(n + 1) == [[CR]] + Returns(n);
  }

  lemma {:induction false} ReturnsSnoc(n: nat)
    ensures Returns(n + 1) == Returns(n) + [[CR]]
  {
    if n > 0 {
      ReturnsSnoc(n - 1);
    }
  }

  // ---- EEPROM -----------------------------------------------------------------

  lemma {:induction false} EepromWritten(e: seq<byte>, a: nat, data: seq<byte>, tail: seq<byte>)
    requires a + |data| <= |e| <= 0x4000
    ensures WriteEeprom(e, 2 * a, |data|, data + tail) == (Put(e, a, data), 2 * (a + |data|), tail)
    decreases |data|
  {
    hide Put;
    if data == [] {
      assert data + tail == tail;
      PutNothing(e, a);
    } else {
      hide WriteEeprom;
      var b, rest := data[0], data[1..];
      assert data + tail == [b] + (rest + tail);
      EepromWriteStep(e, a, |data|, b, rest + tail);
      EepromWritten(e[a := b], a + 1, rest, tail);
      PutNext(e, a, data);
    }
  }

  lemma EepromWriteStep(e: seq<byte>, a: nat, n: nat, b: byte, t: seq<byte>)
    requires a < |e| <= 0x4000 && n > 0
    ensures WriteEeprom(e, 2 * a, n, [b] + t) == WriteEeprom(e[a := b], 2 * (a + 1), n - 1, t)
  {
    OneByte(b, t);
    assert EepromAddress(2 * a) == a && Advance(2 * a) == 2 * (a + 1);
  }

  lemma OneByte(b: byte, t: seq<byte>)
    ensures Next([b] + t) == b && Rest([b] + t) == t
  {
    assert ([b] + t)[1..] == t;
  }

  lemma PutNext(e: seq<byte>, a: nat, data: seq<byte>)
    requires a + |data| <= |e| && data != []
    ensures Put(e[a := data[0]], a + 1, data[1..]) == Put(e, a, data)
  {
  }

  lemma {:induction false} EepromRead(e: seq<byte>, a: nat, n: nat)
    requires a + n <= |e| <= 0x4000
    ensures ReadEeprom(e, 2 * a, n) == (e[a..a + n], 2 * (a + n))
    decreases n
  {
    if n == 0 {
      assert e[a..a] == [];
    } else {
      hide ReadEeprom;
      EepromReadStep(e, a, n);
      EepromRead(e, a + 1, n - 1);
      assert e[a..a + n] == [e[a]] + e[a + 1..a + n];
    }
  }

  lemma EepromReadStep(e: seq<byte>, a: nat, n: nat)
    requires a < |e| <= 0x4000 && n > 0
    ensures var next := ReadEeprom(e, 2 * (a + 1), n - 1);
            ReadEeprom(e, 2 * a, n) == ([e[a]] + next.0, next.1)
  {
    assert EepromAddress(2 * a) == a && Advance(2 * a) == 2 * (a + 1);
  }

  /** The device after EEPROM writes of `data` from address `a` on. */
  function AfterEeprom(d: Device, a: nat, data: seq<byte>): Device
    requires a + |data| <= |d.eeprom| <= 0x4000
  {
    d.(eeprom := Put(d.eeprom, a, data), curr := 2 * (a + |data|))
  }

  lemma EepromBlockWritten(d: Device, a: nat, done: seq<byte>, b: seq<byte>)
    requires a + |done| + |b| <= |d.eeprom| <= 0x4000
    ensures TransferBlock(AfterEeprom(d, a, done), true, |b|, 'E', b) == Reply(AfterEeprom(d, a, done + b), [CR], [])
  {
    hide WriteEeprom, Put;
    assert b + [] == b;
    EepromWritten(AfterEeprom(d, a, done).eeprom, a + |done|, b, []);
    PutPut(d.eeprom, a, done, b);
  }

  lemma {:induction false} EepromWrites(part: Part, d: Device, a: nat, done: seq<byte>, blocks: seq<seq<byte>>,
                                        tail: seq<seq<byte>>)
    requires a + |done + Flatten(blocks)| <= |d.eeprom| <= 0x4000
    ensures var next := Session(part, AfterEeprom(d, a, done + Flatten(blocks)), tail);
            Session(part, AfterEeprom(d, a, done), Writes('E', blocks) + tail) == (next.0, Returns(|blocks|) + next.1)
    ensures Exact(part, AfterEeprom(d, a, done), Writes('E', blocks) + tail) ==
            Exact(part, AfterEeprom(d, a, done + Flatten(blocks)), tail)
    decreases blocks
  {
    hide Session, Exact, AfterEeprom, TransferBlock;
    if blocks == [] {
      assert Writes('E', blocks) + tail == tail && done + Flatten(blocks) == done;
      var next := Session(part, AfterEeprom(d, a, done), tail);
      assert Returns(0) + next.1 == next.1;
    } else {
      var b, rest := blocks[0], blocks[1..];
      hide Writes, Header, Flatten;
      assert blocks == [b] + rest;
      FlattenCons(b, rest);
      Assoc(done, b, Flatten(rest));
      EepromBlockWritten(d, a, done, b);
      var t := Writes('E', rest) + tail;
      WritesCons('E', b, rest, tail);
      WriteStep(part, AfterEeprom(d, a, done), 'E', b, t, AfterEeprom(d, a, done + b));
      EepromWrites(part, d, a, done + b, rest, tail);
      Assoc([[CR]], Returns(|rest|), Session(part, AfterEeprom(d, a, done + Flatten(blocks)), tail).1);
    }
  }

  lemma EepromBlockRead(d: Device, a: nat, n: nat, tail: seq<byte>)
    requires d.curr == 2 * a && a + n <= |d.eeprom| <= 0x4000
    ensures TransferBlock(d, false, n, 'E', tail) == Reply(d.(curr := 2 * (a + n)), d.eeprom[a..a + n], tail)
  {
    hide ReadEeprom;
    EepromRead(d.eeprom, a, n);
  }

  lemma {:induction false} EepromReads(part: Part, d: Device, a: nat, sizes: seq<nat>, tail: seq<seq<byte>>)
    requires forall i :: 0 <= i < |sizes| ==> sizes[i] < 0x10000
    requires d.curr == 2 * a && a + Total(sizes) <= |d.eeprom| <= 0x4000
    ensures var next := Session(part, d.(curr := 2 * (a + Total(sizes))), tail);
            Session(part, d, Reads('E', sizes) + tail) == (next.0, Slices(d.eeprom, a, sizes) + next.1)
    ensures Exact(part, d, Reads('E', sizes) + tail) == Exact(part, d.(curr := 2 * (a + Total(sizes))), tail)
    decreases sizes
  {
    hide Session, Exact, TransferBlock;
    if sizes == [] {
      assert Reads('E', sizes) + tail == tail;
      assert [] + Session(part, d, tail).1 == Session(part, d, tail).1;
    } else {
      var n, rest := sizes[0], sizes[1..];
      hide Reads, Header;
      assert sizes == [n] + rest;
      EepromBlockRead(d, a, n, []);
      var t := Reads('E', rest) + tail;
      ReadsCons('E', n, rest, tail);
      var e := d.(curr := 2 * (a + n));
      var piece := d.eeprom[a..a + n];
      ReadStep(part, d, 'E', n, t, e, piece);
      EepromReads(part, e, a + n, rest, tail);
      Assoc([piece], Slices(d.eeprom, a + n, rest), Session(part, d.(curr := 2 * (a + Total(sizes))), tail).1);
    }
  }

  /** EEPROM: the same round trip with blocks and reads of any size. */
  lemma EepromRoundTrip(part: Part, d: Device, a: nat, blocks: seq<seq<byte>>, sizes: seq<nat>)
    requires a + |Flatten(blocks)| <= |d.eeprom| <= 0x4000 && a < 0x4000
    requires (forall i :: 0 <= i < |sizes| ==> sizes[i] < 0x10000) && Total(sizes) == |Flatten(blocks)|
    ensures var s := [AddressCommand(2 * a)] + (Writes('E', blocks) + ([AddressCommand(2 * a)] + Reads('E', sizes)));
            var (e, answers) := Session(part, d, s);
            var n := |blocks| + 2;
            && e.eeprom == Put(d.eeprom, a, Flatten(blocks)) && e.flash == d.flash
            && |answers| >= n && answers[..n] == Returns(n) && Flatten(answers[n..]) == Flatten(blocks)
            && Exact(part, d, s)
  {
    hide Session, Exact, AddressCommand, Writes, Reads, Slices, Put, Flatten, Returns, Total;
    var data, reading := Flatten(blocks), Reads('E', sizes);
    AddressStep(part, d, 2 * a, Writes('E', blocks) + ([AddressCommand(2 * a)] + reading));
    var d1 := d.(curr := 2 * a);
    PutNothing(d.eeprom, a);
    assert [] + data == data;
    EepromWrites(part, d1, a, [], blocks, [AddressCommand(2 * a)] + reading);
    var d2 := AfterEeprom(d1, a, data);
    AddressStep(part, d2, 2 * a, reading);
    var d3 := d2.(curr := 2 * a);
    assert reading + [] == reading;
    EepromReads(part, d3, a, sizes, []);
    SessionEnd(part, d3.(curr := 2 * (a + Total(sizes))));
    SlicesJoin(d3.eeprom, a, sizes);
    PutHolds(d.eeprom, a, data);
    Answers(|blocks|, Slices(d3.eeprom, a, sizes));
  }

  lemma PutNothing(m: seq<byte>, a: nat)
    requires a <= |m|
    ensures Put(m, a, []) == m
  {
  }

  lemma PutHolds(m: seq<byte>, a: nat, d: seq<byte>)
    requires a + |d| <= |m|
    ensures Put(m, a, d)[a..a + |d|] == d
  {
  }
}
