/**
 What the Printer bootloader makes of any records at all: it works on one page at a time,
 whatever address a word has, and moves to another page only after writing this one.
 */
module PrinterPages {
  import opened Avr
  import opened Basics
  import opened Bits
  import opened IntelHex
  import opened Printer

  // ---- Pages ------------------------------------------------------------------

  /**
   Memory, the page at PageStartAddress, the bytes that wait in the temporary buffer, and
   whether that page is open: erased, to be written once the address leaves it. What `mem`
   has in an open page is lost.
   */
  datatype Pages = Pages(mem: seq<byte>, start: nat, waiting: seq<byte>, open: bool)

  predicate Valid(p: nat, m: Pages) {
    (p == 128 || p == 256) && Aligned(p, |m.mem|) && Aligned(p, m.start) && |m.waiting| == p
  }

  /** Memory with a page replaced, if there is such a page. */
  function Replaced(mem: seq<byte>, start: nat, page: seq<byte>): (r: seq<byte>)
    ensures |r| == |mem|
  {
    if start + |page| <= |mem| then Put(mem, start, page) else mem
  }

  function FlashOf(p: nat, m: Pages): (f: Flash)
    requires Valid(p, m)
    ensures f.Page() == p && |f.mem| == |m.mem|
  {
    Flash(if m.open then Replaced(m.mem, m.start, Blank(p)) else m.mem, m.waiting)
  }

  /** A page with a word put in the place of address `x`. */
  function Overlay(page: seq<byte>, x: nat, lo: byte, hi: byte): (r: seq<byte>)
    requires |page| == 128 || |page| == 256
    ensures |r| == |page|
  {
    var o := x - Base(|page|, x);
    var e := o - o % 2;
    page[e := lo][e + 1 := hi]
  }

  /** The address has come to `y`: the open page is written if `y` lies outside it. */
  function Crossed(p: nat, m: Pages, y: nat): (n: Pages)
    requires Valid(p, m)
    ensures Valid(p, n) && |n.mem| == |m.mem|
  {
    if !m.open || Base(p, y) == m.start then m
    else
      BaseAligned(p, y);
      Pages(Replaced(m.mem, m.start, m.waiting), Base(p, y), Blank(p), false)
  }

  /** A word at `x`: into the page at PageStartAddress, whatever `x` is. */
  function Step(p: nat, m: Pages, x: nat, lo: byte, hi: byte): (n: Pages)
    requires Valid(p, m)
    ensures Valid(p, n) && |n.mem| == |m.mem| && n.start == Base(p, x + 2)
  {
    Crossed(p, m.(waiting := Overlay(m.waiting, x, lo, hi), open := true), x + 2)
  }

  /** A record given up at BOOT_START_ADDR: the open page is closed without being written. */
  function Abandoned(p: nat, m: Pages): (n: Pages)
    requires Valid(p, m)
    ensures Valid(p, n) && |n.mem| == |m.mem|
    ensures n.start == m.start && !n.open && FlashOf(p, n) == FlashOf(p, m)
  {
    m.(mem := FlashOf(p, m).mem, open := false)
  }

  /** Words one after the other from `x` on. */
  function Words(p: nat, m: Pages, x: nat, d: seq<byte>): (n: Pages)
    requires Valid(p, m) && |d| % 2 == 0
    ensures Valid(p, n) && |n.mem| == |m.mem| && (d != [] ==> n.start == Base(p, x + |d|))
    decreases |d|
  {
    if d == [] then m else Words(p, Step(p, m, x, d[0], d[1]), x + 2, d[2..])
  }

  /** PrevData once the data `d` has been read: the lower byte of its last word. */
  function Stale(prev: byte, d: seq<byte>): byte {
    if |d| < 2 then prev else d[|d| - 2]
  }

  /** The data of a record as it is cut into words: in front of an odd one stands a stale byte. */
  function Padded(stale: byte, d: seq<byte>): (w: seq<byte>)
    ensures |w| % 2 == 0 && |w| == |d| + |d| % 2
  {
    if |d| % 2 == 0 then d else [stale] + d
  }

  /** How many of `n` bytes from `x` on are stored before the address reaches BOOT_START_ADDR. */
  function Limit(boot: nat, x: nat, n: nat): (k: nat)
    ensures k <= n && k % 2 == 0
    decreases n
  {
    if n < 2 || x >= boot then 0 else 2 + Limit(boot, x + 2, n - 2)
  }

  /** CurrBaseAddress after the words `w` of a record: set by the last of them, in extended address records. */
  function BaseAfter(base: nat, kind: byte, w: seq<byte>): nat {
    if |w| < 2 then base
    else
      var word := Word(w[|w| - 2], w[|w| - 1]);
      if kind == EXTENDED_SEGMENT then word * 16 else if kind == EXTENDED_LINEAR then word * 0x10000 else base
  }

  /** The pages, PrevData and CurrBaseAddress. */
  datatype Load = Load(pages: Pages, stale: byte, base: nat)

  /** The address of a record. */
  function At(l: Load, r: Record): nat {
    (l.base + r.addr) % U32
  }

  /** A data record: its words below BOOT_START_ADDR, and if there are others it is given up. */
  function TakeData(p: nat, boot: nat, l: Load, x: nat, w: seq<byte>): (m: Load)
    requires Valid(p, l.pages) && |w| % 2 == 0
    ensures Valid(p, m.pages) && |m.pages.mem| == |l.pages.mem|
  {
    var k := Limit(boot, x, |w|);
    var pages := Words(p, l.pages, x, w[..k]);
    l.(pages := if k == |w| then pages else Abandoned(p, pages), stale := Stale(l.stale, w[..k]))
  }

  function TakeRecord(p: nat, boot: nat, l: Load, r: Record): (m: Load)
    requires Valid(p, l.pages)
    ensures Valid(p, m.pages) && |m.pages.mem| == |l.pages.mem|
  {
    var w := Padded(l.stale, r.data);
    if r.data == [] then l.(pages := Crossed(p, l.pages, At(l, r)))
    else if r.kind == DATA then TakeData(p, boot, l, At(l, r), w)
    else if At(l, r) >= boot then l.(pages := Abandoned(p, l.pages))
    else Load(Crossed(p, l.pages, At(l, r)), Stale(l.stale, w), BaseAfter(l.base, r.kind, w))
  }

  /** A record that ends the bootloader. */
  predicate Ends(boot: nat, l: Load, r: Record) {
    r.kind == END_OF_FILE && (r.data == [] || At(l, r) < boot)
  }

  function TakeRecords(p: nat, boot: nat, l: Load, rs: seq<Record>): (m: Load)
    requires Valid(p, l.pages)
    ensures Valid(p, m.pages) && |m.pages.mem| == |l.pages.mem|
    decreases rs
  {
    if rs == [] then l else TakeRecords(p, boot, TakeRecord(p, boot, l, rs[0]), rs[1..])
  }

  /** Some record of the file ends the bootloader. */
  predicate Ended(p: nat, boot: nat, l: Load, rs: seq<Record>)
    requires Valid(p, l.pages)
    decreases rs
  {
    rs != [] && (Ends(boot, l, rs[0]) || Ended(p, boot, TakeRecord(p, boot, l, rs[0]), rs[1..]))
  }

  lemma {:induction false} TakeRecordsAppend(p: nat, boot: nat, l: Load, rs: seq<Record>, more: seq<Record>)
    requires Valid(p, l.pages)
    ensures TakeRecords(p, boot, l, rs + more) == TakeRecords(p, boot, TakeRecords(p, boot, l, rs), more)
    ensures Ended(p, boot, l, rs + more) <==>
            Ended(p, boot, l, rs) || Ended(p, boot, TakeRecords(p, boot, l, rs), more)
    decreases rs
  {
    hide Valid, TakeRecord, Ends;
    if rs == [] {
      assert rs + more == more;
    } else {
      assert (rs + more)[1..] == rs[1..] + more && (rs + more)[0] == rs[0];
      TakeRecordsAppend(p, boot, TakeRecord(p, boot, l, rs[0]), rs[1..], more);
    }
  }

  lemma {:induction false} LimitAll(boot: nat, x: nat, n: nat)
    requires n % 2 == 0 && x + n <= boot + 1
    ensures Limit(boot, x, n) == n
    decreases n
  {
    if n >= 2 {
      EvenAtLeast(n);
      LimitAll(boot, x + 2, n - 2);
    }
  }

  lemma OneRecord(p: nat, boot: nat, l: Load, r: Record)
    requires Valid(p, l.pages)
    ensures TakeRecords(p, boot, l, [r]) == TakeRecord(p, boot, l, r)
    ensures Ended(p, boot, l, [r]) <==> Ends(boot, l, r)
  {
    hide TakeRecord, Valid, Ends;
  }

  // ---- The parser on pages ----------------------------------------------------

  /** The flash, PageStartAddress and PageDirty of the parser. */
  predicate Holds(s: Parser, m: Pages) {
    var p := s.flash.Page();
    && Valid(p, m) && s.flash == FlashOf(p, m)
    && s.pageStart == m.start && s.pageDirty == m.open
  }

  /** Writing the erased page leaves what was waiting for it. */
  lemma PageWritten(p: nat, m: Pages)
    requires Valid(p, m) && m.open
    ensures Write(FlashOf(p, m), m.start) == Flash(Replaced(m.mem, m.start, m.waiting), Blank(p))
  {
    hide Put, Programmed, Base;
    var page := m.waiting;
    var g := FlashOf(p, m);
    assert Base(p, m.start) == m.start;
    if m.start + p <= |m.mem| {
      assert page + Blank(0) == page;
      CommitPage(Flash(m.mem, Blank(p)), g, m.start, page);
    }
  }

  lemma FlushHolds(s: Parser, m: Pages)
    requires Holds(s, m)
    ensures Holds(FlushIfRequired(s), Crossed(s.flash.Page(), m, s.currAddr))
  {
    hide Base, Aligned, Write, Put, Blank;
    var p := s.flash.Page();
    if m.open && Base(p, s.currAddr) != m.start {
      PageWritten(p, m);
      BaseAligned(p, s.currAddr);
    }
  }

  lemma EraseHolds(p: nat, m: Pages)
    requires Valid(p, m) && !m.open
    ensures Erase(FlashOf(p, m), m.start) == FlashOf(p, m.(open := true))
  {
    hide Put, Base;
    assert Base(p, m.start) == m.start;
  }

  lemma FillHolds(g: Flash, x: nat, lo: byte, hi: byte)
    ensures Fill(g, x, Word(lo, hi)) == g.(buf := Overlay(g.buf, x, lo, hi))
  {
    hide Base, Lo, Hi, Word;
    WordParts(lo, hi);
  }

  lemma StoreWordHolds(s: Parser, m: Pages, lo: byte, hi: byte)
    requires Holds(s, m) && s.currAddr + 2 < U32
    ensures Holds(StoreWord(s, Word(lo, hi)), Step(s.flash.Page(), m, s.currAddr, lo, hi))
  {
    hide Base, Aligned, Erase, Fill, Write, Put, Blank, Word, Overlay, FlushIfRequired, Crossed;
    var p, x := s.flash.Page(), s.currAddr;
    if !s.pageDirty {
      EraseHolds(p, m);
    }
    var erased := if s.pageDirty then s.flash else Erase(s.flash, s.pageStart);
    FillHolds(erased, x, lo, hi);
    var t := s.(flash := Fill(erased, x, Word(lo, hi)), pageDirty := true, currAddr := x + 2);
    FlushHolds(t, m.(waiting := Overlay(m.waiting, x, lo, hi), open := true));
  }

  // ---- The header and the checksum of a record --------------------------------

  /** The parser after the colon, the byte count, the address and the record type. */
  function AfterHeader(s: Parser, r: Record): Parser {
    s.(state := if r.data == [] then Checksum else ReadData, readMsb := false,
       data := r.kind, recordType := r.kind, dataRem := |r.data|,
       checksum := Sum(Fields(r)[..4]) % 256, currAddr := (s.baseAddr + r.addr) % U32)
  }

  lemma HeaderStates(boot: nat, s: Parser, n: byte, hi: byte, lo: byte, kind: byte)
    requires s.state.ByteCount? && s.checksum == 0 && !s.readMsb
    ensures var s1 := TakeByte(boot, s.(data := n));
            var s2 := TakeByte(boot, s1.(data := hi));
            var s3 := TakeByte(boot, s2.(data := lo));
            && s1.state.AddressHigh? && s2.state.AddressLow? && s3.state.RecordType?
            && !s1.readMsb && !s2.readMsb && !s3.readMsb
            && TakeByte(boot, s3.(data := kind)) ==
               s.(state := if n == 0 then Checksum else ReadData, data := kind, recordType := kind,
                  dataRem := n, checksum := (((n + hi) % 256 + lo) % 256 + kind) % 256,
                  currAddr := ((s.currAddr + hi * 256) % U32 + lo) % U32)
  {
    hide TakeByte;
    CountByte(boot, s, n);
    var s1 := TakeByte(boot, s.(data := n));
    HighByte(boot, s1, hi);
    var s2 := TakeByte(boot, s1.(data := hi));
    LowByte(boot, s2, lo);
    KindByte(boot, TakeByte(boot, s2.(data := lo)), kind);
  }

  lemma CountByte(boot: nat, s: Parser, n: byte)
    requires s.state.ByteCount? && s.checksum == 0
    ensures TakeByte(boot, s.(data := n)) == s.(data := n, checksum := n, dataRem := n, state := AddressHigh)
  {
    hide TakeDataByte, TakeChecksum;
  }

  lemma HighByte(boot: nat, s: Parser, hi: byte)
    requires s.state.AddressHigh?
    ensures TakeByte(boot, s.(data := hi)) ==
            s.(data := hi, checksum := (s.checksum + hi) % 256, state := AddressLow,
               currAddr := (s.currAddr + hi * 256) % U32)
  {
    hide TakeDataByte, TakeChecksum;
  }

  lemma LowByte(boot: nat, s: Parser, lo: byte)
    requires s.state.AddressLow?
    ensures TakeByte(boot, s.(data := lo)) ==
            s.(data := lo, checksum := (s.checksum + lo) % 256, state := RecordType,
               currAddr := (s.currAddr + lo) % U32)
  {
    hide TakeDataByte, TakeChecksum;
  }

  lemma KindByte(boot: nat, s: Parser, kind: byte)
    requires s.state.RecordType?
    ensures TakeByte(boot, s.(data := kind)) ==
            s.(data := kind, checksum := (s.checksum + kind) % 256, recordType := kind,
               state := if s.dataRem != 0 then ReadData else Checksum)
  {
    hide TakeDataByte, TakeChecksum;
  }

  lemma HeaderArithmetic(base: nat, addr: nat, n: nat, hi: nat, lo: nat, kind: nat)
    requires addr == hi * 256 + lo
    ensures (((n + hi) % 256 + lo) % 256 + kind) % 256 == (n + hi + lo + kind) % 256
    ensures ((base + hi * 256) % U32 + lo) % U32 == (base + addr) % U32
  {
    Mod256Add(n + hi, lo);
    Mod256Add(n + hi + lo, kind);
  }

  lemma HeaderFields(r: Record, n: byte, hi: byte, lo: byte, c: byte)
    requires n == |r.data| && hi == r.addr / 256 && lo == r.addr % 256
    ensures Fields(r) + [c] == [n] + ([hi] + ([lo] + ([r.kind] + (r.data + [c]))))
  {
  }

  lemma FeedColon(boot: nat, s: Parser, cs: string)
    ensures FeedAll(boot, s, [':'] + cs) == FeedAll(boot, Feed(boot, s, ':'), cs)
  {
    assert ([':'] + cs)[1..] == cs;
  }

  lemma HeaderRead(boot: nat, s: Parser, r: Record)
    ensures FeedAll(boot, s, Text(r)) ==
            FeedAll(boot, AfterHeader(s, r), HexBytes(r.data + [CheckByte(Fields(r))]))
  {
    hide CheckByte, HexBytes, TakeByte, Sum, Fields, AfterHeader, FeedAll;
    var tail := r.data + [CheckByte(Fields(r))];
    var n, hi, lo := |r.data| as byte, (r.addr / 256) as byte, (r.addr % 256) as byte;
    var s0 := Feed(boot, s, ':');
    HeaderFields(r, n, hi, lo, CheckByte(Fields(r)));
    FeedColon(boot, s, HexBytes(Fields(r) + [CheckByte(Fields(r))]));
    HeaderStates(boot, s0, n, hi, lo, r.kind);
    var s1 := TakeByte(boot, s0.(data := n));
    var s2 := TakeByte(boot, s1.(data := hi));
    var s3 := TakeByte(boot, s2.(data := lo));
    FeedHexBytes(boot, s0, n, [hi] + ([lo] + ([r.kind] + tail)));
    FeedHexBytes(boot, s1, hi, [lo] + ([r.kind] + tail));
    FeedHexBytes(boot, s2, lo, [r.kind] + tail);
    FeedHexBytes(boot, s3, r.kind, tail);
    HeaderDone(boot, s, r, n, hi, lo);
  }

  lemma HeaderDone(boot: nat, s: Parser, r: Record, n: byte, hi: byte, lo: byte)
    requires n == |r.data| && hi == r.addr / 256 && lo == r.addr % 256
    ensures AfterHeader(s, r) ==
            var s := Feed(boot, s, ':');
            s.(state := if n == 0 then Checksum else ReadData, data := r.kind, recordType := r.kind,
               dataRem := n, checksum := (((n + hi) % 256 + lo) % 256 + r.kind) % 256,
               currAddr := ((s.currAddr + hi * 256) % U32 + lo) % U32)
  {
    hide TakeByte, Sum;
    HeaderSum(r, n, hi, lo);
    HeaderArithmetic(s.baseAddr, r.addr, n, hi, lo, r.kind);
  }

  lemma HeaderSum(r: Record, n: byte, hi: byte, lo: byte)
    requires n == |r.data| && hi == r.addr / 256 && lo == r.addr % 256
    ensures Sum(Fields(r)[..4]) == n + hi + lo + r.kind
  {
    assert Fields(r)[..4] == [n, hi, lo, r.kind];
    assert [n, hi, lo, r.kind][..3] == [n, hi, lo];
    assert [n, hi, lo][..2] == [n, hi];
    assert [n, hi][..1] == [n];
    assert Sum([n]) == n by { assert [n][..0] == []; }
    assert Sum([n, hi]) == n + hi;
    assert Sum([n, hi, lo]) == n + hi + lo;
  }

  lemma RemStep(n: nat)
    requires 1 <= n < 256
    ensures (n + 255) % 256 == n - 1
  {
  }

  lemma FirstDataByte(boot: nat, s: Parser, lo: byte)
    requires s.state.ReadData? && s.currAddr < boot && s.dataRem >= 2 && s.dataRem % 2 == 0
    ensures TakeByte(boot, s.(data := lo)) ==
            s.(data := lo, prevData := lo, dataRem := s.dataRem - 1, checksum := (s.checksum + lo) % 256)
  {
    hide StoreWord, Word;
    RemStep(s.dataRem);
  }

  lemma SecondDataByte(boot: nat, s: Parser, hi: byte)
    requires s.state.ReadData? && s.recordType == DATA && s.currAddr < boot && s.dataRem % 2 == 1
    ensures var t := s.(data := hi, dataRem := s.dataRem - 1, checksum := (s.checksum + hi) % 256);
            TakeByte(boot, s.(data := hi)) ==
            if t.dataRem == 0 then StoreWord(t, Word(s.prevData, hi)).(state := Checksum)
            else StoreWord(t, Word(s.prevData, hi))
  {
    hide StoreWord, Word;
    RemStep(s.dataRem);
  }

  /** Two data bytes make one stored word, and the last two end the data. */
  lemma DataWord(boot: nat, s: Parser, lo: byte, hi: byte)
    requires s.state.ReadData? && s.recordType == DATA && s.currAddr < boot
    requires s.dataRem >= 2 && s.dataRem % 2 == 0
    ensures var t := s.(prevData := lo, data := hi, dataRem := s.dataRem - 2,
                        checksum := (s.checksum + lo + hi) % 256);
            TakeByte(boot, TakeByte(boot, s.(data := lo)).(data := hi)) ==
            if t.dataRem == 0 then StoreWord(t, Word(lo, hi)).(state := Checksum)
            else StoreWord(t, Word(lo, hi))
  {
    hide StoreWord, TakeByte, Word;
    FirstDataByte(boot, s, lo);
    SecondDataByte(boot, TakeByte(boot, s.(data := lo)), hi);
    Mod256Add(s.checksum + lo, hi);
  }

  lemma NoBytes(boot: nat, s: Parser)
    ensures FeedAll(boot, s, HexBytes([])) == s
  {
  }

  lemma SumTwo(c: nat, lo: byte, hi: byte, rest: seq<byte>)
    ensures ((c + lo + hi) % 256 + Sum(rest)) % 256 == (c + Sum([lo, hi] + rest)) % 256
  {
    SumAppend([lo, hi], rest);
    assert [lo, hi][..1] == [lo] && [lo][..0] == [];
    assert Sum([lo]) == lo;
    Mod256Add(c + lo + hi, Sum(rest));
  }

  lemma SumOne(c: nat, b: byte, rest: seq<byte>)
    ensures ((c + b) % 256 + Sum(rest)) % 256 == (c + Sum([b] + rest)) % 256
  {
    SumAppend([b], rest);
    SumSnoc([], b);
    SumEmpty();
    assert [] + [b] == [b];
    Mod256Add(c + b, Sum(rest));
  }

  lemma RecordSum(r: Record)
    ensures (Sum(Fields(r)[..4]) % 256 + Sum(r.data)) % 256 == Sum(Fields(r)) % 256
  {
    assert Fields(r) == Fields(r)[..4] + r.data;
    SumAppend(Fields(r)[..4], r.data);
    Mod256Add(Sum(Fields(r)[..4]), Sum(r.data));
  }

  lemma ChecksumByte(boot: nat, t: Parser, c: byte)
    requires t.state.Checksum? && !t.readMsb
    ensures FeedAll(boot, t, HexBytes([c])) == TakeChecksum(t.(data := c))
  {
    hide TakeChecksum;
    FeedHexBytes(boot, t, c, []);
    assert [c] + [] == [c];
  }

  /** The checksum of a record, after its data. */
  lemma ChecksumTaken(boot: nat, s: Parser, r: Record, t: Parser)
    requires t == FeedAll(boot, AfterHeader(s, r), HexBytes(r.data))
    requires t.state.Checksum? && !t.readMsb
    requires t.checksum == (AfterHeader(s, r).checksum + Sum(r.data)) % 256
    ensures var c := CheckByte(Fields(r));
            && FeedAll(boot, s, Text(r)) == TakeChecksum(t.(data := c))
            && c == (256 - t.checksum) % 256
  {
    hide HexBytes, FeedAll, Sum, TakeChecksum, Text;
    var c := CheckByte(Fields(r));
    HeaderRead(boot, s, r);
    HexBytesAppend(r.data, [c]);
    FeedAppend(boot, AfterHeader(s, r), HexBytes(r.data), HexBytes([c]));
    RecordSum(r);
    ChecksumByte(boot, t, c);
  }

  lemma FlushFrame(s: Parser)
    ensures var t := FlushIfRequired(s);
            && t == s.(flash := t.flash, pageStart := t.pageStart, pageDirty := t.pageDirty)
            && t.flash.Page() == s.flash.Page()
  {
    hide Base, Write;
  }

  // ---- Records given up -------------------------------------------------------

  /** What outlives a record: `t` is as `s` in everything that records work on. */
  predicate Lasting(s: Parser, t: Parser) {
    && t.flash == s.flash && t.pageStart == s.pageStart && t.pageDirty == s.pageDirty
    && t.prevData == s.prevData && t.baseAddr == s.baseAddr && t.run == s.run
  }

  lemma {:induction false} WaitIgnores(boot: nat, s: Parser, cs: string)
    requires s.state.WaitLine? && ':' !in cs
    ensures var t := FeedAll(boot, s, cs); t.state.WaitLine? && Lasting(s, t)
    decreases cs
  {
    hide TakeByte;
    if cs != [] {
      WaitIgnores(boot, Feed(boot, s, cs[0]), cs[1..]);
    }
  }

  lemma {:induction false} NoColon(bs: seq<byte>)
    ensures ':' !in HexBytes(bs)
  {
    if bs != [] {
      NoColon(bs[1..]);
    }
  }

  /** A data byte at or above BOOT_START_ADDR, and all that follows in the record. */
  lemma GivenUp(boot: nat, s: Parser, m: Pages, d: seq<byte>)
    requires Holds(s, m) && s.state.ReadData? && !s.readMsb && s.currAddr >= boot && d != []
    ensures var t := FeedAll(boot, s, HexBytes(d));
            && t.state.WaitLine? && Holds(t, Abandoned(s.flash.Page(), m)) && t.flash.Page() == s.flash.Page()
            && t.prevData == s.prevData && t.baseAddr == s.baseAddr && t.run == s.run
  {
    hide FeedAll, HexBytes, Base, Aligned, Put, Blank;
    var b, rest := d[0], d[1..];
    assert d == [b] + rest;
    FeedHexBytes(boot, s, b, rest);
    NoColon(rest);
    WaitIgnores(boot, TakeByte(boot, s.(data := b)), HexBytes(rest));
  }

  // ---- Data records -----------------------------------------------------------

  /** The parser inside a data record, about to store a word at `x`. */
  predicate InData(s: Parser, m: Pages, x: nat, rem: nat) {
    && Holds(s, m) && s.recordType == DATA && !s.readMsb
    && s.state == (if rem == 0 then Checksum else ReadData)
    && s.dataRem == rem && rem % 2 == 0 && s.currAddr == x
    && (rem == 0 ==> m.start == Base(s.flash.Page(), x))
  }

  /** `t` has the page size, base address and run flag of `s`. */
  predicate Steady(s: Parser, t: Parser) {
    t.flash.Page() == s.flash.Page() && t.baseAddr == s.baseAddr && t.run == s.run
  }

  lemma WordStored(boot: nat, s: Parser, m: Pages, lo: byte, hi: byte, rest: seq<byte>)
    requires |rest| + 2 < 256 && InData(s, m, s.currAddr, |rest| + 2) && s.currAddr < boot <= U32 - 2
    ensures var t := TakeByte(boot, TakeByte(boot, s.(data := lo)).(data := hi));
            && FeedAll(boot, s, HexBytes([lo] + ([hi] + rest))) == FeedAll(boot, t, HexBytes(rest))
            && InData(t, Step(s.flash.Page(), m, s.currAddr, lo, hi), s.currAddr + 2, |rest|)
            && Steady(s, t) && t.checksum == (s.checksum + lo + hi) % 256 && t.prevData == lo
  {
    hide StoreWord, TakeByte, Base, HexBytes, FeedAll, Valid, FlashOf, Step;
    FeedHexBytes(boot, s, lo, [hi] + rest);
    FirstDataByte(boot, s, lo);
    FeedHexBytes(boot, TakeByte(boot, s.(data := lo)), hi, rest);
    DataWord(boot, s, lo, hi);
    var u := s.(prevData := lo, data := hi, dataRem := s.dataRem - 2,
                checksum := (s.checksum + lo + hi) % 256);
    StoreWordHolds(u, m, lo, hi);
    StoreWordFrame(u, Word(lo, hi));
    StoreWordPage(u, Word(lo, hi));
  }

  lemma StoreWordPage(s: Parser, w: nat)
    ensures StoreWord(s, w).flash.Page() == s.flash.Page()
  {
    hide Base, Put, Lo, Hi;
  }

  /** The parser once the words `w` from `x` on, `stale` in PrevData before them, have been read. */
  predicate WordsRead(boot: nat, s: Parser, m: Pages, x: nat, w: seq<byte>, stale: byte, sum: nat, t: Parser)
    requires |w| % 2 == 0 && Valid(s.flash.Page(), m)
  {
    var k := Limit(boot, x, |w|);
    var n := Words(s.flash.Page(), m, x, w[..k]);
    && Steady(s, t) && t.prevData == Stale(stale, w[..k])
    && (if k == |w| then InData(t, n, x + |w|, 0) && t.checksum == sum % 256
        else t.state.WaitLine? && Holds(t, Abandoned(s.flash.Page(), n)))
  }

  lemma {:induction false} WordsStored(boot: nat, s: Parser, m: Pages, x: nat, d: seq<byte>)
    requires |d| < 256 && InData(s, m, x, |d|) && boot <= U32 - 2
    ensures WordsRead(boot, s, m, x, d, s.prevData, s.checksum + Sum(d), FeedAll(boot, s, HexBytes(d)))
    decreases d
  {
    hide TakeByte, Sum, HexBytes, FeedAll, Valid, FlashOf, Step, Base;
    if d == [] {
      NoBytes(boot, s);
      SumEmpty();
      NoWordsRead(boot, s, m, x, s.checksum);
    } else if x >= boot {
      GivenUp(boot, s, m, d);
      NoneStored(boot, s, m, x, d, s.checksum + Sum(d), FeedAll(boot, s, HexBytes(d)));
    } else {
      var lo, hi, rest := d[0], d[1], d[2..];
      assert d == [lo] + ([hi] + rest) == [lo, hi] + rest;
      WordStored(boot, s, m, lo, hi, rest);
      var t := TakeByte(boot, TakeByte(boot, s.(data := lo)).(data := hi));
      WordsStored(boot, t, Step(s.flash.Page(), m, x, lo, hi), x + 2, rest);
      SumTwo(s.checksum, lo, hi, rest);
      WordsReadOn(boot, s, t, m, x, lo, hi, rest, lo, s.prevData, t.checksum + Sum(rest), s.checksum + Sum(d),
                  FeedAll(boot, t, HexBytes(rest)));
    }
  }

  lemma NoWordsRead(boot: nat, s: Parser, m: Pages, x: nat, sum: nat)
    requires InData(s, m, x, 0) && s.checksum == sum
    ensures WordsRead(boot, s, m, x, [], s.prevData, sum, s)
  {
    hide Valid, FlashOf, Base;
  }

  lemma NoneStored(boot: nat, s: Parser, m: Pages, x: nat, w: seq<byte>, sum: nat, t: Parser)
    requires Valid(s.flash.Page(), m) && x >= boot && w != [] && |w| % 2 == 0
    requires Steady(s, t) && t.prevData == s.prevData && t.state.WaitLine? && Holds(t, Abandoned(s.flash.Page(), m))
    ensures WordsRead(boot, s, m, x, w, s.prevData, sum, t)
  {
    hide Valid, Holds, Abandoned;
    assert w[..0] == [];
  }

  lemma WordsReadOn(boot: nat, s: Parser, t: Parser, m: Pages, x: nat, lo: byte, hi: byte, rest: seq<byte>,
                    prev: byte, stale: byte, more: nat, sum: nat, u: Parser)
    requires Valid(s.flash.Page(), m) && Steady(s, t) && x < boot && |rest| % 2 == 0 && prev == lo
    requires WordsRead(boot, t, Step(s.flash.Page(), m, x, lo, hi), x + 2, rest, prev, more, u)
    requires more % 256 == sum % 256
    ensures WordsRead(boot, s, m, x, [lo, hi] + rest, stale, sum, u)
  {
    hide Valid, Holds, Abandoned, Step, InData;
    var w := [lo, hi] + rest;
    var k := Limit(boot, x + 2, |rest|);
    EvenSum(2, |rest|);
    assert Limit(boot, x, |w|) == 2 + k;
    assert w[..2 + k] == [lo, hi] + rest[..k];
    FirstWord(s.flash.Page(), m, x, lo, hi, rest[..k]);
  }

  lemma FirstWord(p: nat, m: Pages, x: nat, lo: byte, hi: byte, rest: seq<byte>)
    requires Valid(p, m) && |rest| % 2 == 0
    ensures Words(p, m, x, [lo, hi] + rest) == Words(p, Step(p, m, x, lo, hi), x + 2, rest)
    ensures Stale(0, [lo, hi] + rest) == Stale(lo, rest)
  {
    hide Valid, Step;
    assert ([lo, hi] + rest)[2..] == rest;
  }

  /** The first byte of an odd record completes a word with the stale PrevData. */
  lemma OddByteStored(boot: nat, s: Parser, m: Pages, b: byte, rest: seq<byte>)
    requires Holds(s, m) && s.recordType == DATA && !s.readMsb && s.state.ReadData?
    requires s.dataRem == |rest| + 1 && |rest| % 2 == 0 && s.currAddr < boot <= U32 - 2
    ensures var t := TakeByte(boot, s.(data := b));
            && FeedAll(boot, s, HexBytes([b] + rest)) == FeedAll(boot, t, HexBytes(rest))
            && InData(t, Step(s.flash.Page(), m, s.currAddr, s.prevData, b), s.currAddr + 2, |rest|)
            && Steady(s, t) && t.checksum == (s.checksum + b) % 256 && t.prevData == s.prevData
  {
    hide StoreWord, TakeByte, Base, HexBytes, FeedAll, Valid, FlashOf, Step, Word;
    FeedHexBytes(boot, s, b, rest);
    SecondDataByte(boot, s, b);
    var u := s.(data := b, dataRem := |rest|, checksum := (s.checksum + b) % 256);
    StoreWordHolds(u, m, s.prevData, b);
    StoreWordFrame(u, Word(s.prevData, b));
    StoreWordPage(u, Word(s.prevData, b));
  }

  /** The data of a record, of any length at any address. */
  lemma DataStored(boot: nat, s: Parser, m: Pages, x: nat, d: seq<byte>)
    requires Holds(s, m) && s.recordType == DATA && !s.readMsb && s.state.ReadData?
    requires s.currAddr == x && 0 < |d| == s.dataRem < 256 && boot <= U32 - 2
    ensures WordsRead(boot, s, m, x, Padded(s.prevData, d), s.prevData, s.checksum + Sum(d),
                      FeedAll(boot, s, HexBytes(d)))
  {
    hide FeedAll, HexBytes, Sum, TakeByte, Valid, FlashOf, Step, Base, WordsRead;
    if |d| % 2 == 0 {
      WordsStored(boot, s, m, x, d);
    } else if x >= boot {
      GivenUp(boot, s, m, d);
      NoneStored(boot, s, m, x, Padded(s.prevData, d), s.checksum + Sum(d), FeedAll(boot, s, HexBytes(d)));
    } else {
      var b, rest := d[0], d[1..];
      assert d == [b] + rest && [s.prevData] + d == [s.prevData, b] + rest;
      OddByteStored(boot, s, m, b, rest);
      var t := TakeByte(boot, s.(data := b));
      WordsStored(boot, t, Step(s.flash.Page(), m, x, s.prevData, b), x + 2, rest);
      SumOne(s.checksum, b, rest);
      WordsReadOn(boot, s, t, m, x, s.prevData, b, rest, t.prevData, s.prevData, t.checksum + Sum(rest),
                  s.checksum + Sum(d), FeedAll(boot, t, HexBytes(rest)));
    }
  }

  // ---- Records of other types -------------------------------------------------

  lemma SecondOtherByte(boot: nat, s: Parser, hi: byte)
    requires s.state.ReadData? && s.recordType != DATA && s.currAddr < boot && s.dataRem % 2 == 1
    ensures TakeByte(boot, s.(data := hi)) ==
            s.(data := hi, dataRem := s.dataRem - 1, checksum := (s.checksum + hi) % 256,
               baseAddr := BaseAfter(s.baseAddr, s.recordType, [s.prevData, hi]),
               state := if s.dataRem == 1 then Checksum else ReadData)
  {
    hide Word;
    RemStep(s.dataRem);
  }

  /** The parser once the words `w` of a record that holds no data have been read. */
  predicate OthersRead(s: Parser, w: seq<byte>, stale: byte, sum: nat, t: Parser) {
    && t.flash == s.flash && t.pageStart == s.pageStart && t.pageDirty == s.pageDirty && t.run == s.run
    && t.recordType == s.recordType && t.currAddr == s.currAddr && t.state.Checksum? && !t.readMsb
    && t.prevData == Stale(stale, w) && t.baseAddr == BaseAfter(s.baseAddr, s.recordType, w)
    && t.checksum == sum % 256
  }

  /** The parser inside such a record. */
  predicate InOther(boot: nat, s: Parser, rem: nat) {
    && s.recordType != DATA && !s.readMsb && s.currAddr < boot
    && s.state == (if rem == 0 then Checksum else ReadData) && s.dataRem == rem
  }

  lemma {:induction false} OtherWords(boot: nat, s: Parser, d: seq<byte>)
    requires |d| < 256 && |d| % 2 == 0 && InOther(boot, s, |d|)
    ensures OthersRead(s, d, s.prevData, s.checksum + Sum(d), FeedAll(boot, s, HexBytes(d)))
    decreases d
  {
    hide TakeByte, Sum, HexBytes, FeedAll, BaseAfter;
    if d == [] {
      NoBytes(boot, s);
      SumEmpty();
      NoBase(s.baseAddr, s.recordType);
    } else {
      var lo, hi, rest := d[0], d[1], d[2..];
      assert d == [lo] + ([hi] + rest) == [lo, hi] + rest;
      FeedHexBytes(boot, s, lo, [hi] + rest);
      FirstDataByte(boot, s, lo);
      var u := TakeByte(boot, s.(data := lo));
      FeedHexBytes(boot, u, hi, rest);
      SecondOtherByte(boot, u, hi);
      Mod256Add(s.checksum + lo, hi);
      var t := TakeByte(boot, u.(data := hi));
      OtherWords(boot, t, rest);
      SumTwo(s.checksum, lo, hi, rest);
      BaseOn(s.baseAddr, s.recordType, lo, hi, rest);
    }
  }

  lemma NoBase(base: nat, kind: byte)
    ensures BaseAfter(base, kind, []) == base
  {
  }

  lemma BaseOn(base: nat, kind: byte, lo: byte, hi: byte, rest: seq<byte>)
    requires |rest| % 2 == 0
    ensures BaseAfter(BaseAfter(base, kind, [lo, hi]), kind, rest) == BaseAfter(base, kind, [lo, hi] + rest)
    ensures Stale(0, [lo, hi] + rest) == Stale(lo, rest)
  {
    hide Word;
  }

  /** The data of a record of another type, of any length. */
  lemma OtherStored(boot: nat, s: Parser, d: seq<byte>)
    requires 0 < |d| < 256 && InOther(boot, s, |d|)
    ensures OthersRead(s, Padded(s.prevData, d), s.prevData, s.checksum + Sum(d), FeedAll(boot, s, HexBytes(d)))
  {
    hide TakeByte, Sum, HexBytes, FeedAll, BaseAfter;
    if |d| % 2 == 0 {
      OtherWords(boot, s, d);
    } else {
      var b, rest := d[0], d[1..];
      assert d == [b] + rest && [s.prevData] + d == [s.prevData, b] + rest;
      FeedHexBytes(boot, s, b, rest);
      SecondOtherByte(boot, s, b);
      var t := TakeByte(boot, s.(data := b));
      OtherWords(boot, t, rest);
      SumOne(s.checksum, b, rest);
      BaseOn(s.baseAddr, s.recordType, s.prevData, b, rest);
    }
  }

  // ---- Any record -------------------------------------------------------------

  /** The parser between records. */
  predicate Between(s: Parser, p: nat, l: Load) {
    && s.flash.Page() == p && Holds(s, l.pages)
    && s.prevData == l.stale && s.baseAddr == l.base
  }

  lemma HeaderKeeps(s: Parser, r: Record, m: Pages)
    requires Holds(s, m)
    ensures Holds(AfterHeader(s, r), m)
  {
    hide Valid, FlashOf;
  }

  /** The checksum of a record that was read to its end. */
  lemma RecordEnds(boot: nat, s: Parser, p: nat, r: Record, t: Parser, m: Load)
    requires t == FeedAll(boot, AfterHeader(s, r), HexBytes(r.data))
    requires t.state.Checksum? && !t.readMsb && t.recordType == r.kind
    requires t.checksum == (AfterHeader(s, r).checksum + Sum(r.data)) % 256
    requires Between(t, p, m) && t.run == s.run
    ensures var u := FeedAll(boot, s, Text(r));
            && Valid(p, m.pages) && Between(u, p, m.(pages := Crossed(p, m.pages, t.currAddr)))
            && u.run == (s.run && r.kind != END_OF_FILE)
  {
    hide FeedAll, HexBytes, Sum, Text, Valid, FlashOf, Base, FlushIfRequired, Crossed, AfterHeader;
    ChecksumTaken(boot, s, r, t);
    var c := t.(data := CheckByte(Fields(r)));
    FlushHolds(c, m.pages);
    FlushFrame(c);
  }

  /** A record that was given up: its checksum goes unread. */
  lemma RecordLost(boot: nat, s: Parser, p: nat, r: Record, t: Parser, m: Load)
    requires t == FeedAll(boot, AfterHeader(s, r), HexBytes(r.data))
    requires t.state.WaitLine? && Between(t, p, m) && t.run == s.run
    ensures var u := FeedAll(boot, s, Text(r)); Between(u, p, m) && u.run == s.run
  {
    hide FeedAll, HexBytes, Sum, Text, Valid, FlashOf, AfterHeader;
    var c := CheckByte(Fields(r));
    HeaderRead(boot, s, r);
    HexBytesAppend(r.data, [c]);
    FeedAppend(boot, AfterHeader(s, r), HexBytes(r.data), HexBytes([c]));
    NoColon([c]);
    WaitIgnores(boot, t, HexBytes([c]));
  }

  lemma DataRecordTaken(boot: nat, s: Parser, p: nat, l: Load, r: Record)
    requires Between(s, p, l) && r.kind == DATA && r.data != [] && boot <= U32 - 2
    ensures var u := FeedAll(boot, s, Text(r));
            Between(u, p, TakeData(p, boot, l, At(l, r), Padded(l.stale, r.data))) && u.run == s.run
  {
    hide FeedAll, HexBytes, Sum, Text, Valid, FlashOf, Words, Base, Abandoned, Limit;
    var h, x, w := AfterHeader(s, r), At(l, r), Padded(l.stale, r.data);
    HeaderKeeps(s, r, l.pages);
    DataStored(boot, h, l.pages, x, r.data);
    var t, k := FeedAll(boot, h, HexBytes(r.data)), Limit(boot, x, |w|);
    var m := TakeData(p, boot, l, x, w);
    if k == |w| {
      RecordEnds(boot, s, p, r, t, m);
      Unmoved(p, m.pages, t.currAddr);
    } else {
      RecordLost(boot, s, p, r, t, m);
    }
  }

  lemma Unmoved(p: nat, m: Pages, y: nat)
    requires Valid(p, m) && m.start == Base(p, y)
    ensures Crossed(p, m, y) == m
  {
    hide Base;
  }

  lemma OtherRecordTaken(boot: nat, s: Parser, p: nat, l: Load, r: Record)
    requires Between(s, p, l) && r.kind != DATA && r.data != []
    ensures var u := FeedAll(boot, s, Text(r));
            Between(u, p, TakeRecord(p, boot, l, r)) && u.run == (s.run && !Ends(boot, l, r))
  {
    hide FeedAll, HexBytes, Sum, Text, Valid, FlashOf, Base, Abandoned, Crossed, BaseAfter;
    var h, w := AfterHeader(s, r), Padded(l.stale, r.data);
    HeaderKeeps(s, r, l.pages);
    var t := FeedAll(boot, h, HexBytes(r.data));
    if At(l, r) >= boot {
      GivenUp(boot, h, l.pages, r.data);
      RecordLost(boot, s, p, r, t, l.(pages := Abandoned(p, l.pages)));
    } else {
      OtherStored(boot, h, r.data);
      RecordEnds(boot, s, p, r, t, Load(l.pages, Stale(l.stale, w), BaseAfter(l.base, r.kind, w)));
    }
  }

  lemma EmptyRecordTaken(boot: nat, s: Parser, p: nat, l: Load, r: Record)
    requires Between(s, p, l) && r.data == []
    ensures var u := FeedAll(boot, s, Text(r));
            Between(u, p, TakeRecord(p, boot, l, r)) && u.run == (s.run && !Ends(boot, l, r))
  {
    hide FeedAll, HexBytes, Sum, Text, Valid, FlashOf, Base, Crossed;
    var h := AfterHeader(s, r);
    HeaderKeeps(s, r, l.pages);
    NoBytes(boot, h);
    SumEmpty();
    RecordEnds(boot, s, p, r, h, l);
  }

  /** Every record with a right checksum, of any type and length, at any address. */
  lemma RecordTaken(boot: nat, s: Parser, p: nat, l: Load, r: Record)
    requires Between(s, p, l) && boot <= U32 - 2
    ensures var u := FeedAll(boot, s, Text(r));
            && Valid(p, l.pages) && Between(u, p, TakeRecord(p, boot, l, r))
            && u.run == (s.run && !Ends(boot, l, r))
  {
    hide FeedAll, Text, Valid, FlashOf, Abandoned, Crossed, TakeData, Holds;
    BetweenValid(s, p, l);
    if r.data == [] {
      EmptyRecordTaken(boot, s, p, l, r);
    } else if r.kind == DATA {
      DataRecordTaken(boot, s, p, l, r);
    } else {
      OtherRecordTaken(boot, s, p, l, r);
    }
  }

  lemma BetweenValid(s: Parser, p: nat, l: Load)
    requires Between(s, p, l)
    ensures Valid(p, l.pages)
  {
  }

  // ---- Whole files ------------------------------------------------------------

  lemma TextsCons(r: Record, rs: seq<Record>)
    ensures Flatten(Texts([r] + rs)) == Text(r) + Flatten(Texts(rs))
  {
    hide Text;
    assert ([r] + rs)[1..] == rs;
    assert ([Text(r)] + Texts(rs))[1..] == Texts(rs);
  }

  lemma {:induction false} RecordsTaken(boot: nat, s: Parser, p: nat, l: Load, rs: seq<Record>)
    requires Between(s, p, l) && boot <= U32 - 2
    ensures var t := FeedAll(boot, s, Flatten(Texts(rs)));
            && Valid(p, l.pages) && Between(t, p, TakeRecords(p, boot, l, rs))
            && t.run == (s.run && !Ended(p, boot, l, rs))
    decreases rs
  {
    hide Text, Between, TakeRecord, Valid, Ends;
    BetweenValid(s, p, l);
    if rs == [] {
      assert Flatten(Texts(rs)) == [];
    } else {
      hide FeedAll, Texts;
      var r, rest := rs[0], rs[1..];
      assert rs == [r] + rest;
      TextsCons(r, rest);
      FeedAppend(boot, s, Text(r), Flatten(Texts(rest)));
      RecordTaken(boot, s, p, l, r);
      RecordsTaken(boot, FeedAll(boot, s, Text(r)), p, TakeRecord(p, boot, l, r), rest);
    }
  }

  /** Nothing read yet. */
  function Fresh(f: Flash): (l: Load)
    ensures Valid(f.Page(), l.pages)
  {
    Load(Pages(f.mem, 0, f.buf, false), 0, 0)
  }

  lemma FreshBetween(f: Flash)
    ensures Between(Reset(f), f.Page(), Fresh(f))
  {
  }

  /**
   Every file of records with right checksums, whatever their types, lengths, addresses and
   order, with any noise: flash is what the records make of the pages, and the bootloader has
   ended if and only if one of them ends it.
   */
  lemma FileTaken(boot: nat, f: Flash, rs: seq<Record>, stream: string)
    requires boot <= U32 - 2 && Strip(stream) == Flatten(Texts(rs))
    ensures var p, t := f.Page(), FeedAll(boot, Reset(f), stream);
            && t.flash == FlashOf(p, TakeRecords(p, boot, Fresh(f), rs).pages)
            && t.run == !Ended(p, boot, Fresh(f), rs)
  {
    hide FeedAll, Texts, Strip, TakeRecords, Ended, FlashOf, Valid, Fresh;
    FreshBetween(f);
    NoiseIgnored(boot, Reset(f), Reset(f), stream);
    RecordsTaken(boot, Reset(f), f.Page(), Fresh(f), rs);
  }

  // ---- Files of data records --------------------------------------------------

  /** A file of data records and an end record with address field `a`. */
  predicate File(rs: seq<Record>, a: nat, stream: string) {
    && a < 0x10000 && (forall r :: r in rs ==> r.kind == DATA)
    && Strip(stream) == Flatten(Texts(rs + [Record(a, END_OF_FILE, [])]))
  }

  /** A data record that ends at or below BOOT_START_ADDR. */
  predicate Below(boot: nat, r: Record) {
    r.kind == DATA && r.addr + |r.data| <= boot
  }

  /** Such a record is stored completely. */
  lemma BelowTaken(p: nat, boot: nat, l: Load, r: Record)
    requires Valid(p, l.pages) && l.base == 0 && Below(boot, r) && r.data != []
    ensures var w := Padded(l.stale, r.data);
            TakeRecord(p, boot, l, r) == Load(Words(p, l.pages, r.addr, w), Stale(l.stale, w), 0)
  {
    hide Valid, Words, Limit;
    var w := Padded(l.stale, r.data);
    LimitAll(boot, r.addr, |w|);
    assert w[..|w|] == w;
  }

  lemma {:induction false} DataKeepsBase(p: nat, boot: nat, l: Load, rs: seq<Record>)
    requires Valid(p, l.pages) && forall r :: r in rs ==> r.kind == DATA
    ensures TakeRecords(p, boot, l, rs).base == l.base && !Ended(p, boot, l, rs)
    decreases rs
  {
    hide Valid, Words, Crossed, Abandoned, Limit;
    if rs != [] {
      DataKeepsBase(p, boot, TakeRecord(p, boot, l, rs[0]), rs[1..]);
    }
  }

  /**
   Every file of data records and an end record: the bootloader ends, and flash is what the
   records make of the pages, the open page written if the end record's address lies outside it.
   */
  lemma DataFileTaken(boot: nat, f: Flash, rs: seq<Record>, a: nat, stream: string)
    requires boot <= U32 - 2 && File(rs, a, stream)
    ensures var p, t := f.Page(), FeedAll(boot, Reset(f), stream);
            !t.run && t.flash == FlashOf(p, Crossed(p, TakeRecords(p, boot, Fresh(f), rs).pages, a))
  {
    hide FeedAll, Texts, Strip, TakeRecords, Ended, FlashOf, Crossed, Valid;
    var p := f.Page();
    var last: Record := Record(a, END_OF_FILE, []);
    var l := TakeRecords(p, boot, Fresh(f), rs);
    FileTaken(boot, f, rs + [last], stream);
    TakeRecordsAppend(p, boot, Fresh(f), rs, [last]);
    DataKeepsBase(p, boot, Fresh(f), rs);
    OneRecord(p, boot, l, last);
  }
}
