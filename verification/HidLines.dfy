/**
 What the HID host reads in the printed text of a record.
 */
module HidLines {
  import opened Basics
  import opened Bits
  import opened IntelHex
  import opened HidHost

  lemma {:induction false} HexBytesAt(bs: seq<byte>, k: nat)
    requires k < |bs|
    ensures HexBytes(bs)[2 * k] == HexDigit(bs[k] / 16) && HexBytes(bs)[2 * k + 1] == HexDigit(bs[k] % 16)
  {
    if k > 0 {
      HexBytesAt(bs[1..], k - 1);
    }
  }

  /** `line` spells the bytes `bs` after its colon. */
  predicate Spells(line: string, bs: seq<byte>) {
    |line| >= 1 + 2 * |bs| && line[0] == ':' && line[1..1 + 2 * |bs|] == HexBytes(bs)
  }

  lemma ScanSpelled(line: string, bs: seq<byte>, k: nat)
    requires Spells(line, bs) && k < |bs|
    ensures Nibble(line, 1 + 2 * k) == bs[k] / 16 && Nibble(line, 2 + 2 * k) == bs[k] % 16
    ensures Scan2(line, 1 + 2 * k) == Some(bs[k])
  {
    HexBytesAt(bs, k);
    assert line[1 + 2 * k] == line[1..1 + 2 * |bs|][2 * k];
    assert line[2 + 2 * k] == line[1..1 + 2 * |bs|][2 * k + 1];
    NibbleOfDigit(line, 1 + 2 * k, bs[k] / 16);
    NibbleOfDigit(line, 2 + 2 * k, bs[k] % 16);
  }

  lemma NibbleOfDigit(line: string, at: nat, n: nat)
    requires at < |line| && n < 16 && line[at] == HexDigit(n)
    ensures Nibble(line, at) == n
  {
  }

  lemma {:induction false} ScanBytesSpelled(line: string, bs: seq<byte>, k: nat, n: nat)
    requires Spells(line, bs) && k + n <= |bs|
    ensures ScanBytes(line, 1 + 2 * k, n) == bs[k..k + n]
    decreases n
  {
    hide Spells;
    if n > 0 {
      ScanSpelled(line, bs, k);
      ScanBytesSpelled(line, bs, k + 1, n - 1);
      assert bs[k..k + n] == [bs[k]] + bs[k + 1..k + n];
    }
  }

  lemma TextSpells(r: Record, ending: string)
    ensures Spells(Text(r) + ending, Fields(r) + [CheckByte(Fields(r))])
  {
    var bs := Fields(r) + [CheckByte(Fields(r))];
    assert (Text(r) + ending)[1..1 + 2 * |bs|] == HexBytes(bs);
  }

  /** The header fields of a record's line. */
  lemma HeaderDecoded(r: Record, ending: string)
    ensures var line := Text(r) + ending;
            && |line| >= 11 + 2 * |r.data| && line[0] == ':'
            && Scan2(line, 1) == Some(|r.data|) && Scan4(line, 3) == Some(r.addr) && Scan2(line, 7) == Some(r.kind)
  {
    hide HexBytes, CheckByte, Scan2;
    var line := Text(r) + ending;
    var bs := Fields(r) + [CheckByte(Fields(r))];
    TextSpells(r, ending);
    ScanSpelled(line, bs, 0);
    ScanSpelled(line, bs, 1);
    ScanSpelled(line, bs, 2);
    ScanSpelled(line, bs, 3);
    Scan4Pairs(line, 3, bs[1], bs[2]);
  }

  lemma Scan4Pairs(line: string, at: nat, hi: byte, lo: byte)
    requires Nibble(line, at) == hi / 16 && Nibble(line, at + 1) == hi % 16
    requires Nibble(line, at + 2) == lo / 16 && Nibble(line, at + 3) == lo % 16
    ensures Scan4(line, at) == Some(Word(lo, hi))
  {
    hide Nibble;
    assert hi == hi / 16 * 16 + hi % 16 && lo == lo / 16 * 16 + lo % 16;
  }

  /** A line with these scans is a good data line. */
  lemma LineOfScans(ext: nat, line: string, addr: nat, data: seq<byte>, c: nat)
    requires |data| < 256 && addr < 0x10000 && (addr + ext + |data|) % U32 < MAX_MEMORY_SIZE
    requires |line| >= 11 + 2 * |data| && line[0] == ':'
    requires Scan2(line, 1) == Some(|data|) && Scan4(line, 3) == Some(addr) && Scan2(line, 7) == Some(DATA)
    requires ScanBytes(line, 9, |data|) == data && Scan2(line, 9 + 2 * |data|) == Some(c)
    requires (HeaderSum(|data|, addr, DATA) + Sum(data) + c) % 256 == 0
    ensures Decode(ext, line) == DataLine((addr + ext) % U32, |data|, data, true)
  {
    hide Scan2, Scan4, Sum, ScanBytes, HeaderSum;
  }

  /** The printed text of a data record is read as the record, at any extended address. */
  lemma DataDecoded(ext: nat, r: Record, ending: string)
    requires r.kind == DATA && (r.addr + ext + |r.data|) % U32 < MAX_MEMORY_SIZE
    ensures Decode(ext, Text(r) + ending) == DataLine((r.addr + ext) % U32, |r.data|, r.data, true)
  {
    hide HexBytes, Scan2, Scan4, Sum, CheckByte, ScanBytes, Decode, HeaderSum, Text;
    var line, n := Text(r) + ending, |r.data|;
    var c := CheckByte(Fields(r));
    var bs := Fields(r) + [c];
    HeaderDecoded(r, ending);
    TextSpells(r, ending);
    ScanBytesSpelled(line, bs, 4, n);
    assert bs[4..4 + n] == r.data;
    ScanSpelled(line, bs, 4 + n);
    assert bs[4 + n] == c;
    DataSum(r);
    LineOfScans(ext, line, r.addr, r.data, c);
  }

  lemma DataSum(r: Record)
    ensures (HeaderSum(|r.data|, r.addr, r.kind) + Sum(r.data) + CheckByte(Fields(r))) % 256 == 0
  {
    FieldsSum(r);
  }

  lemma FieldsSum(r: Record)
    ensures Sum(Fields(r)) == HeaderSum(|r.data|, r.addr, r.kind) + Sum(r.data)
  {
    assert Fields(r) == [|r.data|, r.addr / 256, r.addr % 256, r.kind] + r.data;
    SumAppend([|r.data|, r.addr / 256, r.addr % 256, r.kind], r.data);
    SumFour(|r.data|, r.addr / 256, r.addr % 256, r.kind);
  }

  // ---- Extended addresses -----------------------------------------------------

  predicate Extends(r: Record) {
    (r.kind == EXTENDED_SEGMENT || r.kind == EXTENDED_LINEAR) && |r.data| == 2
  }

  /**
   The base address behind a record: 16 times the word of a segment record, the word of a
   linear record as the upper half, and the base before it otherwise.
   */
  function NextBase(base: nat, r: Record): nat {
    if !Extends(r) then base
    else (if r.kind == EXTENDED_SEGMENT then 16 else 0x10000) * Word(r.data[1], r.data[0])
  }

  /** The range test of a record: it is made modulo 32 bits. */
  predicate InRange(base: nat, r: Record) {
    (r.addr + base + |r.data|) % U32 < MAX_MEMORY_SIZE
  }

  /** A line with these scans sets the extended address. */
  lemma ExtendedOfScans(ext: nat, line: string, r: Record, c: nat)
    requires Extends(r) && InRange(ext, r) && |line| >= 15 && line[0] == ':'
    requires Scan2(line, 1) == Some(2) && Scan4(line, 3) == Some(r.addr) && Scan2(line, 7) == Some(r.kind)
    requires Scan4(line, 9) == Some(Word(r.data[1], r.data[0])) && Scan2(line, 13) == Some(c)
    requires (HeaderSum(2, r.addr, r.kind) + r.data[0] + r.data[1] + c) % 256 == 0
    ensures Decode(ext, line) == Extended(NextBase(ext, r))
  {
    hide Scan2, Scan4, HeaderSum, Word;
    WordHalves(r.data[0], r.data[1]);
  }

  /** An extended address record is read as the base address it gives, at any extended address before it. */
  lemma ExtendedDecoded(ext: nat, r: Record, ending: string)
    requires Extends(r) && InRange(ext, r)
    ensures Decode(ext, Text(r) + ending) == Extended(NextBase(ext, r))
  {
    hide HexBytes, Scan2, Scan4, CheckByte, Text, Sum, HeaderSum, Spells, Fields, Decode, NextBase, InRange;
    var line, hi, lo, c := Text(r) + ending, r.data[0], r.data[1], CheckByte(Fields(r));
    var bs := Fields(r) + [c];
    assert r.data == [hi, lo];
    HeaderDecoded(r, ending);
    TextSpells(r, ending);
    ExtendedFields(r, hi, lo, c);
    ScanSpelled(line, bs, 4);
    ScanSpelled(line, bs, 5);
    ScanSpelled(line, bs, 6);
    Scan4Pairs(line, 9, hi, lo);
    DataSum(r);
    SumTwo(hi, lo);
    ExtendedOfScans(ext, line, r, c);
  }

  /** The line has the fields of the record, with the check byte `c`. */
  predicate Scanned(line: string, r: Record, c: byte)
    requires |r.data| == 2
  {
    && Scan2(line, 1) == Some(|r.data|) && Scan4(line, 3) == Some(r.addr) && Scan2(line, 7) == Some(r.kind)
    && Scan4(line, 9) == Some(Word(r.data[1], r.data[0])) && Scan2(line, 13) == Some(c)
  }

  /** Only a line whose bytes sum to zero modulo 256 sets the extended address. */
  lemma ExtendedLineSums(ext: nat, line: string)
    requires Decode(ext, line).Extended?
    ensures exists r: Record, c: byte ::
              && Extends(r) && Scanned(line, r, c) && Sum(Fields(r) + [c]) % 256 == 0
              && Decode(ext, line) == Extended(NextBase(ext, r))
  {
    hide Scan2, Scan4, Sum;
    var w, c := Scan4(line, 9).value, Scan2(line, 13).value as byte;
    var r: Record := Record(Scan4(line, 3).value, Scan2(line, 7).value, [w / 256, w % 256]);
    assert Word(w % 256, w / 256) == w;
    SumSnoc(Fields(r), c);
    FieldsSum(r);
    SumTwo(w / 256, w % 256);
    assert Extends(r) && Scanned(line, r, c);
  }

  lemma ExtendedFields(r: Record, hi: byte, lo: byte, c: byte)
    requires r.data == [hi, lo]
    ensures var bs := Fields(r) + [c]; |bs| == 7 && bs[4] == hi && bs[5] == lo && bs[6] == c
  {
  }

  lemma SumTwo(hi: byte, lo: byte)
    ensures Sum([hi, lo]) == hi + lo
  {
    assert [hi, lo] == [] + [hi] + [lo];
    SumEmpty();
    SumSnoc([], hi);
    SumSnoc([] + [hi], lo);
  }

  lemma WordHalves(hi: byte, lo: byte)
    ensures Word(lo, hi) / 256 == hi && Word(lo, hi) % 256 == lo
  {
  }

  // ---- Whole files ------------------------------------------------------------

  /** What the reader makes of a record. */
  function Understood(ext: nat, r: Record): HexLine {
    if !InRange(ext, r) then Rejected
    else if r.kind == END_OF_FILE then EndLine
    else if r.kind == DATA then DataLine((r.addr + ext) % U32, |r.data|, r.data, true)
    else if Extends(r) then Extended(NextBase(ext, r))
    else NoEffect
  }

  /** The printed text of any record, with anything behind it, is read as the record. */
  lemma RecordDecoded(ext: nat, r: Record, ending: string)
    ensures Decode(ext, Text(r) + ending) == Understood(ext, r)
  {
    if InRange(ext, r) && r.kind == DATA {
      DataDecoded(ext, r, ending);
    } else if InRange(ext, r) && Extends(r) {
      ExtendedDecoded(ext, r, ending);
    } else {
      OtherDecoded(ext, r, ending);
    }
  }

  lemma OtherDecoded(ext: nat, r: Record, ending: string)
    requires !InRange(ext, r) || (r.kind != DATA && !Extends(r))
    ensures Decode(ext, Text(r) + ending) == Understood(ext, r)
  {
    hide Scan2, Scan4, Text;
    HeaderDecoded(r, ending);
  }

  /** Records as the lines of a file, each with its own line ending. */
  function Lines(rs: seq<Record>, endings: seq<string>): (ls: seq<string>)
    requires |rs| == |endings|
    ensures |ls| == |rs|
    decreases rs
  {
    if rs == [] then [] else [Text(rs[0]) + endings[0]] + Lines(rs[1..], endings[1..])
  }

  /** The data of the records up to the end record, each at its address above the base. */
  function Placed(base: nat, rs: seq<Record>): seq<Piece>
    decreases rs
  {
    if rs == [] || rs[0].kind == END_OF_FILE then []
    else
      (if rs[0].kind == DATA then [Piece(base + rs[0].addr, rs[0].data)] else [])
      + Placed(NextBase(base, rs[0]), rs[1..])
  }

  /** How reading ends: refused at the first record out of range, outside the image at the first past 4 GB. */
  function Ending(base: nat, rs: seq<Record>): Verdict
    decreases rs
  {
    if rs == [] then Accepted
    else if !InRange(base, rs[0]) then Refused
    else if rs[0].kind == END_OF_FILE then Accepted
    else if rs[0].kind == DATA && rs[0].data != [] && base + rs[0].addr + |rs[0].data| >= U32 then Overrun
    else Ending(NextBase(base, rs[0]), rs[1..])
  }

  lemma BaseRange(base: nat, r: Record)
    requires base <= TOP_EXTENSION
    ensures NextBase(base, r) <= TOP_EXTENSION && r.addr + base < U32
  {
  }

  /** One record of a file that is not its end record. */
  lemma RecordTaken(h: Host, r: Record, ending: string)
    requires h.ext <= TOP_EXTENSION && InRange(h.ext, r) && r.kind != END_OF_FILE
    ensures var (g, v) := TakeLine(h, Text(r) + ending);
            && g.ext == NextBase(h.ext, r) && g.endSeen == h.endSeen
            && v == if r.kind == DATA && r.data != [] && h.ext + r.addr + |r.data| >= U32 then Overrun else Accepted
  {
    hide Decode, Text, NextBase, Place;
    BaseRange(h.ext, r);
    RecordDecoded(h.ext, r, ending);
    if r.kind == DATA {
      DataRange(r.addr + h.ext, |r.data|, |r.data|);
      assert NextBase(h.ext, r) == h.ext by { KeepsBase(h.ext, r); }
    } else if !Extends(r) {
      KeepsBase(h.ext, r);
    }
  }

  lemma KeepsBase(base: nat, r: Record)
    requires !Extends(r)
    ensures NextBase(base, r) == base
  {
  }

  lemma LastTaken(h: Host, r: Record, ending: string)
    requires !InRange(h.ext, r) || r.kind == END_OF_FILE
    ensures var (g, v) := TakeLine(h, Text(r) + ending);
            if InRange(h.ext, r) then g.endSeen && v == Accepted else v == Refused
  {
    hide Decode, Text, InRange;
    RecordDecoded(h.ext, r, ending);
  }

  lemma NotEmpty(r: Record, ending: string)
    ensures Text(r) + ending != []
  {
  }

  lemma LinesStep(h: Host, line: string, rest: seq<string>)
    requires line != []
    ensures var (g, v) := TakeLine(h, line);
            TakeLines(h, [line] + rest) == if !v.Accepted? || g.endSeen then (g, v) else TakeLines(g, rest)
  {
    hide TakeLine;
    assert ([line] + rest)[1..] == rest;
  }

  /** The verdict on a file of any records, with any line endings. */
  lemma {:induction false} FileEnds(h: Host, rs: seq<Record>, endings: seq<string>)
    requires |rs| == |endings| && h.ext <= TOP_EXTENSION && !h.endSeen
    ensures TakeLines(h, Lines(rs, endings)).1 == Ending(h.ext, rs)
    decreases rs
  {
    if rs != [] {
      hide Text, TakeLine, TakeLines, InRange, NextBase;
      var r, line := rs[0], Text(rs[0]) + endings[0];
      NotEmpty(r, endings[0]);
      LinesStep(h, line, Lines(rs[1..], endings[1..]));
      if !InRange(h.ext, r) || r.kind == END_OF_FILE {
        LastTaken(h, r, endings[0]);
      } else {
        RecordTaken(h, r, endings[0]);
        BaseRange(h.ext, r);
        FileEnds(TakeLine(h, line).0, rs[1..], endings[1..]);
      }
    }
  }

  lemma PiecesStep(ext: nat, r: Record, ending: string, rest: seq<string>)
    requires ext <= TOP_EXTENSION && InRange(ext, r) && r.kind != END_OF_FILE
    ensures Pieces(ext, [Text(r) + ending] + rest) ==
            (if r.kind == DATA then [Piece(ext + r.addr, r.data)] else []) + Pieces(NextBase(ext, r), rest)
  {
    hide Text, Decode, NextBase, InRange;
    NotEmpty(r, ending);
    RecordDecoded(ext, r, ending);
    BaseRange(ext, r);
    assert ([Text(r) + ending] + rest)[1..] == rest;
    if !Extends(r) {
      KeepsBase(ext, r);
    }
  }

  lemma LinesCons(rs: seq<Record>, endings: seq<string>)
    requires |rs| == |endings| && rs != []
    ensures Lines(rs, endings) == [Text(rs[0]) + endings[0]] + Lines(rs[1..], endings[1..])
  {
  }

  lemma NothingPlaced(base: nat)
    ensures Pieces(base, Lines([], [])) == Placed(base, [])
  {
  }

  lemma PlacedStep(base: nat, rs: seq<Record>)
    requires rs != [] && Ending(base, rs).Accepted?
    ensures InRange(base, rs[0])
    ensures rs[0].kind == END_OF_FILE ==> Placed(base, rs) == []
    ensures rs[0].kind != END_OF_FILE ==>
              && Ending(NextBase(base, rs[0]), rs[1..]).Accepted?
              && Placed(base, rs) == (if rs[0].kind == DATA then [Piece(base + rs[0].addr, rs[0].data)] else []) +
                                     Placed(NextBase(base, rs[0]), rs[1..])
  {
    hide InRange, NextBase;
  }

  /** The data records of a file that is read without error, at their addresses above the base. */
  lemma {:induction false} FilePlaced(ext: nat, rs: seq<Record>, endings: seq<string>)
    requires |rs| == |endings| && ext <= TOP_EXTENSION && Ending(ext, rs).Accepted?
    ensures Pieces(ext, Lines(rs, endings)) == Placed(ext, rs)
    decreases rs
  {
    hide Text, Decode, Pieces, InRange, NextBase, Ending, Placed, Lines;
    if rs == [] {
      NothingPlaced(ext);
    } else {
      var r, rest := rs[0], Lines(rs[1..], endings[1..]);
      LinesCons(rs, endings);
      PlacedStep(ext, rs);
      if r.kind == END_OF_FILE {
        EndPieces(ext, r, endings[0], rest);
      } else {
        BaseRange(ext, r);
        PiecesStep(ext, r, endings[0], rest);
        FilePlaced(NextBase(ext, r), rs[1..], endings[1..]);
      }
    }
  }

  lemma EndPieces(ext: nat, r: Record, ending: string, rest: seq<string>)
    requires r.kind == END_OF_FILE && InRange(ext, r)
    ensures Pieces(ext, [Text(r) + ending] + rest) == []
  {
    hide Text, Decode, InRange;
    NotEmpty(r, ending);
    RecordDecoded(ext, r, ending);
  }

  /**
   A file of any records, with any line endings, ends as its addresses say, and leaves at
   each address the byte of the last data record there: at its own address above the base
   that the last extended record gave.
   */
  lemma FileRead(h: Host, rs: seq<Record>, endings: seq<string>)
    requires |rs| == |endings| && h.ext <= TOP_EXTENSION && !h.endSeen
    ensures var (g, v) := TakeLines(h, Lines(rs, endings));
            var ps := Placed(h.ext, rs);
            && v == Ending(h.ext, rs)
            && (v.Accepted? ==>
                  && g.count == h.count + TotalLength(ps)
                  && forall a ::
                       CellAt(g.cells, a) == if LastWriter(ps, a).Some? then LastWriter(ps, a) else CellAt(h.cells, a))
  {
    hide TakeLines, Lines, Placed, Ending, LastWriter, TotalLength, CellAt, Pieces;
    FileEnds(h, rs, endings);
    if Ending(h.ext, rs).Accepted? {
      FilePlaced(h.ext, rs, endings);
      ImageIsLastWriter(h, Lines(rs, endings), 0);
      forall a ensures
        var g, ps := TakeLines(h, Lines(rs, endings)).0, Placed(h.ext, rs);
        CellAt(g.cells, a) == if LastWriter(ps, a).Some? then LastWriter(ps, a) else CellAt(h.cells, a)
      {
        ImageIsLastWriter(h, Lines(rs, endings), a);
      }
    }
  }

  /** 16 times the word in the data of a segment record, first byte high. */
  function SegmentStart(seg: Record): nat
    requires |seg.data| == 2
  {
    16 * Word(seg.data[1], seg.data[0])
  }

  /**
   Behind an extended segment record a data record fills the image from 16 times the segment
   plus its own address on, or the file is refused because it reaches the end of the image.
   */
  lemma SegmentPlaces(seg: Record, r: Record, endings: seq<string>)
    requires seg.kind == EXTENDED_SEGMENT && |seg.data| == 2 && seg.addr + 2 < MAX_MEMORY_SIZE
    requires r.kind == DATA && |endings| == 2
    ensures var (g, v) := TakeLines(EMPTY_HOST, Lines([seg, r], endings));
            var at := SegmentStart(seg) + r.addr;
            if at + |r.data| < MAX_MEMORY_SIZE then v.Accepted? && g.cells == Place(at, r.data)
            else v.Refused?
  {
    hide TakeLines, Lines, LastWriter, TotalLength, Placed, Ending;
    FileRead(EMPTY_HOST, [seg, r], endings);
    var at := SegmentStart(seg) + r.addr;
    SegmentEnds(seg, r);
    if at + |r.data| < MAX_MEMORY_SIZE {
      var cells := TakeLines(EMPTY_HOST, Lines([seg, r], endings)).0.cells;
      forall a: nat ensures CellAt(cells, a) == CellAt(Place(at, r.data), a) {
        OnlyWriter(Piece(at, r.data), a);
      }
      SameCells(cells, Place(at, r.data));
    }
  }

  lemma SegmentEnds(seg: Record, r: Record)
    requires seg.kind == EXTENDED_SEGMENT && |seg.data| == 2 && seg.addr + 2 < MAX_MEMORY_SIZE && r.kind == DATA
    ensures var at := SegmentStart(seg) + r.addr;
            if at + |r.data| < MAX_MEMORY_SIZE then
              Ending(0, [seg, r]).Accepted? && Placed(0, [seg, r]) == [Piece(at, r.data)]
            else Ending(0, [seg, r]).Refused?
  {
    hide InRange, NextBase, SegmentStart;
    SegmentBase(seg);
    BelowTop(0, seg);
    BelowTop(SegmentStart(seg), r);
    assert [seg, r][1..] == [r] && [r][1..] == [];
    var base := SegmentStart(seg);
    assert Ending(base, [r]) == if base + r.addr + |r.data| < MAX_MEMORY_SIZE then Accepted else Refused;
    assert Placed(base, [r]) == [Piece(base + r.addr, r.data)];
  }

  lemma SegmentBase(seg: Record)
    requires seg.kind == EXTENDED_SEGMENT && |seg.data| == 2
    ensures NextBase(0, seg) == SegmentStart(seg) <= 0xF_FFF0
  {
  }

  lemma BelowTop(base: nat, r: Record)
    requires base <= 0xF_FFF0
    ensures InRange(base, r) <==> base + r.addr + |r.data| < MAX_MEMORY_SIZE
    ensures base + r.addr + |r.data| < U32
  {
  }

  lemma OnlyWriter(p: Piece, a: nat)
    ensures LastWriter([p], a) == CellAt(Place(p.at, p.bytes), a)
  {
    assert [p][..0] == [];
  }

  lemma SameCells(m: Cells, n: Cells)
    requires forall a: nat :: CellAt(m, a) == CellAt(n, a)
    ensures m == n
  {
    forall a: nat ensures a in m <==> a in n {
      assert CellAt(m, a) == CellAt(n, a);
    }
    forall a: nat | a in m ensures m[a] == n[a] {
      assert CellAt(m, a) == CellAt(n, a);
    }
  }

  /**
   After an extended linear address of 0xFFFF every data record with data is either refused
   or, if it reaches past 4 GB, stored outside the image.
   */
  lemma TopExtensionOverruns(r: Record, endings: seq<string>)
    requires r.kind == DATA && r.data != [] && |endings| == 2
    ensures var rs := [Record(0, EXTENDED_LINEAR, [255, 255]), r];
            TakeLines(EMPTY_HOST, Lines(rs, endings)).1 ==
            if r.addr + |r.data| >= 0x10000 then Overrun else Refused
  {
    hide TakeLines, Lines;
    var top: Record := Record(0, EXTENDED_LINEAR, [255, 255]);
    FileEnds(EMPTY_HOST, [top, r], endings);
    assert [top, r][1..] == [r];
    assert NextBase(0, top) == TOP_EXTENSION;
  }
}
