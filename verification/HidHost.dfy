/**
 The host side of the HID loader: the Intel HEX reader and the sparse firmware
 image it fills.

 A file is the sequence of lines that fgets delivers. The `%02x` and `%04x` fields
 of a line are hexadecimal digits in place: as many as are there, at most two or
 four, and at least one for the field to be read.
 */
module HidHost {
  import opened Avr
  import opened Basics
  import opened Bits
  import opened IntelHex

  const MAX_MEMORY_SIZE := 0x10000

  // ---- Fields of a line -------------------------------------------------------

  /** Value of the hexadecimal digit at a position, or -1. */
  function Nibble(line: string, at: nat): (d: int)
    ensures -1 <= d < 16
  {
    if at >= |line| then -1
    else
      var c := line[at];
      if '0' <= c <= '9' then c as int - '0' as int
      else if 'A' <= c <= 'F' then c as int - 'A' as int + 10
      else if 'a' <= c <= 'f' then c as int - 'a' as int + 10
      else -1
  }

  /** `%02x`. */
  function Scan2(line: string, at: nat): (v: Option<nat>)
    ensures v.Some? ==> v.value < 256
  {
    var a, b := Nibble(line, at), Nibble(line, at + 1);
    if a < 0 then None else if b < 0 then Some(a) else Some(a * 16 + b)
  }

  /** `%04x`. */
  function Scan4(line: string, at: nat): (v: Option<nat>)
    ensures v.Some? ==> v.value < 0x10000
  {
    var a, b, c, d := Nibble(line, at), Nibble(line, at + 1), Nibble(line, at + 2), Nibble(line, at + 3);
    if a < 0 then None
    else if b < 0 then Some(a)
    else if c < 0 then Some(a * 16 + b)
    else if d < 0 then Some(a * 256 + b * 16 + c)
    else Some(a * 4096 + b * 256 + c * 16 + d)
  }

  /** A digit is read exactly where there is one, in either case, and for its value. */
  lemma NibbleMeans(line: string, at: nat, v: nat)
    requires v < 16
    ensures Nibble(line, at) == v <==> at < |line| && (line[at] == LOWER_DIGITS[v] || line[at] == UPPER_DIGITS[v])
  {
  }

  /** The digits in place from `at` on, at most `n`. */
  function DigitsAt(line: string, at: nat, n: nat): seq<nat>
    decreases n
  {
    if n == 0 || Nibble(line, at) < 0 then [] else [Nibble(line, at)] + DigitsAt(line, at + 1, n - 1)
  }

  /** The number that hexadecimal digits spell. */
  function Spelled(ds: seq<nat>): nat {
    if ds == [] then 0 else Spelled(ds[..|ds| - 1]) * 16 + ds[|ds| - 1]
  }

  function FieldOf(ds: seq<nat>): Option<nat> {
    if ds == [] then None else Some(Spelled(ds))
  }

  lemma SpelledSome(a: nat, b: nat, c: nat, d: nat)
    ensures Spelled([a]) == a && Spelled([a, b]) == a * 16 + b && Spelled([a, b, c]) == a * 256 + b * 16 + c
    ensures Spelled([a, b, c, d]) == a * 4096 + b * 256 + c * 16 + d
  {
    assert Spelled([]) == 0;
    assert [a][..0] == [] && [a, b][..1] == [a] && [a, b, c][..2] == [a, b] && [a, b, c, d][..3] == [a, b, c];
  }

  /** A field is the number that the digits in place spell, at most two or four of them, if there are any. */
  lemma FieldsRead(line: string, at: nat)
    ensures Scan2(line, at) == FieldOf(DigitsAt(line, at, 2))
    ensures Scan4(line, at) == FieldOf(DigitsAt(line, at, 4))
  {
    hide Nibble, Spelled;
    var a, b, c, d := Nibble(line, at), Nibble(line, at + 1), Nibble(line, at + 2), Nibble(line, at + 3);
    var n := if a < 0 then 0 else if b < 0 then 1 else if c < 0 then 2 else if d < 0 then 3 else 4;
    if n > 0 {
      SpelledSome(a, if n > 1 then b else 0, if n > 2 then c else 0, if n > 3 then d else 0);
    }
    DigitsUpTo(line, at);
  }

  lemma DigitsUpTo(line: string, at: nat)
    ensures var a, b, c, d := Nibble(line, at), Nibble(line, at + 1), Nibble(line, at + 2), Nibble(line, at + 3);
            && DigitsAt(line, at, 2) == (if a < 0 then [] else if b < 0 then [a] else [a, b])
            && DigitsAt(line, at, 4) ==
               (if a < 0 then [] else if b < 0 then [a] else if c < 0 then [a, b]
                else if d < 0 then [a, b, c] else [a, b, c, d])
  {
    hide Nibble;
    assert DigitsAt(line, at + 3, 1) == if Nibble(line, at + 3) < 0 then [] else [Nibble(line, at + 3)];
    assert DigitsAt(line, at + 1, 1) == if Nibble(line, at + 1) < 0 then [] else [Nibble(line, at + 1)];
  }

  /** The data bytes that can be read from `at` on, at most `n`. */
  function ScanBytes(line: string, at: nat, n: nat): (bs: seq<byte>)
    ensures |bs| <= n
    decreases n
  {
    if n == 0 || Scan2(line, at).None? then []
    else [Scan2(line, at).value as byte] + ScanBytes(line, at + 2, n - 1)
  }

  /** What a line says, read with the given extended address. */
  datatype HexLine =
    | Rejected
    | NoEffect
    | EndLine
    | Extended(base: nat)
    | DataLine(at: nat, len: nat, bytes: seq<byte>, good: bool)

  /** Sum of a record's length, address and type bytes. */
  function HeaderSum(len: nat, addr: nat, code: nat): nat {
    len + addr / 256 + addr % 256 + code
  }

  /** The address word of an extended address record, if its checksum is right. */
  function ExtendedWord(line: string, head: nat): Option<nat> {
    var i, c := Scan4(line, 9), Scan2(line, 13);
    if i.Some? && c.Some? && (head + i.value / 256 + i.value % 256 + c.value) % 256 == 0 then i else None
  }

  function DecodeData(ext: nat, line: string, len: nat, addr: nat, head: nat): HexLine {
    var bytes, c := ScanBytes(line, 9, len), Scan2(line, 9 + 2 * len);
    DataLine((addr + ext) % U32, len, bytes,
             |bytes| == len && c.Some? && (head + Sum(bytes) + c.value) % 256 == 0)
  }

  function DecodeBody(ext: nat, line: string, len: nat, addr: nat, code: nat): HexLine {
    var head := HeaderSum(len, addr, code);
    if (addr + ext + len) % U32 >= MAX_MEMORY_SIZE then Rejected
    else if code == END_OF_FILE then EndLine
    else if code == DATA then DecodeData(ext, line, len, addr, head)
    else if (code == EXTENDED_SEGMENT || code == EXTENDED_LINEAR) && len == 2 then
      match ExtendedWord(line, head)
      case None => NoEffect
      case Some(i) => Extended(if code == EXTENDED_SEGMENT then i * 16 else i * 0x10000)
    else NoEffect
  }

  function Decode(ext: nat, line: string): HexLine {
    if |line| < 11 || line[0] != ':' then Rejected
    else
      var len := Scan2(line, 1);
      if len.None? || |line| < 11 + 2 * len.value then Rejected
      else
        var addr, code := Scan4(line, 3), Scan2(line, 7);
        if addr.None? || code.None? then Rejected
        else DecodeBody(ext, line, len.value, addr.value, code.value)
  }

  // ---- The image --------------------------------------------------------------

  /** Bytes by address: firmware_image where firmware_mask is set. */
  type Cells = map<nat, byte>

  function ByteFor(at: nat, bytes: seq<byte>, a: nat): byte
    requires at <= a < at + |bytes|
  {
    bytes[a - at]
  }

  function Place(at: nat, bytes: seq<byte>): Cells {
    map a | at <= a < at + |bytes| :: ByteFor(at, bytes, a)
  }

  /** end_record_seen, byte_count, extended_addr and the image. */
  datatype Host = Host(cells: Cells, endSeen: bool, count: nat, ext: nat)

  const EMPTY_HOST := Host(map[], false, 0, 0)

  /** `Overrun`: a byte is stored outside firmware_image. */
  datatype Verdict = Accepted | Refused | Overrun

  /** The bytes of a line, wrapped around 32 bits, do not all lie inside the image. */
  predicate Overruns(at: nat, bytes: seq<byte>) {
    bytes != [] && at + |bytes| > MAX_MEMORY_SIZE
  }

  /** parse_hex_line. */
  function TakeLine(h: Host, line: string): (Host, Verdict) {
    match Decode(h.ext, line)
    case Rejected => (h, Refused)
    case NoEffect => (h, Accepted)
    case EndLine => (h.(endSeen := true), Accepted)
    case Extended(base) => (h.(ext := base), Accepted)
    case DataLine(at, len, bytes, good) =>
      if Overruns(at, bytes) then (h.(count := h.count + len), Overrun)
      else (h.(count := h.count + len, cells := h.cells + Place(at, bytes)), if good then Accepted else Refused)
  }

  /** The reading loop of read_intel_hex. */
  function TakeLines(h: Host, lines: seq<string>): (Host, Verdict)
    decreases lines
  {
    if lines == [] then (h, Accepted)
    else
      var (g, v) := if lines[0] == [] then (h, Accepted) else TakeLine(h, lines[0]);
      if !v.Accepted? || g.endSeen then (g, v) else TakeLines(g, lines[1..])
  }

  // ---- Last writer wins -------------------------------------------------------

  /** A data record by its place in memory. */
  datatype Piece = Piece(at: nat, bytes: seq<byte>)

  /** The data records of a file up to its end record, by absolute address. */
  function Pieces(ext: nat, lines: seq<string>): seq<Piece>
    decreases lines
  {
    if lines == [] then []
    else if lines[0] == [] then Pieces(ext, lines[1..])
    else match Decode(ext, lines[0])
      case EndLine => []
      case Extended(base) => Pieces(base, lines[1..])
      case DataLine(at, len, bytes, good) => [Piece(at, bytes)] + Pieces(ext, lines[1..])
      case _ => Pieces(ext, lines[1..])
  }

  predicate Covers(p: Piece, a: nat) {
    p.at <= a < p.at + |p.bytes|
  }

  /** The byte that the last piece covering `a` puts there. */
  function LastWriter(ps: seq<Piece>, a: nat): Option<byte> {
    if ps == [] then None
    else
      var p := ps[|ps| - 1];
      if Covers(p, a) then Some(p.bytes[a - p.at]) else LastWriter(ps[..|ps| - 1], a)
  }

  function TotalLength(ps: seq<Piece>): nat {
    if ps == [] then 0 else |ps[0].bytes| + TotalLength(ps[1..])
  }

  function CellAt(m: Cells, a: nat): Option<byte> {
    if a in m then Some(m[a]) else None
  }

  lemma {:induction false} LastWriterCons(p: Piece, ps: seq<Piece>, a: nat)
    ensures LastWriter([p] + ps, a) ==
            if LastWriter(ps, a).Some? then LastWriter(ps, a)
            else if Covers(p, a) then Some(p.bytes[a - p.at]) else None
  {
    if ps == [] {
      assert [p] + ps == [p] && [p][..0] == [];
    } else {
      assert ([p] + ps)[..|ps|] == [p] + ps[..|ps| - 1];
      LastWriterCons(p, ps[..|ps| - 1], a);
    }
  }

  /** Placing a piece and then the pieces of `rest` is placing them all. */
  lemma PieceFirst(m: Cells, p: Piece, rest: seq<Piece>, a: nat)
    ensures (if LastWriter(rest, a).Some? then LastWriter(rest, a) else CellAt(m + Place(p.at, p.bytes), a)) ==
            (if LastWriter([p] + rest, a).Some? then LastWriter([p] + rest, a) else CellAt(m, a))
    ensures TotalLength([p] + rest) == |p.bytes| + TotalLength(rest)
  {
    hide LastWriter;
    LastWriterCons(p, rest, a);
    assert ([p] + rest)[1..] == rest;
  }

  /**
   A file that is read without error leaves the last byte its records give for each
   address, no byte elsewhere, the total length of its data records, and nothing
   outside the image.
   */
  lemma {:induction false} ImageIsLastWriter(h: Host, lines: seq<string>, a: nat)
    requires !h.endSeen && TakeLines(h, lines).1.Accepted?
    ensures var ps, g := Pieces(h.ext, lines), TakeLines(h, lines).0;
            && CellAt(g.cells, a) == (if LastWriter(ps, a).Some? then LastWriter(ps, a) else CellAt(h.cells, a))
            && g.count == h.count + TotalLength(ps)
            && forall p :: p in ps ==> p.bytes != [] ==> p.at + |p.bytes| <= MAX_MEMORY_SIZE
    decreases lines
  {
    hide Decode, LastWriter, TotalLength, CellAt, Place;
    NoPieces(a);
    if lines != [] {
      var (g, v) := if lines[0] == [] then (h, Accepted) else TakeLine(h, lines[0]);
      if !g.endSeen {
        ImageIsLastWriter(g, lines[1..], a);
        if lines[0] != [] && Decode(h.ext, lines[0]).DataLine? {
          var d := Decode(h.ext, lines[0]);
          var p, rest := Piece(d.at, d.bytes), Pieces(h.ext, lines[1..]);
          GoodLength(h.ext, lines[0]);
          PieceFirst(h.cells, p, rest, a);
        }
      }
    }
  }

  lemma NoPieces(a: nat)
    ensures LastWriter([], a).None? && TotalLength([]) == 0
  {
  }

  lemma GoodLength(ext: nat, line: string)
    ensures var d := Decode(ext, line); d.DataLine? && d.good ==> |d.bytes| == d.len
  {
  }

  /** Every accepted data line is a whole record whose bytes sum to zero modulo 256. */
  lemma AcceptedRecordSums(h: Host, line: string)
    requires Decode(h.ext, line).DataLine? && TakeLine(h, line).1.Accepted?
    ensures var bytes := Decode(h.ext, line).bytes;
            exists len: byte, hi: byte, lo: byte, c: byte ::
              && Scan2(line, 1) == Some(len) && Scan4(line, 3) == Some(hi * 256 + lo)
              && |bytes| == len && Scan2(line, 9 + 2 * |bytes|) == Some(c)
              && Sum([len, hi, lo, DATA] + bytes + [c]) % 256 == 0
  {
    hide Scan2, Scan4, ScanBytes, Sum;
    var len, addr := Scan2(line, 1).value as byte, Scan4(line, 3).value;
    var bytes := Decode(h.ext, line).bytes;
    var hi, lo, c := (addr / 256) as byte, (addr % 256) as byte, Scan2(line, 9 + 2 * len as int).value as byte;
    SumOfRecord(len, hi, lo, bytes, c);
  }

  lemma SumOfRecord(len: byte, hi: byte, lo: byte, bytes: seq<byte>, c: byte)
    ensures Sum([len, hi, lo, DATA] + bytes + [c]) == len + hi + lo + DATA + Sum(bytes) + c
  {
    hide Sum;
    SumAppend([len, hi, lo, DATA] + bytes, [c]);
    SumAppend([len, hi, lo, DATA], bytes);
    SumFour(len, hi, lo, DATA);
    SumSnoc([], c);
    SumEmpty();
    assert [] + [c] == [c];
  }

  lemma SumFour(a: byte, b: byte, c: byte, d: byte)
    ensures Sum([a, b, c, d]) == a + b + c + d
  {
    assert [a, b, c, d] == [] + [a] + [b] + [c] + [d];
    SumEmpty();
    SumSnoc([], a);
    SumSnoc([] + [a], b);
    SumSnoc([] + [a] + [b], c);
    SumSnoc([] + [a] + [b] + [c], d);
  }

  // ---- Extended addresses near the top of memory ------------------------------

  const TOP_EXTENSION := 0xFFFF_0000
  const NEXT_EXTENSION := 0xFFFE_0000

  lemma ExtensionRange(ext: nat, line: string)
    requires Decode(ext, line).Extended?
    ensures Decode(ext, line).base <= NEXT_EXTENSION || Decode(ext, line).base == TOP_EXTENSION
  {
  }

  /**
   A data line is stored outside the image exactly when its end, counted from the
   extended address, passes 4 GB: the range test is made modulo 32 bits.
   */
  lemma OverrunIff(h: Host, line: string)
    requires h.ext <= TOP_EXTENSION
    ensures TakeLine(h, line).1.Overrun? <==>
            && Decode(h.ext, line).DataLine? && Decode(h.ext, line).bytes != []
            && Scan4(line, 3).value + h.ext + Scan2(line, 1).value >= U32
  {
    hide Scan2, Scan4, ScanBytes, Sum;
    var d := Decode(h.ext, line);
    if d.DataLine? {
      var len, addr := Scan2(line, 1).value, Scan4(line, 3).value;
      assert d.at == addr + h.ext && d.len == len;
      DataRange(addr + h.ext, len, |d.bytes|);
    }
  }

  lemma DataRange(at: nat, len: nat, n: nat)
    requires at < U32 && len < 256 && n <= len && (at + len) % U32 < MAX_MEMORY_SIZE
    ensures at + len < U32 ==> at + len < MAX_MEMORY_SIZE
    ensures at + len >= U32 ==> at >= MAX_MEMORY_SIZE
  {
  }

  /** Without the topmost extended address no file is stored outside the image. */
  lemma {:induction false} NoOverrun(h: Host, lines: seq<string>)
    requires h.ext <= NEXT_EXTENSION
    requires forall i, e :: 0 <= i < |lines| && Decode(e, lines[i]).Extended? ==>
                            Decode(e, lines[i]).base != TOP_EXTENSION
    ensures !TakeLines(h, lines).1.Overrun?
    decreases lines
  {
    hide Decode;
    if lines != [] {
      if lines[0] != [] {
        OverrunIff(h, lines[0]);
        if Decode(h.ext, lines[0]).DataLine? {
          LineRange(h, lines[0]);
        } else if Decode(h.ext, lines[0]).Extended? {
          ExtensionRange(h.ext, lines[0]);
        }
      }
      var (g, v) := if lines[0] == [] then (h, Accepted) else TakeLine(h, lines[0]);
      if v.Accepted? && !g.endSeen {
        NoOverrun(g, lines[1..]);
      }
    }
  }

  lemma LineRange(h: Host, line: string)
    requires h.ext <= NEXT_EXTENSION && Decode(h.ext, line).DataLine?
    ensures Scan4(line, 3).value + h.ext + Scan2(line, 1).value < U32
  {
    hide ScanBytes, Sum;
  }

  // ---- Sending the image ------------------------------------------------------

  /** ihex_bytes_within_range. */
  predicate Within(m: Cells, begin: int, end: int) {
    && 0 <= begin < MAX_MEMORY_SIZE && 0 <= end < MAX_MEMORY_SIZE
    && exists a :: begin <= a <= end && a in m
  }

  function ImageByte(m: Cells, a: nat): byte {
    if a in m then m[a] else 255
  }

  /** ihex_get_data; a block that reaches the end of the image is sent blank. */
  function Block(m: Cells, addr: nat, len: nat): (b: seq<byte>)
    ensures |b| == len
  {
    if addr + len >= MAX_MEMORY_SIZE then Blank(len)
    else seq<byte>(len, i requires 0 <= i < len => ImageByte(m, addr + i))
  }

  /** The two bytes that name a page; parts of 64 KB and more drop the low byte. */
  function PageName(code: nat, addr: nat): (n: seq<byte>)
    ensures |n| == 2
  {
    if code < 0x10000 then [addr % 256, addr / 256 % 256] else [addr / 256 % 256, addr / 65536 % 256]
  }

  predicate Sent(m: Cells, addr: nat, block: nat) {
    addr == 0 || Within(m, addr, addr + block - 1)
  }

  function BootReport(block: nat): seq<byte> {
    [255, 255] + seq(block, i => 0)
  }

  /** The reports from block address `addr` on. */
  function Reports(m: Cells, code: nat, block: nat, addr: nat, reboot: bool): seq<seq<byte>>
    requires block > 0
    decreases code - addr
  {
    if addr >= code then (if reboot then [BootReport(block)] else [])
    else
      (if Sent(m, addr, block) then [PageName(code, addr) + Block(m, addr, block)] else [])
      + Reports(m, code, block, addr + block, reboot)
  }
}
