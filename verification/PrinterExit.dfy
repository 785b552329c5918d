/**
 When the Printer bootloader ends: on every stream, well formed or not, exactly
 when an end-of-file record with a correct checksum has been read.
 */
module PrinterExit {
  import opened Avr
  import opened Basics
  import opened Bits
  import opened IntelHex
  import opened Printer

  /** Values of the hexadecimal digits read since the last colon, if there was one. */
  function Digits(cs: string): Option<seq<nat>> {
    if cs == [] then None
    else
      var c, before := cs[|cs| - 1], Digits(cs[..|cs| - 1]);
      if c == ':' then Some([])
      else if HexToDecimal(c) >= 0 && before.Some? then Some(before.value + [HexToDecimal(c)])
      else before
  }

  function PairByte(hi: nat, lo: nat): byte {
    (hi * 16 + lo) % 256
  }

  /** The bytes that complete pairs of digits spell. */
  function Pairs(ds: seq<nat>): (bs: seq<byte>)
    ensures |bs| == |ds| / 2
  {
    if |ds| < 2 then [] else [PairByte(ds[0], ds[1])] + Pairs(ds[2..])
  }

  /** Number of bytes up to the checksum, from the byte count that heads the record. */
  function Length(bs: seq<byte>): nat
    requires |bs| >= 1
  {
    var n: nat := bs[0];
    4 + n
  }

  /** The digits end with the checksum pair of a well-formed end-of-file record. */
  predicate EndDigits(ds: seq<nat>) {
    && |ds| % 2 == 0
    && var bs := Pairs(ds);
    && |bs| >= 5 && |bs| > Length(bs) && bs[3] == END_OF_FILE
    && (Sum(bs[..Length(bs)]) + bs[|bs| - 1]) % 256 == 0
  }

  /** The last character of `cs` completes a well-formed end-of-file record. */
  predicate EndRecordRead(cs: string) {
    && cs != [] && HexToDecimal(cs[|cs| - 1]) >= 0
    && Digits(cs).Some? && EndDigits(Digits(cs).value)
  }

  function HighAddress(base: nat, hi: nat): nat {
    (base + hi * 256) % U32
  }

  function Address(base: nat, hi: nat, lo: nat): nat {
    (HighAddress(base, hi) + lo) % U32
  }

  /** The record whose bytes are `bs` carries data addressed into the bootloader section. */
  predicate Abandons(boot: nat, base: nat, bs: seq<byte>)
    requires |bs| >= 4
  {
    bs[0] != 0 && Address(base, bs[1], bs[2]) >= boot
  }

  // ---- The base address a stream sets -----------------------------------------

  /**
   A line of the stream read so far: the base address it leaves, the address of its next
   word, the last byte still without a partner, and whether the line was given up.
   */
  datatype Line = Line(base: nat, addr: nat, stale: byte, lost: bool)

  /** One more byte of a line, with `left` data bytes of the record to come. */
  function DataByte(boot: nat, l: Line, kind: byte, left: int, b: byte): Line {
    if left < 0 || l.lost then l
    else if l.addr >= boot then l.(lost := true)
    else if left % 2 == 1 then l.(stale := b)
    else if kind == DATA then l.(addr := (l.addr + 2) % U32)
    else if kind == EXTENDED_SEGMENT then l.(base := Word(l.stale, b) * 16)
    else if kind == EXTENDED_LINEAR then l.(base := Word(l.stale, b) * 0x10000)
    else l
  }

  function ReadLine(boot: nat, base: nat, stale: byte, bs: seq<byte>): Line {
    if |bs| < 3 then Line(base, base, stale, false)
    else if |bs| <= 4 then Line(base, Address(base, bs[1], bs[2]), stale, false)
    else
      var k := |bs| - 1;
      DataByte(boot, ReadLine(boot, base, stale, bs[..k]), bs[3], Length(bs) - |bs|, bs[k])
  }

  /** The base address and the byte without a partner when the current line began. */
  function LineStart(boot: nat, cs: string): (nat, byte)
    decreases |cs|, 0
  {
    if cs == [] then (0, 0)
    else
      var before := cs[..|cs| - 1];
      if cs[|cs| - 1] == ':' then (LineNow(boot, before).base, LineNow(boot, before).stale)
      else LineStart(boot, before)
  }

  function LineNow(boot: nat, cs: string): Line
    decreases |cs|, 1
  {
    match Digits(cs)
    case None => Line(0, 0, 0, true)
    case Some(ds) =>
      var (base, stale) := LineStart(boot, cs);
      ReadLine(boot, base, stale, Pairs(ds))
  }

  predicate Exits(boot: nat, cs: string) {
    && EndRecordRead(cs)
    && !Abandons(boot, LineNow(boot, cs).base, Pairs(Digits(cs).value))
  }

  /** What the parser remembers of the bytes `bs` of the current line. */
  predicate Remembers(boot: nat, s: Parser, bs: seq<byte>) {
    match s.state
    case WaitLine =>
      |bs| >= 5 && (bs[3] == END_OF_FILE ==> Abandons(boot, s.baseAddr, bs))
    case ByteCount =>
      |bs| == 0 && s.checksum == 0 && s.currAddr == s.baseAddr
    case AddressHigh =>
      |bs| == 1 && s.dataRem == bs[0] && s.checksum == Sum(bs) % 256 && s.currAddr == s.baseAddr
    case AddressLow =>
      && |bs| == 2 && s.dataRem == bs[0] && s.checksum == Sum(bs) % 256
      && s.currAddr == HighAddress(s.baseAddr, bs[1])
    case RecordType =>
      && |bs| == 3 && s.dataRem == bs[0] && s.checksum == Sum(bs) % 256
      && s.currAddr == Address(s.baseAddr, bs[1], bs[2])
    case ReadData =>
      && 4 <= |bs| < Length(bs) && s.dataRem == Length(bs) - |bs|
      && s.recordType == bs[3] && s.checksum == Sum(bs) % 256
      && (bs[3] == END_OF_FILE ==>
          && s.currAddr == Address(s.baseAddr, bs[1], bs[2])
          && (|bs| > 4 ==> !Abandons(boot, s.baseAddr, bs)))
    case Checksum =>
      && 4 <= |bs| && Length(bs) <= |bs|
      && s.recordType == bs[3] && s.checksum == Sum(bs[..Length(bs)]) % 256
      && (bs[3] == END_OF_FILE ==> !Abandons(boot, s.baseAddr, bs))
  }

  /** The parser state against the digits of the current line. */
  predicate Tracks(boot: nat, s: Parser, ds: Option<seq<nat>>) {
    match ds
    case None => s.state.WaitLine?
    case Some(ns) =>
      Remembers(boot, s, Pairs(ns)) && (!s.state.WaitLine? ==> Pending(s, ns))
  }

  /** Whether a digit waits for its partner, and its value. */
  predicate Pending(s: Parser, ns: seq<nat>) {
    && s.readMsb == (|ns| % 2 == 1)
    && (|ns| % 2 == 1 ==> s.data % 16 == ns[|ns| - 1] % 16)
  }

  lemma PairsCons(a: nat, b: nat, ds: seq<nat>)
    ensures Pairs([a, b] + ds) == [PairByte(a, b)] + Pairs(ds)
  {
    hide PairByte;
    assert ([a, b] + ds)[2..] == ds;
  }

  lemma {:induction false} PairsSnoc(ds: seq<nat>, d: nat)
    ensures |ds| % 2 == 0 ==> Pairs(ds + [d]) == Pairs(ds)
    ensures |ds| % 2 == 1 ==> Pairs(ds + [d]) == Pairs(ds) + [PairByte(ds[|ds| - 1], d)]
  {
    if |ds| >= 2 {
      hide PairByte, Pairs;
      var a, b, rest := ds[0], ds[1], ds[2..];
      assert ds == [a, b] + rest;
      Assoc([a, b], rest, [d]);
      PairsCons(a, b, rest);
      PairsCons(a, b, rest + [d]);
      PairsSnoc(rest, d);
      if |ds| % 2 == 1 {
        Assoc([PairByte(a, b)], Pairs(rest), [PairByte(ds[|ds| - 1], d)]);
      }
    } else if |ds| == 1 {
      hide PairByte;
      assert ds + [d] == [ds[0], d] + [];
      PairsCons(ds[0], d, []);
    }
  }

  /** One more byte of the line, by parser state. */
  lemma HeaderTracked(boot: nat, s: Parser, bs: seq<byte>)
    requires Remembers(boot, s, bs)
    requires s.state.ByteCount? || s.state.AddressHigh? || s.state.AddressLow? || s.state.RecordType?
    ensures Remembers(boot, TakeByte(boot, s), bs + [s.data])
  {
    hide Sum, HighAddress, Base;
    SumSnoc(bs, s.data);
    Mod256Add(Sum(bs), s.data);
    SumEmpty();
    assert HighAddress(s.baseAddr, s.data) == (s.baseAddr + s.data * 256) % U32 by {
      HighAddressValue(s.baseAddr, s.data);
    }
    if s.state.RecordType? && s.dataRem == 0 {
      assert (bs + [s.data])[..4] == bs + [s.data];
    }
  }

  lemma HighAddressValue(base: nat, hi: nat)
    ensures HighAddress(base, hi) == (base + hi * 256) % U32
  {
  }

  lemma DataTracked(boot: nat, s: Parser, bs: seq<byte>)
    requires Remembers(boot, s, bs) && s.state.ReadData?
    ensures Remembers(boot, TakeByte(boot, s), bs + [s.data])
  {
    hide Sum, Address, StoreWord, Word, Base;
    SumSnoc(bs, s.data);
    Mod256Add(Sum(bs), s.data);
    var t := TakeByte(boot, s);
    StoreWordFrame(s.(checksum := (s.checksum + s.data) % 256, dataRem := s.dataRem - 1), Word(s.prevData, s.data));
    assert (bs + [s.data])[..|bs| + 1] == bs + [s.data];
  }

  lemma ChecksumTracked(boot: nat, s: Parser, bs: seq<byte>)
    requires Remembers(boot, s, bs) && s.state.Checksum?
    ensures Remembers(boot, TakeByte(boot, s), bs + [s.data])
  {
    hide Sum, Address, Write, Base;
    assert (bs + [s.data])[..Length(bs)] == bs[..Length(bs)];
  }

  lemma ByteTracked(boot: nat, s: Parser, bs: seq<byte>)
    requires Remembers(boot, s, bs) && !s.state.WaitLine?
    ensures Remembers(boot, TakeByte(boot, s), bs + [s.data])
    ensures TakeByte(boot, s).readMsb == s.readMsb
    ensures TakeByte(boot, s).run ==
            (s.run && !(s.state.Checksum? && s.recordType == END_OF_FILE && (s.checksum + s.data) % 256 == 0))
  {
    hide Remembers, Base, Write, Fill, Erase;
    match s.state {
      case ReadData => DataTracked(boot, s, bs);
      case Checksum => ChecksumTracked(boot, s, bs);
      case _ => HeaderTracked(boot, s, bs);
    }
  }

  /** The second digit of a byte, within a record. */
  lemma PairTracked(boot: nat, s: Parser, ns: seq<nat>, d: nat)
    requires Tracks(boot, s, Some(ns)) && !s.state.WaitLine? && s.readMsb && d < 16
    ensures var t := TakeByte(boot, s.(data := (s.data * 16 + d) % 256, readMsb := false));
            && Tracks(boot, t, Some(ns + [d]))
            && t.run == (s.run && !(EndDigits(ns + [d]) && !Abandons(boot, t.baseAddr, Pairs(ns + [d]))))
  {
    hide Sum, TakeByte, Address, Pairs;
    var t := s.(data := (s.data * 16 + d) % 256, readMsb := false);
    PairsSnoc(ns, d);
    PairValue(s.data, ns[|ns| - 1], d);
    ByteTracked(boot, t, Pairs(ns));
    if s.state.Checksum? {
      ChecksumBase(boot, t);
      var bs := Pairs(ns);
      assert (bs + [t.data])[..Length(bs)] == bs[..Length(bs)];
      Mod256Add(Sum(bs[..Length(bs)]), t.data);
    }
  }

  lemma ChecksumBase(boot: nat, s: Parser)
    requires s.state.Checksum?
    ensures TakeByte(boot, s).baseAddr == s.baseAddr
  {
  }

  /** A digit of a record that was given up. */
  lemma AbandonedTracked(boot: nat, s: Parser, ns: seq<nat>, d: nat)
    requires Remembers(boot, s, Pairs(ns)) && s.state.WaitLine?
    ensures Remembers(boot, s.(checksum := 0, currAddr := s.baseAddr, readMsb := false), Pairs(ns + [d]))
    ensures EndDigits(ns + [d]) ==> Abandons(boot, s.baseAddr, Pairs(ns + [d]))
  {
    hide Sum, Address;
    PairsSnoc(ns, d);
  }

  lemma OddDigits(ds: seq<nat>)
    requires |ds| % 2 == 1
    ensures !EndDigits(ds)
  {
  }

  lemma DigitsSnoc(cs: string, c: char)
    ensures Digits(cs + [c]) ==
            if c == ':' then Some([])
            else if HexToDecimal(c) >= 0 && Digits(cs).Some? then Some(Digits(cs).value + [HexToDecimal(c)])
            else Digits(cs)
  {
    assert (cs + [c])[..|cs|] == cs;
  }

  lemma LowDigit(data: nat, d: nat)
    requires d < 16
    ensures (data * 16 + d) % 256 % 16 == d
  {
  }

  /** One more digit of the line. */
  lemma DigitTracked(boot: nat, s: Parser, ns: seq<nat>, c: char)
    requires Tracks(boot, s, Some(ns)) && HexToDecimal(c) >= 0
    ensures var t, ns' := Feed(boot, s, c), ns + [HexToDecimal(c)];
            && Tracks(boot, t, Some(ns'))
            && t.run == (s.run && !(EndDigits(ns') && !Abandons(boot, t.baseAddr, Pairs(ns'))))
  {
    hide Sum, TakeByte, Address, EndDigits, Pairs;
    var d := HexToDecimal(c);
    if s.state.WaitLine? {
      AbandonedTracked(boot, s, ns, d);
    } else if s.readMsb {
      hide Tracks;
      DigitStep(boot, s, ns);
      PairTracked(boot, s, ns, d);
    } else {
      PairsSnoc(ns, d);
      OddDigits(ns + [d]);
      LowDigit(s.data, d);
    }
  }

  lemma DigitStep(boot: nat, s: Parser, ns: seq<nat>)
    requires Tracks(boot, s, Some(ns)) && !s.state.WaitLine?
    ensures s.readMsb == (|ns| % 2 == 1)
  {
  }

  /** A colon, or a character that is neither a colon nor a digit. */
  lemma OtherTracked(boot: nat, s: Parser, ds: Option<seq<nat>>, c: char)
    requires Tracks(boot, s, ds) && (c == ':' || HexToDecimal(c) < 0 || ds.None?)
    ensures Tracks(boot, Feed(boot, s, c), if c == ':' then Some([]) else ds)
    ensures Feed(boot, s, c).run == s.run
  {
    hide Sum, TakeByte, Address;
  }

  /** One more character of the stream. */
  lemma CharTracked(boot: nat, s: Parser, cs: string, c: char)
    requires Tracks(boot, s, Digits(cs))
    ensures Tracks(boot, Feed(boot, s, c), Digits(cs + [c]))
    ensures Feed(boot, s, c).run ==
            (s.run && !(EndRecordRead(cs + [c]) &&
                        !Abandons(boot, Feed(boot, s, c).baseAddr, Pairs(Digits(cs + [c]).value))))
  {
    hide Tracks, Feed, Digits, EndDigits, Pairs, Abandons;
    DigitsSnoc(cs, c);
    if c != ':' && HexToDecimal(c) >= 0 && Digits(cs).Some? {
      DigitTracked(boot, s, Digits(cs).value, c);
    } else {
      OtherTracked(boot, s, Digits(cs), c);
    }
  }

  lemma PairValue(data: nat, n: nat, d: nat)
    requires data % 16 == n % 16 && d < 16
    ensures (data * 16 + d) % 256 == PairByte(n, d)
  {
    Same256(data * 16 + d, n * 16 + d, data / 16 - n / 16);
  }

  lemma {:induction false} StreamTracked(boot: nat, f: Flash, cs: string)
    ensures Tracks(boot, FeedAll(boot, Reset(f), cs), Digits(cs))
  {
    hide Tracks;
    if cs == [] {
      StartTracked(boot, f);
    } else {
      var before, c := cs[..|cs| - 1], cs[|cs| - 1];
      assert cs == before + [c];
      StreamTracked(boot, f, before);
      FeedAppend(boot, Reset(f), before, [c]);
      CharTracked(boot, FeedAll(boot, Reset(f), before), before, c);
    }
  }

  lemma StartTracked(boot: nat, f: Flash)
    ensures Tracks(boot, Reset(f), None)
  {
  }

  // ---- The parser's base address is the stream's ------------------------------

  predicate Follows(s: Parser, l: Line) {
    && s.baseAddr == l.base && s.prevData == l.stale
    && (s.state.WaitLine? <==> l.lost)
    && (s.state.ReadData? ==> s.currAddr == l.addr)
  }

  lemma ReadLineSnoc(boot: nat, base: nat, stale: byte, bs: seq<byte>, b: byte)
    ensures var l, all := ReadLine(boot, base, stale, bs), bs + [b];
            ReadLine(boot, base, stale, all) ==
            if |bs| < 4 then ReadLine(boot, base, stale, all)
            else DataByte(boot, l, bs[3], Length(all) - |all|, b)
  {
    hide DataByte;
    assert (bs + [b])[..|bs|] == bs;
  }

  lemma HeaderFollows(boot: nat, s: Parser, base: nat, stale: byte, bs: seq<byte>)
    requires Remembers(boot, s, bs) && Follows(s, ReadLine(boot, base, stale, bs))
    requires s.state.ByteCount? || s.state.AddressHigh? || s.state.AddressLow? || s.state.RecordType?
    ensures Follows(TakeByte(boot, s), ReadLine(boot, base, stale, bs + [s.data]))
  {
    hide Sum, Address, HighAddress, DataByte;
  }

  lemma DataFollows(boot: nat, s: Parser, l: Line, left: nat)
    requires s.state.ReadData? && Follows(s, l) && s.dataRem == left + 1
    ensures Follows(TakeByte(boot, s), DataByte(boot, l, s.recordType, left, s.data))
  {
    hide StoreWord, Word;
    StoreWordFrame(s.(checksum := (s.checksum + s.data) % 256, dataRem := left), Word(s.prevData, s.data));
  }

  lemma ChecksumFollows(boot: nat, s: Parser, l: Line)
    requires s.state.Checksum? && Follows(s, l)
    ensures Follows(TakeByte(boot, s), l)
  {
    hide Base, Write;
  }

  lemma ByteFollows(boot: nat, s: Parser, base: nat, stale: byte, bs: seq<byte>)
    requires Remembers(boot, s, bs) && !s.state.WaitLine? && Follows(s, ReadLine(boot, base, stale, bs))
    ensures Follows(TakeByte(boot, s), ReadLine(boot, base, stale, bs + [s.data]))
  {
    hide TakeByte, Follows, ReadLine, Sum, Address, HighAddress;
    ReadLineSnoc(boot, base, stale, bs, s.data);
    match s.state {
      case ReadData => DataFollows(boot, s, ReadLine(boot, base, stale, bs), s.dataRem - 1);
      case Checksum => ChecksumFollows(boot, s, ReadLine(boot, base, stale, bs));
      case _ => HeaderFollows(boot, s, base, stale, bs);
    }
  }

  /** A line that was given up stays so. */
  lemma LostFollows(boot: nat, s: Parser, base: nat, stale: byte, bs: seq<byte>, b: byte)
    requires s.state.WaitLine? && Follows(s, ReadLine(boot, base, stale, bs))
    ensures ReadLine(boot, base, stale, bs + [b]) == ReadLine(boot, base, stale, bs)
  {
    ReadLineSnoc(boot, base, stale, bs, b);
  }

  lemma DigitFollows(boot: nat, s: Parser, ns: seq<nat>, c: char, base: nat, stale: byte)
    requires Tracks(boot, s, Some(ns)) && HexToDecimal(c) >= 0 && c != ':'
    requires Follows(s, ReadLine(boot, base, stale, Pairs(ns)))
    ensures Follows(Feed(boot, s, c), ReadLine(boot, base, stale, Pairs(ns + [HexToDecimal(c)])))
  {
    hide Remembers, TakeByte, ReadLine, Pairs, PairByte;
    var d := HexToDecimal(c);
    PairsSnoc(ns, d);
    if s.state.WaitLine? {
      if |ns| % 2 == 1 {
        LostFollows(boot, s, base, stale, Pairs(ns), PairByte(ns[|ns| - 1], d));
      }
    } else if s.readMsb {
      LastDigit(s, ns);
      PairValue(s.data, ns[|ns| - 1], d);
      var b: byte := PairByte(ns[|ns| - 1], d);
      RemembersAnyData(boot, s, Pairs(ns), b);
      ByteFollows(boot, s.(data := b, readMsb := false), base, stale, Pairs(ns));
    }
  }

  lemma LastDigit(s: Parser, ns: seq<nat>)
    requires Pending(s, ns) && s.readMsb
    ensures |ns| % 2 == 1 && s.data % 16 == ns[|ns| - 1] % 16
  {
  }

  lemma RemembersAnyData(boot: nat, s: Parser, bs: seq<byte>, data: byte)
    requires Remembers(boot, s, bs)
    ensures Remembers(boot, s.(data := data, readMsb := false), bs)
  {
    hide Sum, Address, HighAddress, Abandons;
  }

  lemma LineStartSnoc(boot: nat, cs: string, c: char)
    ensures LineStart(boot, cs + [c]) ==
            if c == ':' then (LineNow(boot, cs).base, LineNow(boot, cs).stale) else LineStart(boot, cs)
  {
    hide Digits, Pairs, ReadLine;
    assert (cs + [c])[..|cs|] == cs;
  }

  lemma CharFollows(boot: nat, s: Parser, cs: string, c: char)
    requires Tracks(boot, s, Digits(cs)) && Follows(s, LineNow(boot, cs))
    ensures Follows(Feed(boot, s, c), LineNow(boot, cs + [c]))
  {
    hide Digits, Pairs, LineStart, ReadLine, Tracks, Feed, Follows;
    DigitsSnoc(cs, c);
    LineStartSnoc(boot, cs, c);
    if c == ':' {
      ColonFollows(boot, s, LineNow(boot, cs));
    } else if HexToDecimal(c) >= 0 && Digits(cs).Some? {
      var (base, stale) := LineStart(boot, cs);
      DigitFollows(boot, s, Digits(cs).value, c, base, stale);
    } else {
      NoiseFollows(boot, s, Digits(cs), LineNow(boot, cs), c);
    }
  }

  lemma ColonFollows(boot: nat, s: Parser, l: Line)
    requires Follows(s, l)
    ensures Follows(Feed(boot, s, ':'), ReadLine(boot, l.base, l.stale, Pairs([])))
  {
  }

  lemma NoiseFollows(boot: nat, s: Parser, ds: Option<seq<nat>>, l: Line, c: char)
    requires Tracks(boot, s, ds) && c != ':' && (HexToDecimal(c) < 0 || ds.None?) && Follows(s, l)
    ensures Follows(Feed(boot, s, c), l)
  {
    hide Remembers, TakeByte;
  }

  /** On every stream the parser's base address is the one the lines of the stream set. */
  lemma {:induction false} BaseFromStream(boot: nat, f: Flash, cs: string)
    ensures Follows(FeedAll(boot, Reset(f), cs), LineNow(boot, cs))
  {
    hide Tracks, Follows, LineNow, Feed;
    if cs == [] {
      StartFollows(boot, f);
    } else {
      var before, c := cs[..|cs| - 1], cs[|cs| - 1];
      assert cs == before + [c];
      BaseFromStream(boot, f, before);
      StreamTracked(boot, f, before);
      FeedAppend(boot, Reset(f), before, [c]);
      CharFollows(boot, FeedAll(boot, Reset(f), before), before, c);
    }
  }

  lemma StartFollows(boot: nat, f: Flash)
    ensures Follows(Reset(f), LineNow(boot, []))
  {
  }

  /** The base address that the Intel HEX format gives the bytes of an extended address record. */
  function FormatBase(kind: byte, first: byte, second: byte): nat {
    Word(second, first) * if kind == EXTENDED_SEGMENT then 16 else 0x10000
  }

  /**
   The parser takes the two bytes of an extended address record in the wrong order, and
   not at all where the record itself is addressed into the bootloader section. So the base
   it leaves is the one the format means exactly when the bytes are equal, or the record
   is given up and the base was already the one meant.
   */
  lemma ExtendedBaseIff(boot: nat, base: nat, stale: byte, hi: byte, lo: byte, kind: byte, first: byte, second: byte)
    requires kind == EXTENDED_SEGMENT || kind == EXTENDED_LINEAR
    ensures var l := ReadLine(boot, base, stale, [2, hi, lo, kind, first, second]);
            && l.base == (if Address(base, hi, lo) >= boot then base else FormatBase(kind, second, first))
            && (l.base == FormatBase(kind, first, second) <==>
                if Address(base, hi, lo) >= boot then base == FormatBase(kind, first, second) else first == second)
  {
    hide Address, Word;
    var head: seq<byte> := [2, hi, lo, kind];
    ReadLineSnoc(boot, base, stale, head, first);
    ReadLineSnoc(boot, base, stale, head + [first], second);
    assert head + [first] + [second] == [2, hi, lo, kind, first, second];
    WordParts(first, second);
    WordParts(second, first);
  }

  /**
   The bootloader has ended after a stream if and only if some prefix of it ends
   with a whole end-of-file record, all announced data bytes read and their sum
   with the last pair zero modulo 256, that was not given up for carrying data
   addressed into the bootloader section.
   */
  lemma {:induction false} BootloaderEndsIff(boot: nat, f: Flash, cs: string)
    ensures !FeedAll(boot, Reset(f), cs).run <==> exists k :: 0 <= k <= |cs| && Exits(boot, cs[..k])
  {
    hide Exits, Tracks;
    if cs == [] {
      assert forall k :: 0 <= k <= |cs| ==> cs[..k] == [];
      NoExitYet(boot);
    } else {
      var before, c := cs[..|cs| - 1], cs[|cs| - 1];
      assert cs == before + [c];
      BootloaderEndsIff(boot, f, before);
      assert forall k :: 0 <= k <= |before| ==> cs[..k] == before[..k];
      assert cs[..|cs|] == cs;
      LastExit(boot, f, before, c);
      if exists k :: 0 <= k <= |cs| && Exits(boot, cs[..k]) {
        var k :| 0 <= k <= |cs| && Exits(boot, cs[..k]);
        assert k < |cs| ==> Exits(boot, before[..k]);
      }
      if exists k :: 0 <= k <= |before| && Exits(boot, before[..k]) {
        var k :| 0 <= k <= |before| && Exits(boot, before[..k]);
        assert Exits(boot, cs[..k]);
      }
    }
  }

  lemma NoExitYet(boot: nat)
    ensures !Exits(boot, [])
  {
  }

  lemma LastExit(boot: nat, f: Flash, before: string, c: char)
    ensures FeedAll(boot, Reset(f), before + [c]).run ==
            (FeedAll(boot, Reset(f), before).run && !Exits(boot, before + [c]))
  {
    hide Tracks, Digits, EndDigits, Abandons, LineNow;
    StreamTracked(boot, f, before);
    BaseFromStream(boot, f, before + [c]);
    FeedAppend(boot, Reset(f), before, [c]);
    CharTracked(boot, FeedAll(boot, Reset(f), before), before, c);
  }
}
