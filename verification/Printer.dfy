/**
 The Printer class bootloader: an Intel HEX file is printed to the device one
 character at a time, and parsed and programmed into flash as it arrives.
 */
module Printer {
  import opened Avr
  import opened Basics
  import opened Bits
  import opened IntelHex

  datatype ParserState =
    | WaitLine | ByteCount | AddressHigh | AddressLow | RecordType | ReadData | Checksum

  /** HEXParser, PageDirty, RunBootloader and the flash they drive. */
  datatype Parser = Parser(
    state: ParserState, prevData: byte, data: byte, readMsb: bool,
    recordType: byte, dataRem: byte, checksum: byte,
    pageStart: nat, baseAddr: nat, currAddr: nat,
    pageDirty: bool, run: bool, flash: Flash)

  /** The state after power-up and enumeration. */
  function Reset(flash: Flash): Parser {
    Parser(WaitLine, 0, 0, false, 0, 0, 0, 0, 0, 0, false, true, flash)
  }

  /** Value of an upper-case hexadecimal digit, or -1. */
  function HexToDecimal(c: char): (d: int)
    ensures -1 <= d < 16
  {
    if 'A' <= c <= 'F' then 10 + (c as int - 'A' as int)
    else if '0' <= c <= '9' then c as int - '0' as int
    else -1
  }

  function FlushIfRequired(s: Parser): Parser {
    var page := Base(s.flash.Page(), s.currAddr);
    if s.pageDirty && s.pageStart != page then
      s.(flash := Write(s.flash, s.pageStart), pageStart := page, pageDirty := false)
    else s
  }

  /** A word of a data record: erase lazily, fill, flush on a page crossing. */
  function StoreWord(s: Parser, word: nat): Parser {
    var erased := if s.pageDirty then s.flash else Erase(s.flash, s.pageStart);
    FlushIfRequired(s.(flash := Fill(erased, s.currAddr, word), pageDirty := true,
                       currAddr := (s.currAddr + 2) % U32))
  }

  function TakeDataByte(boot: nat, s: Parser): Parser {
    var rem := (s.dataRem + 255) % 256;
    var s := s.(dataRem := rem);
    if s.currAddr >= boot then s.(state := WaitLine, pageDirty := false)
    else if rem % 2 == 1 then s.(prevData := s.data)
    else
      var word := Word(s.prevData, s.data);
      var s :=
        if s.recordType == DATA then StoreWord(s, word)
        else if s.recordType == EXTENDED_SEGMENT then s.(baseAddr := word * 16)
        else if s.recordType == EXTENDED_LINEAR then s.(baseAddr := word * 0x10000)
        else s;
      if rem == 0 then s.(state := Checksum) else s
  }

  function TakeChecksum(s: Parser): Parser {
    if s.data != (256 - s.checksum) % 256 then s
    else
      var s := FlushIfRequired(s);
      if s.recordType == END_OF_FILE then s.(run := false) else s
  }

  /** Act on the byte in `data`, which two hexadecimal digits have just completed. */
  function TakeByte(boot: nat, t: Parser): Parser {
    var s := if t.state.Checksum? then t else t.(checksum := (t.checksum + t.data) % 256);
    match s.state
    case ByteCount => s.(dataRem := s.data, state := AddressHigh)
    case AddressHigh => s.(currAddr := (s.currAddr + s.data * 256) % U32, state := AddressLow)
    case AddressLow => s.(currAddr := (s.currAddr + s.data) % U32, state := RecordType)
    case RecordType => s.(recordType := s.data, state := if s.dataRem != 0 then ReadData else Checksum)
    case ReadData => TakeDataByte(boot, s)
    case Checksum => TakeChecksum(s)
    case WaitLine => s
  }

  /** ParseIntelHEXByte; `boot` is BOOT_START_ADDR. */
  function Feed(boot: nat, s: Parser, c: char): Parser {
    if s.state.WaitLine? || c == ':' then
      s.(checksum := 0, currAddr := s.baseAddr, readMsb := false,
         state := if c == ':' then ByteCount else s.state)
    else if HexToDecimal(c) < 0 then s
    else
      var t := s.(data := (s.data * 16 + HexToDecimal(c)) % 256, readMsb := !s.readMsb);
      if t.readMsb then t else TakeByte(boot, t)
  }

  function FeedAll(boot: nat, s: Parser, cs: string): Parser
    decreases cs
  {
    if cs == [] then s else FeedAll(boot, Feed(boot, s, cs[0]), cs[1..])
  }

  lemma {:induction false} FeedAppend(boot: nat, s: Parser, xs: string, ys: string)
    ensures FeedAll(boot, s, xs + ys) == FeedAll(boot, FeedAll(boot, s, xs), ys)
    decreases xs
  {
    if xs == [] {
      assert xs + ys == ys;
    } else {
      assert (xs + ys)[1..] == xs[1..] + ys;
      FeedAppend(boot, Feed(boot, s, xs[0]), xs[1..], ys);
    }
  }

  // ---- Characters that carry nothing ------------------------------------------

  predicate Significant(c: char) {
    c == ':' || HexToDecimal(c) >= 0
  }

  function Strip(cs: string): string {
    if cs == [] then []
    else (if Significant(cs[0]) then [cs[0]] else []) + Strip(cs[1..])
  }

  /** Equal, or both between lines and equal in everything that outlives the wait. */
  predicate Alike(s: Parser, t: Parser) {
    || s == t
    || (s.state.WaitLine? &&
        s == t.(checksum := s.checksum, currAddr := s.currAddr, readMsb := s.readMsb))
  }

  /** Whatever the stream, characters other than 0-9, A-F and ':' have no effect. */
  lemma {:induction false} NoiseIgnored(boot: nat, s: Parser, t: Parser, cs: string)
    requires Alike(s, t)
    ensures Alike(FeedAll(boot, s, cs), FeedAll(boot, t, Strip(cs)))
    decreases cs
  {
    if cs != [] {
      if Significant(cs[0]) {
        assert Strip(cs)[1..] == Strip(cs[1..]);
        assert Alike(Feed(boot, s, cs[0]), Feed(boot, t, cs[0]));
        NoiseIgnored(boot, Feed(boot, s, cs[0]), Feed(boot, t, cs[0]), cs[1..]);
      } else {
        assert Strip(cs) == Strip(cs[1..]);
        NoiseIgnored(boot, Feed(boot, s, cs[0]), t, cs[1..]);
      }
    }
  }

  // ---- From characters to bytes -----------------------------------------------

  lemma DigitValue(d: nat)
    requires d < 16
    ensures HexToDecimal(HexDigit(d)) == d && HexDigit(d) != ':'
  {
  }

  lemma TwoDigits(data: nat, b: nat)
    requires b < 256
    ensures ((data * 16 + b / 16) % 256 * 16 + b % 16) % 256 == b
  {
    var x := data * 16 + b / 16;
    Same256(x % 256 * 16 + b % 16, b, data - 16 * (x / 256));
  }

  /** Two digits of a byte, seen within a record, are one byte step. */
  lemma FeedHexByte(boot: nat, s: Parser, b: byte)
    requires !s.readMsb && !s.state.WaitLine?
    ensures FeedAll(boot, s, HexByte(b)) == TakeByte(boot, s.(data := b))
  {
    hide TakeByte, HexToDecimal, HexDigit;
    var t := s.(data := (s.data * 16 + b / 16) % 256, readMsb := true);
    DigitValue(b / 16);
    DigitValue(b % 16);
    TwoDigits(s.data, b);
    var x, y := HexDigit(b / 16), HexDigit(b % 16);
    assert Feed(boot, s, x) == t;
    assert Feed(boot, t, y) == TakeByte(boot, s.(data := b));
    assert HexByte(b)[1..] == [y] && [y][1..] == [];
    assert FeedAll(boot, t, [y]) == FeedAll(boot, Feed(boot, t, y), []);
  }

  lemma FeedHexBytes(boot: nat, s: Parser, b: byte, bs: seq<byte>)
    requires !s.readMsb && !s.state.WaitLine?
    ensures FeedAll(boot, s, HexBytes([b] + bs)) ==
            FeedAll(boot, TakeByte(boot, s.(data := b)), HexBytes(bs))
  {
    assert ([b] + bs)[1..] == bs;
    FeedHexByte(boot, s, b);
    FeedAppend(boot, s, HexByte(b), HexBytes(bs));
  }

  lemma StoreWordFrame(s: Parser, w: nat)
    ensures var t := StoreWord(s, w);
            && t.state == s.state && t.recordType == s.recordType && t.dataRem == s.dataRem
            && t.checksum == s.checksum && t.readMsb == s.readMsb && t.run == s.run
            && t.prevData == s.prevData && t.baseAddr == s.baseAddr && t.currAddr == (s.currAddr + 2) % U32
  {
  }

  // ---- The program ------------------------------------------------------------

  class Bootloader {
    const boot: nat
    var parserState: ParserState
    var prevData: byte
    var data: byte
    var readMsb: bool
    var recordType: byte
    var dataRem: byte
    var checksum: byte
    var pageStartAddress: nat
    var currBaseAddress: nat
    var currAddress: nat
    var pageDirty: bool
    var runBootloader: bool
    var flash: Flash

    ghost function View(): Parser
      reads this
    {
      Parser(parserState, prevData, data, readMsb, recordType, dataRem, checksum,
             pageStartAddress, currBaseAddress, currAddress, pageDirty, runBootloader, flash)
    }

    constructor (boot: nat, flash: Flash)
      ensures this.boot == boot && View() == Reset(flash)
    {
      this.boot, this.flash := boot, flash;
      parserState, prevData, data, readMsb := WaitLine, 0, 0, false;
      recordType, dataRem, checksum := 0, 0, 0;
      pageStartAddress, currBaseAddress, currAddress := 0, 0, 0;
      pageDirty, runBootloader := false, true;
    }

    method FlushPageIfRequired()
      modifies this
      ensures View() == FlushIfRequired(old(View()))
    {
      hide Base, Write;
      if !pageDirty {
        return;
      }
      var newPageStartAddress := Base(flash.Page(), currAddress);
      if pageStartAddress != newPageStartAddress {
        flash := Write(flash, pageStartAddress);
        pageStartAddress := newPageStartAddress;
        pageDirty := false;
      }
    }

    method StoreDataWord(word: nat)
      modifies this
      ensures View() == StoreWord(old(View()), word)
    {
      hide Base, Erase, Fill, Write, FlushIfRequired;
      if !pageDirty {
        flash := Erase(flash, pageStartAddress);
        pageDirty := true;
      }
      flash := Fill(flash, currAddress, word);
      currAddress := (currAddress + 2) % U32;
      FlushPageIfRequired();
    }

    /** The HEX_PARSE_STATE_READ_DATA case. */
    method TakeData()
      requires parserState == ReadData
      modifies this
      ensures View() == TakeDataByte(boot, old(View()))
    {
      hide StoreWord, Word;
      dataRem := (dataRem + 255) % 256;
      if currAddress >= boot {
        parserState, pageDirty := WaitLine, false;
        return;
      }
      if dataRem % 2 == 1 {
        prevData := data;
        return;
      }
      var newDataWord := Word(prevData, data);
      if recordType == DATA {
        StoreWordFrame(View(), newDataWord);
        StoreDataWord(newDataWord);
      } else if recordType == EXTENDED_SEGMENT {
        currBaseAddress := newDataWord * 16;
      } else if recordType == EXTENDED_LINEAR {
        currBaseAddress := newDataWord * 0x10000;
      }
      if dataRem == 0 {
        parserState := Checksum;
      }
    }

    /** The HEX_PARSE_STATE_CHECKSUM case. */
    method TakeRecordChecksum()
      modifies this
      ensures View() == TakeChecksum(old(View()))
    {
      hide FlushIfRequired;
      if data == (256 - checksum) % 256 {
        FlushPageIfRequired();
        if recordType == END_OF_FILE {
          runBootloader := false;
        }
      }
    }

    /** The part of ParseIntelHEXByte that acts on a completed byte. */
    method ActOnByte()
      modifies this
      ensures View() == TakeByte(boot, old(View()))
    {
      hide TakeChecksum, TakeDataByte;
      if parserState != Checksum {
        checksum := (checksum + data) % 256;
      }
      match parserState {
        case ByteCount =>
          dataRem, parserState := data, AddressHigh;
        case AddressHigh =>
          currAddress, parserState := (currAddress + data * 256) % U32, AddressLow;
        case AddressLow =>
          currAddress, parserState := (currAddress + data) % U32, RecordType;
        case RecordType =>
          recordType, parserState := data, if dataRem != 0 then ReadData else Checksum;
        case ReadData =>
          TakeData();
        case Checksum =>
          TakeRecordChecksum();
        case WaitLine =>
      }
    }

    method ParseIntelHEXByte(c: char)
      modifies this
      ensures View() == Feed(boot, old(View()), c)
    {
      hide TakeByte, HexToDecimal;
      if parserState == WaitLine || c == ':' {
        checksum, currAddress, readMsb := 0, currBaseAddress, false;
        if c == ':' {
          parserState := ByteCount;
        }
        return;
      }
      var digit := HexToDecimal(c);
      if digit < 0 {
        return;
      }
      data := (data * 16 + digit) % 256;
      readMsb := !readMsb;
      if readMsb {
        return;
      }
      ActOnByte();
    }

    /** The bytes of one received packet, in order. */
    method ReceivePacket(packet: string)
      modifies this
      ensures View() == FeedAll(boot, old(View()), packet)
    {
      hide Feed;
      var i := 0;
      while i < |packet|
        invariant 0 <= i <= |packet|
        invariant FeedAll(boot, View(), packet[i..]) == FeedAll(boot, old(View()), packet)
      {
        ParseIntelHEXByte(packet[i]);
        i := i + 1;
      }
    }
  }
}
