/**
 The CDC class bootloader: AVR109 commands over a virtual serial port, with a current
 address that advances by itself. Commands arrive as a stream of bytes and each is
 answered with some bytes; how both are cut into packets is dealt with in CdcTask.
 */
module Cdc {
  import opened Avr
  import opened Basics
  import opened Bits

  /** BOOT_START_ADDR, the signature, and the lock and fuse bytes of the part. */
  datatype Part = Part(boot: nat, signature1: byte, signature2: byte, signature3: byte,
                       lockBits: byte, lowFuses: byte, highFuses: byte, extendedFuses: byte)

  /** `curr` is CurrAddress, a byte address of words. */
  datatype DeviceFields = Device(curr: nat, run: bool, flash: Flash, eeprom: seq<byte>)

  type Device = d: DeviceFields | d.curr % 2 == 0 && d.curr < U32 witness Device(0, true, Flash([], Blank(128)), [])

  /** FetchNextCommandByte on the stream: zero once the host has gone. */
  function Next(s: seq<byte>): byte {
    if s == [] then 0 else s[0]
  }

  function Rest(s: seq<byte>): (r: seq<byte>)
    ensures |r| <= |s|
  {
    if s == [] then s else s[1..]
  }

  function Advance(curr: nat): (a: nat)
    requires curr % 2 == 0
    ensures a % 2 == 0 && a < U32
  {
    (curr + 2) % U32
  }

  /** `b << 9` in a 16-bit int, taken as an unsigned 32-bit number. */
  function ShiftedHigh(b: byte): (v: nat)
    ensures v < U32 && v % 2 == 0
  {
    var v: nat := b % 128 * 512;
    if v < 0x8000 then v else v + 0xFFFF_0000
  }

  function SetAddress(hi: byte, lo: byte): (a: nat)
    ensures a < U32 && a % 2 == 0
  {
    ShiftedHigh(hi) + lo * 2
  }

  // ---- Blocks -----------------------------------------------------------------

  function EepromAddress(curr: nat): nat {
    curr / 2 % 0x10000
  }

  /** Read `n` bytes of flash; `high` says that the upper byte of the word is next. */
  function ReadFlash(f: Flash, curr: nat, high: bool, n: nat): (r: (seq<byte>, nat))
    requires curr % 2 == 0 && curr < U32
    ensures r.1 % 2 == 0 && r.1 < U32
    decreases n
  {
    if n == 0 then ([], curr)
    else
      var b := ReadByte(f, curr + (if high then 1 else 0));
      var (bs, last) := ReadFlash(f, if high then Advance(curr) else curr, !high, n - 1);
      ([b] + bs, last)
  }

  function ReadEeprom(e: seq<byte>, curr: nat, n: nat): (r: (seq<byte>, nat))
    requires curr % 2 == 0 && curr < U32
    ensures r.1 % 2 == 0 && r.1 < U32
    decreases n
  {
    if n == 0 then ([], curr)
    else
      var (bs, last) := ReadEeprom(e, Advance(curr), n - 1);
      ([EepromByte(e, EepromAddress(curr))] + bs, last)
  }

  /** Fill the temporary buffer from `n` bytes of the stream. */
  function FillFlash(f: Flash, curr: nat, high: bool, low: byte, n: nat, s: seq<byte>): (r: (Flash, nat, seq<byte>))
    requires curr % 2 == 0 && curr < U32
    ensures r.0.Page() == f.Page() && r.1 % 2 == 0 && r.1 < U32 && |r.2| <= |s|
    decreases n
  {
    if n == 0 then (f, curr, s)
    else if high then FillFlash(Fill(f, curr, Word(low, Next(s))), Advance(curr), false, low, n - 1, Rest(s))
    else FillFlash(f, curr, true, Next(s), n - 1, Rest(s))
  }

  function WriteEeprom(e: seq<byte>, curr: nat, n: nat, s: seq<byte>): (r: (seq<byte>, nat, seq<byte>))
    requires curr % 2 == 0 && curr < U32
    ensures r.1 % 2 == 0 && r.1 < U32 && |r.2| <= |s|
    decreases n
  {
    if n == 0 then (e, curr, s)
    else WriteEeprom(StoreEeprom(e, EepromAddress(curr), Next(s)), Advance(curr), n - 1, Rest(s))
  }

  /** What a command leaves: the device, its answer, and the rest of the stream. */
  datatype Reply = Reply(device: Device, answer: seq<byte>, rest: seq<byte>)

  /** A block command once its size and memory type are known. */
  function TransferBlock(d: Device, write: bool, size: nat, kind: char, s: seq<byte>): (r: Reply)
    ensures |r.rest| <= |s|
  {
    if kind != 'F' && kind != 'E' then Reply(d, ['?' as int], s)
    else if !write then
      var (bs, curr) :=
        if kind == 'F' then ReadFlash(d.flash, d.curr, false, size) else ReadEeprom(d.eeprom, d.curr, size);
      Reply(d.(curr := curr), bs, s)
    else if kind == 'F' then
      var (f, curr, s) := FillFlash(Erase(d.flash, d.curr), d.curr, false, 0, size, s);
      Reply(d.(flash := Write(f, d.curr), curr := curr), [CR], s)
    else
      var (e, curr, s) := WriteEeprom(d.eeprom, d.curr, size, s);
      Reply(d.(eeprom := e, curr := curr), [CR], s)
  }

  /** ReadWriteMemoryBlock. */
  function MemoryBlock(d: Device, write: bool, s: seq<byte>): (r: Reply)
    ensures |r.rest| <= |s|
  {
    TransferBlock(d, write, Word(Next(Rest(s)), Next(s)), Next(Rest(Rest(s))) as char, Rest(Rest(Rest(s))))
  }

  predicate OnFlash(c: char) {
    c == 'e' || c == 'C' || c == 'c' || c == 'm' || c == 'R'
  }

  /** Commands on flash at the current address. */
  function ExecuteOnFlash(part: Part, d: Device, c: char, s: seq<byte>): (r: Reply)
    requires OnFlash(c)
    ensures |r.rest| <= |s|
  {
    if c == 'e' then Reply(d.(flash := EraseFrom(d.flash, part.boot, 0)), [CR], s)
    else if c == 'C' then Reply(d.(flash := Fill(d.flash, d.curr, Next(s))), [CR], Rest(s))
    else if c == 'c' then
      Reply(d.(flash := Fill(d.flash, d.curr + 1, Next(s)), curr := Advance(d.curr)), [CR], Rest(s))
    else if c == 'm' then Reply(d.(flash := Write(d.flash, d.curr)), [CR], s)
    else Reply(d, [ReadByte(d.flash, d.curr + 1), ReadByte(d.flash, d.curr)], s)
  }

  predicate OnAddress(c: char) {
    c == 'A' || c == 'D' || c == 'd'
  }

  /** Commands that set the current address or move one byte of EEPROM. */
  function ExecuteOnAddress(d: Device, c: char, s: seq<byte>): (r: Reply)
    requires OnAddress(c)
    ensures |r.rest| <= |s|
  {
    if c == 'A' then Reply(d.(curr := SetAddress(Next(s), Next(Rest(s)))), [CR], Rest(Rest(s)))
    else if c == 'D' then
      Reply(d.(eeprom := StoreEeprom(d.eeprom, EepromAddress(d.curr), Next(s)), curr := Advance(d.curr)), [CR], Rest(s))
    else Reply(d.(curr := Advance(d.curr)), [EepromByte(d.eeprom, EepromAddress(d.curr))], s)
  }

  /** The answer to a command that leaves memory alone. */
  function InfoAnswer(part: Part, d: Device, command: byte): seq<byte> {
    var c := command as char;
    if c == 'E' || c == 'x' || c == 'y' || c == 'T' || c == 'P' || c == 'L' || c == 'l' then [CR]
    else if c == 't' then [0x44, 0x00]
    else if c == 'a' then ['Y' as int]
    else if c == 'p' then ['S' as int]
    else if c == 'S' then [76, 85, 70, 65, 67, 68, 67]
    else if c == 'V' then ['1' as int, '0' as int]
    else if c == 's' then [part.signature3, part.signature2, part.signature1]
    else if c == 'r' then [part.lockBits]
    else if c == 'F' then [part.lowFuses]
    else if c == 'N' then [part.highFuses]
    else if c == 'Q' then [part.extendedFuses]
    else if c == 'b' then ['Y' as int, Hi(d.flash.Page()), Lo(d.flash.Page())]
    else if command != 27 then ['?' as int]
    else []
  }

  predicate TakesArgument(c: char) {
    c == 'x' || c == 'y' || c == 'T' || c == 'l'
  }

  /** One AVR109 command. */
  function Execute(part: Part, d: Device, command: byte, s: seq<byte>): (r: Reply)
    ensures |r.rest| <= |s|
  {
    var c := command as char;
    if c == 'B' || c == 'g' then MemoryBlock(d, c == 'B', s)
    else if OnFlash(c) then ExecuteOnFlash(part, d, c, s)
    else if OnAddress(c) then ExecuteOnAddress(d, c, s)
    else
      Reply(if c == 'E' then d.(run := false) else d, InfoAnswer(part, d, command),
            if TakesArgument(c) then Rest(s) else s)
  }

  /**
   Commands sent one at a time, each in packets of its own: the device and the answers.
   What is left of a command's last packet is dropped when the command is acknowledged.
   */
  function Session(part: Part, d: Device, commands: seq<seq<byte>>): (Device, seq<seq<byte>>)
    decreases commands
  {
    if commands == [] then (d, [])
    else
      var r := Execute(part, d, Next(commands[0]), Rest(commands[0]));
      var (last, answers) := Session(part, r.device, commands[1..]);
      (last, [r.answer] + answers)
  }

  /** Every command is exactly as long as it says. */
  predicate Exact(part: Part, d: Device, commands: seq<seq<byte>>)
    decreases commands
  {
    commands != [] ==>
      var r := Execute(part, d, Next(commands[0]), Rest(commands[0]));
      r.rest == [] && Exact(part, r.device, commands[1..])
  }

  // ---- The address ------------------------------------------------------------

  /** A 16-bit word address is understood if and only if its high byte is below 0x40. */
  lemma AddressUnderstoodIff(hi: byte, lo: byte)
    ensures SetAddress(hi, lo) == 2 * Word(lo, hi) <==> hi < 0x40
  {
    if hi >= 0x80 {
      assert hi * 512 % 0x10000 == hi * 512 - 0x10000;
    }
  }

  lemma AddressSet(a: nat)
    requires a % 2 == 0 && a < 0x8000
    ensures SetAddress(Hi(a / 2), Lo(a / 2)) == a
  {
    AddressUnderstoodIff(Hi(a / 2), Lo(a / 2));
  }
}
