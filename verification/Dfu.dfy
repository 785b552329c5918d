/**
 The DFU class bootloader: DFU requests (USB DFU 1.1, sections 3 and 6) with Atmel's
 programming commands inside DFU_DNLOAD and DFU_UPLOAD.

 A request comes with the OUT packets the host sends for it and the number of IN
 packets it asks for; after those the host is taken to have detached.
 */
module Dfu {
  import opened Avr
  import opened Basics
  import opened Bits
  import opened Usb

  const U16 := 0x10000

  const ENDPOINT_SIZE := 32
  const FILLER_BYTES_SIZE := 26
  const FILE_SUFFIX_SIZE := 16

  const COMMAND_PROG_START: byte := 1
  const COMMAND_DISP_DATA: byte := 3
  const COMMAND_WRITE: byte := 4
  const COMMAND_READ: byte := 5
  const COMMAND_CHANGE_BASE_ADDR: byte := 6

  datatype State = Idle | DnloadIdle | UploadIdle | Error

  function StateCode(s: State): byte {
    match s
    case Idle => 2
    case DnloadIdle => 5
    case UploadIdle => 9
    case Error => 10
  }

  datatype Status = OK | ErrWrite | ErrCheckErased | ErrAddress

  function StatusCode(s: Status): byte {
    match s
    case OK => 0
    case ErrWrite => 3
    case ErrCheckErased => 5
    case ErrAddress => 8
  }

  /** BOOT_START_ADDR and the three signature bytes of the part. */
  datatype Part = Part(boot: nat, signature1: byte, signature2: byte, signature3: byte)

  datatype DeviceFields = Device(
    secure: bool, run: bool, waitForExit: bool, state: State, status: Status,
    command: byte, data: seq<byte>, dataSize: nat, response: byte,
    page64: byte, startAddr: nat, endAddr: nat,
    appStart: nat, watchdog: bool,
    flash: Flash, eeprom: seq<byte>)

  /** SentCommand.Data holds five bytes; addresses are 16 bits wide. */
  predicate DeviceShape(d: DeviceFields) {
    |d.data| == 5 && d.startAddr < U16 && d.endAddr < U16
  }

  type Device = d: DeviceFields | DeviceShape(d)
    witness Device(false, true, false, Idle, OK, 0, [0, 0, 0, 0, 0], 0, 0, 0, 0, 0, 0, false,
                   Flash([], Blank(128)), [])

  datatype Kind = Foreign | Dnload | Upload | GetStatus | ClrStatus | GetState | Abort | Other

  datatype Request = Request(kind: Kind, wLength: nat, packets: seq<seq<byte>>, polls: nat)

  /** What the host gets to see: IN packets. */
  type Packets = seq<seq<byte>>

  /** The 32-bit flash address of a 16-bit address in the current 64 KB page. */
  function FlashAddress(d: Device, a: nat): nat {
    d.page64 * 0x10000 + a
  }

  function BytesRemaining(d: Device): nat {
    (d.endAddr - d.startAddr + 1) % U16
  }

  // ---- Commands ---------------------------------------------------------------

  function LoadAddresses(d: Device): Device {
    d.(startAddr := Word(d.data[2], d.data[1]), endAddr := Word(d.data[4], d.data[3]))
  }

  function ProcessMemProg(d: Device): Device {
    if d.data[0] == 0 then
      var d := LoadAddresses(d);
      d.(flash := Erase(d.flash, FlashAddress(d, d.startAddr)), state := DnloadIdle)
    else if d.data[0] == 1 then LoadAddresses(d).(state := DnloadIdle)
    else d
  }

  /** The first address from `a` on, below BOOT_START_ADDR, that is not blank. */
  function FirstUsed(f: Flash, boot: nat, a: nat): Option<nat>
    decreases boot - a
  {
    if a >= boot then None
    else if ReadByte(f, a) != 255 then Some(a)
    else FirstUsed(f, boot, a + 1)
  }

  function ProcessMemRead(part: Part, d: Device): Device {
    if d.data[0] == 0 || d.data[0] == 2 then LoadAddresses(d).(state := UploadIdle)
    else if d.data[0] == 1 then
      match FirstUsed(d.flash, part.boot, 0)
      case None => d
      case Some(a) =>
        d.(page64 := a / 0x10000 % 256, startAddr := a % U16, state := Error, status := ErrCheckErased)
    else d
  }

  function ProcessWrite(part: Part, d: Device): Device {
    if d.data[0] == 3 then
      var d := d.(waitForExit := true);
      if d.dataSize != 0 then
        if d.data[1] == 1 then d.(appStart := Word(d.data[4], d.data[3])) else d
      else if d.data[1] == 0 then d.(watchdog := true)
      else if ReadWord(d.flash, 0) == 0xFFFF then d.(run := false)
      else d
    else if d.data[0] == 0 && d.data[1] == 255 then
      d.(flash := EraseFrom(d.flash, part.boot, 0), secure := false)
    else d
  }

  function ProcessRead(part: Part, d: Device): Device {
    var i := d.data[1];
    if d.data[0] == 0 then
      if i < 3 then d.(response := [0x20, 0xDC, 0xFB][i]) else d.(state := Error, status := ErrAddress)
    else if d.data[0] == 1 then
      if i == 0x30 then d.(response := 0x58)
      else if i == 0x31 then d.(response := part.signature1)
      else if i == 0x60 then d.(response := part.signature2)
      else if i == 0x61 then d.(response := part.signature3)
      else d.(state := Error, status := ErrAddress)
    else d
  }

  /** Commands a locked device carries out: chip erase and information reads. */
  predicate AllowedWhenSecure(d: Device) {
    (d.command == COMMAND_WRITE && d.data[0] == 0 && d.data[1] == 255) || d.command == COMMAND_READ
  }

  function ProcessCommand(part: Part, d: Device): Device {
    if d.secure && !AllowedWhenSecure(d) then d.(state := Error, status := ErrWrite)
    else if d.command == COMMAND_PROG_START then ProcessMemProg(d)
    else if d.command == COMMAND_DISP_DATA then ProcessMemRead(part, d)
    else if d.command == COMMAND_WRITE then ProcessWrite(part, d)
    else if d.command == COMMAND_READ then ProcessRead(part, d)
    else if d.command == COMMAND_CHANGE_BASE_ADDR && d.data[0] == 3 && d.data[1] == 0 then
      d.(page64 := d.data[2])
    else d
  }

  // ---- DFU_DNLOAD -------------------------------------------------------------

  /** DiscardFillerBytes: a packet switch costs one of the `n`. */
  function Discard(p: OutPipe, n: nat): OutPipe
    decreases n
  {
    if n == 0 then p
    else if p.bank != [] then Discard(Drop8(p), n - 1)
    else match NextPacket(p)
      case None => p
      case Some(q) => Discard(q, n - 1)
  }

  /** Read command parameters into Data[i..] while the packet lasts. */
  function ReadParameters(d: Device, p: OutPipe, i: nat): (Device, OutPipe)
    requires i <= 5
    decreases 5 - i
  {
    if i == 5 || p.bank == [] then (d, p)
    else
      ReadParameters(d.(data := d.data[i := p.bank[0]], dataSize := (d.dataSize + U16 - 1) % U16), Drop8(p), i + 1)
  }

  function ReadCommand(d: Device, p: OutPipe): (Device, OutPipe) {
    ReadParameters(d.(command := Peek8(p), dataSize := (d.dataSize + U16 - 1) % U16), Drop8(p), 0)
  }

  /** The flash programming loop; the first component is false if the host detached. */
  function ProgramWords(f: Flash, p: OutPipe, words: nat, addr: nat, pageStart: nat, inPage: nat): (bool, Flash)
    decreases words
  {
    if words == 0 then (true, f)
    else match Refill(p)
      case None => (false, f)
      case Some(q) =>
        var f := Fill(f, addr, Peek16(q));
        if (inPage + 1) % 256 == f.Page() / 2 || words == 1 then
          var f := Write(f, pageStart);
          if words == 1 then (true, f)
          else ProgramWords(Erase(f, addr + 2), Drop16(q), words - 1, addr + 2, addr + 2, 0)
        else ProgramWords(f, Drop16(q), words - 1, addr + 2, pageStart, (inPage + 1) % 256)
  }

  /** The EEPROM programming loop: contents and the address reached. */
  function ProgramEeprom(e: seq<byte>, p: OutPipe, bytes: nat, addr: nat): (bool, seq<byte>, nat)
    decreases bytes
  {
    if bytes == 0 then (true, e, addr)
    else match Refill(p)
      case None => (false, e, addr)
      case Some(q) => ProgramEeprom(StoreEeprom(e, addr, Peek8(q)), Drop8(q), bytes - 1, (addr + 1) % U16)
  }

  function ReceiveFlash(d: Device, p: OutPipe): Device {
    var a := FlashAddress(d, d.startAddr);
    var (done, f) := ProgramWords(d.flash, p, BytesRemaining(d) / 2, a, a, 0);
    if done then d.(flash := f, startAddr := d.endAddr) else d.(flash := f)
  }

  function ReceiveEeprom(d: Device, p: OutPipe): Device {
    var (done, e, a) := ProgramEeprom(d.eeprom, p, BytesRemaining(d), d.startAddr);
    d.(eeprom := e, startAddr := a % U16)
  }

  function ReceiveFirmware(d: Device, p: OutPipe): Device {
    var p := Discard(Discard(p, FILLER_BYTES_SIZE), d.startAddr % ENDPOINT_SIZE);
    if d.data[0] == 0 then ReceiveFlash(d, p) else ReceiveEeprom(d, p)
  }

  /** The part of DFU_DNLOAD after the command, if any, has been processed. */
  function FinishDownload(d: Device, p: OutPipe): Device {
    if !d.state.DnloadIdle? then d
    else if d.dataSize == 0 then d.(state := Idle)
    else ReceiveFirmware(d, p)
  }

  function HandleDnload(part: Part, d: Device, packets: Packets): Device {
    var d := if d.waitForExit then ProcessCommand(part, d).(waitForExit := false) else d;
    var p := OutPipe([], packets);
    if d.dataSize == 0 then FinishDownload(d, p)
    else match NextPacket(p)
      case None => d
      case Some(q) =>
        var (d, p) := ReadCommand(d, q);
        FinishDownload(ProcessCommand(part, d), p)
  }

  // ---- DFU_UPLOAD -------------------------------------------------------------

  /** The flash reading loop: whether it finished, the packets sent, the open bank. */
  function ReadWords(f: Flash, addr: nat, words: nat, bank: seq<byte>, polls: nat): (bool, Packets, seq<byte>)
    decreases words
  {
    if words == 0 then (true, [], bank)
    else if |bank| == ENDPOINT_SIZE then
      if polls == 0 then (false, [bank], [])
      else
        var (done, sent, last) := ReadWords(f, addr + 2, words - 1, [ReadByte(f, addr), ReadByte(f, addr + 1)],
                                            polls - 1);
        (done, [bank] + sent, last)
    else ReadWords(f, addr + 2, words - 1, bank + [ReadByte(f, addr), ReadByte(f, addr + 1)], polls)
  }

  /** The EEPROM reading loop, and the address reached. */
  function ReadEeprom(e: seq<byte>, addr: nat, bytes: nat, bank: seq<byte>, polls: nat): (bool, Packets, seq<byte>, nat)
    decreases bytes
  {
    if bytes == 0 then (true, [], bank, addr)
    else if |bank| == ENDPOINT_SIZE then
      if polls == 0 then (false, [bank], [], addr)
      else
        var (done, sent, last, a) := ReadEeprom(e, (addr + 1) % U16, bytes - 1, [EepromByte(e, addr)], polls - 1);
        (done, [bank] + sent, last, a)
    else ReadEeprom(e, (addr + 1) % U16, bytes - 1, bank + [EepromByte(e, addr)], polls)
  }

  function SendMemory(d: Device, polls: nat): (Device, Packets) {
    if d.data[0] == 0 then
      var (done, sent, last) := ReadWords(d.flash, FlashAddress(d, d.startAddr), BytesRemaining(d) / 2, [], polls);
      if done then (d.(startAddr := d.endAddr, state := Idle), sent + [last]) else (d, sent)
    else if d.data[0] == 2 then
      var (done, sent, last, a) := ReadEeprom(d.eeprom, d.startAddr, BytesRemaining(d), [], polls);
      var d := d.(startAddr := a % U16);
      if done then (d.(state := Idle), sent + [last]) else (d, sent)
    else (d.(state := Idle), [[]])
  }

  function HandleUpload(d: Device, polls: nat): (Device, Packets) {
    if polls == 0 then (d, [])
    else if d.state.UploadIdle? then SendMemory(d, polls - 1)
    else if d.state.Error? && d.data[0] == 1 then (d, [[Lo(d.startAddr), Hi(d.startAddr)]])
    else (d, [[d.response]])
  }

  // ---- Requests ---------------------------------------------------------------

  /** The requests that neither download nor upload. */
  function HandleShort(e: Device, kind: Kind, polls: nat): (Device, Packets) {
    match kind
    case GetStatus => (e, if polls == 0 then [] else [[StatusCode(e.status), 0, 0, 0, StateCode(e.state), 0]])
    case ClrStatus => (e.(status := OK), [])
    case GetState => (e, if polls == 0 then [] else [[StateCode(e.state)]])
    case Abort => (e.(state := Idle), [])
    case _ => (e, [])
  }

  /** EVENT_USB_Device_ControlRequest. */
  function Handle(part: Part, d: Device, r: Request): (Device, Packets) {
    var e := d.(dataSize := r.wLength % U16);
    match r.kind
    case Foreign => (d, [])
    case Dnload => (HandleDnload(part, e, r.packets), [])
    case Upload => HandleUpload(e, r.polls)
    case _ => HandleShort(e, r.kind, r.polls)
  }

  /** A whole session: the final device, and every packet the host has seen. */
  function Session(part: Part, d: Device, rs: seq<Request>): (Device, seq<Packets>)
    decreases rs
  {
    if rs == [] then (d, [])
    else
      var (e, out) := Handle(part, d, rs[0]);
      var (last, outs) := Session(part, e, rs[1..]);
      (last, [out] + outs)
  }
}
