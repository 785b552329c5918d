/**
 The DFU bootloader's request handler and its loops as they update the device,
 proved against the functions of Dfu.
 */
module DfuDevice {
  import opened Avr
  import opened Basics
  import opened Bits
  import opened Usb
  import opened Dfu

  lemma ParametersStep(d: Device, p: OutPipe, i: nat)
    requires i <= 5
    ensures ReadParameters(d, p, i) ==
            if i == 5 || p.bank == [] then (d, p)
            else ReadParameters(d.(data := d.data[i := p.bank[0]], dataSize := (d.dataSize + U16 - 1) % U16),
                                Drop8(p), i + 1)
  {
  }

  class Bootloader {
    const part: Part
    var isSecure: bool
    var runBootloader: bool
    var waitForExit: bool
    var state: State
    var status: Status
    var command: byte
    var data: seq<byte>
    var dataSize: nat
    var responseByte: byte
    var flash64KBPage: byte
    var startAddr: nat
    var endAddr: nat
    var appStart: nat
    var watchdog: bool
    var flash: Flash
    var eeprom: seq<byte>
    /** The control endpoint: packets from the host, and the bank and packets to it. */
    var pipe: OutPipe
    var bank: seq<byte>
    var sent: Packets

    ghost predicate Valid()
      reads this
    {
      |data| == 5 && startAddr < U16 && endAddr < U16
    }

    ghost function View(): Device
      requires Valid()
      reads this
    {
      Device(isSecure, runBootloader, waitForExit, state, status, command, data, dataSize, responseByte,
             flash64KBPage, startAddr, endAddr, appStart, watchdog, flash, eeprom)
    }

    /** Power-up with the given SECURE_MODE setting. */
    constructor (part: Part, secureMode: bool, flash: Flash, eeprom: seq<byte>)
      ensures this.part == part && Valid()
      ensures View() == Device(secureMode, true, false, Idle, OK, 0, [0, 0, 0, 0, 0], 0, 0, 0, 0, 0, 0, false, flash,
                               eeprom)
    {
      this.part, isSecure, this.flash, this.eeprom := part, secureMode, flash, eeprom;
      runBootloader, waitForExit, state, status := true, false, Idle, OK;
      command, data, dataSize, responseByte := 0, [0, 0, 0, 0, 0], 0, 0;
      flash64KBPage, startAddr, endAddr, appStart, watchdog := 0, 0, 0, 0, false;
      pipe, bank, sent := OutPipe([], []), [], [];
    }

    method LoadStartEndAddresses()
      requires Valid()
      modifies this`startAddr, this`endAddr
      ensures Valid() && View() == LoadAddresses(old(View()))
    {
      startAddr := Word(data[2], data[1]);
      endAddr := Word(data[4], data[3]);
    }

    method ProcessMemProgCommand()
      requires Valid()
      modifies this`startAddr, this`endAddr, this`flash, this`state
      ensures Valid() && View() == ProcessMemProg(old(View()))
    {
      if data[0] == 0 || data[0] == 1 {
        LoadStartEndAddresses();
        if data[0] == 0 {
          flash := Erase(flash, flash64KBPage * 0x10000 + startAddr);
        }
        state := DnloadIdle;
      }
    }

    method ProcessMemReadCommand()
      requires Valid()
      modifies this`startAddr, this`endAddr, this`flash64KBPage, this`state, this`status
      ensures Valid() && View() == ProcessMemRead(part, old(View()))
    {
      hide LoadAddresses, ReadByte;
      if data[0] == 0 || data[0] == 2 {
        LoadStartEndAddresses();
        state := UploadIdle;
      } else if data[0] == 1 {
        var currFlashAddress := 0;
        while currFlashAddress < part.boot
          invariant 0 <= currFlashAddress && Valid() && View() == old(View())
          invariant FirstUsed(flash, part.boot, 0) == FirstUsed(flash, part.boot, currFlashAddress)
        {
          if ReadByte(flash, currFlashAddress) != 255 {
            flash64KBPage := currFlashAddress / 0x10000 % 256;
            startAddr := currFlashAddress % U16;
            state, status := Error, ErrCheckErased;
            return;
          }
          currFlashAddress := currFlashAddress + 1;
        }
      }
    }

    method ProcessWriteCommand()
      requires Valid()
      modifies this`waitForExit, this`appStart, this`watchdog, this`runBootloader, this`flash, this`isSecure
      ensures Valid() && View() == ProcessWrite(part, old(View()))
    {
      hide EraseFrom, Word, ReadWord;
      if data[0] == 3 {
        waitForExit := true;
        if dataSize != 0 {
          if data[1] == 1 {
            appStart := Word(data[4], data[3]);
          }
        } else if data[1] == 0 {
          watchdog := true;
        } else if ReadWord(flash, 0) == 0xFFFF {
          runBootloader := false;
        }
      } else if data[0] == 0 && data[1] == 255 {
        flash := EraseSection(flash, part.boot);
        isSecure := false;
      }
    }

    method ProcessReadCommand()
      requires Valid()
      modifies this`responseByte, this`state, this`status
      ensures Valid() && View() == ProcessRead(part, old(View()))
    {
      var dataIndexToRead, readAddressInvalid := data[1], false;
      if data[0] == 0 {
        if dataIndexToRead < 3 {
          responseByte := [0x20, 0xDC, 0xFB][dataIndexToRead];
        } else {
          readAddressInvalid := true;
        }
      } else if data[0] == 1 {
        if dataIndexToRead == 0x30 {
          responseByte := 0x58;
        } else if dataIndexToRead == 0x31 {
          responseByte := part.signature1;
        } else if dataIndexToRead == 0x60 {
          responseByte := part.signature2;
        } else if dataIndexToRead == 0x61 {
          responseByte := part.signature3;
        } else {
          readAddressInvalid := true;
        }
      }
      if readAddressInvalid {
        state, status := Error, ErrAddress;
      }
    }

    method ProcessBootloaderCommand()
      requires Valid()
      modifies this
      ensures Valid() && View() == ProcessCommand(part, old(View())) && pipe == old(pipe)
    {
      hide ProcessMemProg, ProcessMemRead, ProcessWrite, ProcessRead;
      if isSecure {
        if !((command == COMMAND_WRITE && data[0] == 0 && data[1] == 255) || command == COMMAND_READ) {
          state, status := Error, ErrWrite;
          return;
        }
      }
      if command == COMMAND_PROG_START {
        ProcessMemProgCommand();
      } else if command == COMMAND_DISP_DATA {
        ProcessMemReadCommand();
      } else if command == COMMAND_WRITE {
        ProcessWriteCommand();
      } else if command == COMMAND_READ {
        ProcessReadCommand();
      } else if command == COMMAND_CHANGE_BASE_ADDR {
        if data[0] == 3 && data[1] == 0 {
          flash64KBPage := data[2];
        }
      }
    }

    method DiscardFillerBytes(numberOfBytes: nat)
      modifies this`pipe
      ensures pipe == Discard(old(pipe), numberOfBytes)
    {
      var n := numberOfBytes;
      while n > 0
        invariant Discard(pipe, n) == Discard(old(pipe), numberOfBytes)
      {
        if pipe.bank == [] {
          if pipe.queue == [] {
            return;
          }
          pipe := NextPacket(pipe).value;
        } else {
          pipe := Drop8(pipe);
        }
        n := n - 1;
      }
    }

    method WriteFlash() returns (attached: bool)
      requires Valid()
      modifies this`flash, this`pipe
      ensures var a := FlashAddress(old(View()), startAddr);
              (attached, flash) == ProgramWords(old(flash), old(pipe), BytesRemaining(old(View())) / 2, a, a, 0)
    {
      hide Fill, Write, Erase, Peek16, Drop16;
      var wordsRemaining: nat := (endAddr - startAddr + 1) % U16 / 2;
      var currFlashAddress := flash64KBPage * 0x10000 + startAddr;
      var currFlashPageStartAddress, wordsInFlashPage := currFlashAddress, 0;
      ghost var want := ProgramWords(flash, pipe, wordsRemaining, currFlashAddress, currFlashAddress, 0);
      while wordsRemaining > 0
        invariant 0 <= currFlashAddress && 0 <= currFlashPageStartAddress && 0 <= wordsInFlashPage
        invariant ProgramWords(flash, pipe, wordsRemaining, currFlashAddress, currFlashPageStartAddress,
                               wordsInFlashPage) == want
      {
        wordsRemaining := wordsRemaining - 1;
        if pipe.bank == [] {
          if pipe.queue == [] {
            return false;
          }
          pipe := NextPacket(pipe).value;
        }
        flash := Fill(flash, currFlashAddress, Peek16(pipe));
        pipe := Drop16(pipe);
        wordsInFlashPage := (wordsInFlashPage + 1) % 256;
        currFlashAddress := currFlashAddress + 2;
        if wordsInFlashPage == flash.Page() / 2 || wordsRemaining == 0 {
          flash := Write(flash, currFlashPageStartAddress);
          if wordsRemaining != 0 {
            currFlashPageStartAddress := currFlashAddress;
            wordsInFlashPage := 0;
            flash := Erase(flash, currFlashAddress);
          }
        }
      }
      return true;
    }

    method WriteEeprom() returns (attached: bool)
      requires Valid()
      modifies this`eeprom, this`startAddr, this`pipe
      ensures Valid()
      ensures (attached, eeprom, startAddr) ==
              ProgramEeprom(old(eeprom), old(pipe), BytesRemaining(old(View())), old(startAddr))
    {
      var bytesRemaining: nat := (endAddr - startAddr + 1) % U16;
      ghost var want := ProgramEeprom(eeprom, pipe, bytesRemaining, startAddr);
      while bytesRemaining > 0
        invariant Valid() && ProgramEeprom(eeprom, pipe, bytesRemaining, startAddr) == want
      {
        bytesRemaining := bytesRemaining - 1;
        if pipe.bank == [] {
          if pipe.queue == [] {
            return false;
          }
          pipe := NextPacket(pipe).value;
        }
        eeprom := StoreEeprom(eeprom, startAddr, Peek8(pipe));
        pipe := Drop8(pipe);
        startAddr := (startAddr + 1) % U16;
      }
      return true;
    }

    method StoreFlash() returns (attached: bool)
      requires Valid()
      modifies this`flash, this`startAddr, this`pipe
      ensures Valid() && View() == ReceiveFlash(old(View()), old(pipe))
    {
      hide ProgramWords, FlashAddress, BytesRemaining;
      attached := WriteFlash();
      if attached {
        startAddr := endAddr;
      }
    }

    method StoreEepromData() returns (attached: bool)
      requires Valid()
      modifies this`eeprom, this`startAddr, this`pipe
      ensures Valid() && View() == ReceiveEeprom(old(View()), old(pipe))
    {
      hide ProgramEeprom, BytesRemaining;
      attached := WriteEeprom();
    }

    method StoreFirmware()
      requires Valid()
      modifies this`flash, this`eeprom, this`startAddr, this`pipe
      ensures Valid() && View() == ReceiveFirmware(old(View()), old(pipe))
    {
      hide ReceiveFlash, ReceiveEeprom, Discard;
      DiscardFillerBytes(FILLER_BYTES_SIZE);
      DiscardFillerBytes(startAddr % ENDPOINT_SIZE);
      var attached;
      if data[0] == 0 {
        attached := StoreFlash();
      } else {
        attached := StoreEepromData();
      }
      if attached {
        DiscardFillerBytes(FILE_SUFFIX_SIZE);
      }
    }

    /** The download of firmware within DFU_DNLOAD. */
    method Download()
      requires Valid()
      modifies this`flash, this`eeprom, this`startAddr, this`state, this`pipe
      ensures Valid() && View() == FinishDownload(old(View()), old(pipe))
    {
      hide ReceiveFirmware;
      if state != DnloadIdle {
        return;
      }
      if dataSize == 0 {
        state := Idle;
      } else {
        StoreFirmware();
      }
    }

    method ReceiveParameters()
      requires Valid()
      modifies this`data, this`dataSize, this`pipe
      ensures Valid() && (View(), pipe) == ReadParameters(old(View()), old(pipe), 0)
    {
      hide ReadParameters;
      var dataByte: nat := 0;
      while dataByte < 5 && pipe.bank != []
        invariant dataByte <= 5 && Valid()
        invariant ReadParameters(View(), pipe, dataByte) == ReadParameters(old(View()), old(pipe), 0)
      {
        ParametersStep(View(), pipe, dataByte);
        data := data[dataByte := pipe.bank[0]];
        pipe := Drop8(pipe);
        dataSize := (dataSize + U16 - 1) % U16;
        dataByte := dataByte + 1;
      }
      ParametersStep(View(), pipe, dataByte);
    }

    /** The command byte and its parameters. */
    method ReceiveCommand()
      requires Valid()
      modifies this`command, this`data, this`dataSize, this`pipe
      ensures Valid() && (View(), pipe) == ReadCommand(old(View()), old(pipe))
    {
      hide ReadParameters;
      command := Peek8(pipe);
      pipe := Drop8(pipe);
      dataSize := (dataSize + U16 - 1) % U16;
      ReceiveParameters();
    }

    method DnloadRequest()
      requires Valid() && pipe.bank == []
      modifies this
      ensures Valid() && View() == HandleDnload(part, old(View()), old(pipe.queue))
    {
      hide ProcessCommand, ReadCommand, FinishDownload;
      if waitForExit {
        ProcessBootloaderCommand();
        waitForExit := false;
      }
      if dataSize != 0 {
        if pipe.queue == [] {
          return;
        }
        pipe := NextPacket(pipe).value;
        ReceiveCommand();
        ProcessBootloaderCommand();
      }
      Download();
    }

    method SendFlash(polls: nat) returns (attached: bool)
      requires Valid() && bank == [] && sent == []
      modifies this`bank, this`sent
      ensures var (done, packets, last) :=
                ReadWords(flash, FlashAddress(View(), startAddr), BytesRemaining(View()) / 2, [], polls);
              attached == done && sent == packets && bank == last
    {
      var wordsRemaining: nat, polled: nat := (endAddr - startAddr + 1) % U16 / 2, polls;
      var currFlashAddress := flash64KBPage * 0x10000 + startAddr;
      ghost var want := ReadWords(flash, currFlashAddress, wordsRemaining, [], polls);
      while wordsRemaining > 0
        invariant 0 <= currFlashAddress && Valid()
        invariant var now := ReadWords(flash, currFlashAddress, wordsRemaining, bank, polled);
                  want.0 == now.0 && want.1 == sent + now.1 && want.2 == now.2
      {
        wordsRemaining := wordsRemaining - 1;
        if |bank| == ENDPOINT_SIZE {
          ghost var before, full := sent, bank;
          sent := sent + [bank];
          bank := [];
          if polled == 0 {
            return false;
          }
          polled := polled - 1;
          Assoc(before, [full], ReadWords(flash, currFlashAddress + 2, wordsRemaining,
                                          [ReadByte(flash, currFlashAddress), ReadByte(flash, currFlashAddress + 1)],
                                          polled).1);
        }
        var word := [ReadByte(flash, currFlashAddress), ReadByte(flash, currFlashAddress + 1)];
        assert [] + word == word;
        bank := bank + word;
        currFlashAddress := currFlashAddress + 2;
      }
      return true;
    }

    method SendEeprom(polls: nat) returns (attached: bool)
      requires Valid() && bank == [] && sent == []
      modifies this`bank, this`sent, this`startAddr
      ensures Valid()
      ensures var (done, packets, last, a) :=
                ReadEeprom(eeprom, old(startAddr), BytesRemaining(old(View())), [], polls);
              attached == done && sent == packets && bank == last && startAddr == a
    {
      var bytesRemaining: nat, polled: nat := (endAddr - startAddr + 1) % U16, polls;
      ghost var want := ReadEeprom(eeprom, startAddr, bytesRemaining, [], polls);
      while bytesRemaining > 0
        invariant Valid()
        invariant var now := ReadEeprom(eeprom, startAddr, bytesRemaining, bank, polled);
                  want.0 == now.0 && want.1 == sent + now.1 && want.2 == now.2 && want.3 == now.3
      {
        bytesRemaining := bytesRemaining - 1;
        if |bank| == ENDPOINT_SIZE {
          ghost var before, full := sent, bank;
          sent := sent + [bank];
          bank := [];
          if polled == 0 {
            return false;
          }
          polled := polled - 1;
          Assoc(before, [full],
                ReadEeprom(eeprom, (startAddr + 1) % U16, bytesRemaining, [EepromByte(eeprom, startAddr)], polled).1);
        }
        assert [] + [EepromByte(eeprom, startAddr)] == [EepromByte(eeprom, startAddr)];
        bank := bank + [EepromByte(eeprom, startAddr)];
        startAddr := (startAddr + 1) % U16;
      }
      return true;
    }

    method SendMemoryPackets(polls: nat)
      requires Valid() && bank == [] && sent == []
      modifies this`bank, this`sent, this`startAddr, this`state
      ensures Valid() && (View(), sent) == SendMemory(old(View()), polls)
    {
      hide ReadWords, ReadEeprom, FlashAddress, BytesRemaining;
      var attached;
      if data[0] == 0 {
        attached := SendFlash(polls);
        if !attached {
          return;
        }
        startAddr := endAddr;
      } else if data[0] == 2 {
        attached := SendEeprom(polls);
        if !attached {
          return;
        }
      }
      state := Idle;
      sent := sent + [bank];
      assert [] + [bank] == [bank];
    }

    method UploadRequest(polls: nat)
      requires Valid() && bank == [] && sent == []
      modifies this`bank, this`sent, this`startAddr, this`state
      ensures Valid() && (View(), sent) == HandleUpload(old(View()), polls)
    {
      hide SendMemory, Lo, Hi;
      if polls == 0 {
        return;
      }
      if state == UploadIdle {
        SendMemoryPackets(polls - 1);
      } else if state == Error && data[0] == 1 {
        sent := [[Lo(startAddr), Hi(startAddr)]];
      } else {
        sent := [[responseByte]];
      }
    }

    /** The requests that neither download nor upload. */
    method ShortRequest(kind: Kind, polls: nat)
      requires Valid() && sent == [] && !kind.Foreign? && !kind.Dnload? && !kind.Upload?
      modifies this`status, this`state, this`sent
      ensures Valid() && (View(), sent) == HandleShort(old(View()), kind, polls)
    {
      hide StatusCode, StateCode;
      match kind {
        case GetStatus =>
          if polls > 0 {
            sent := [[StatusCode(status), 0, 0, 0, StateCode(state), 0]];
          }
        case ClrStatus =>
          status := OK;
        case GetState =>
          if polls > 0 {
            sent := [[StateCode(state)]];
          }
        case Abort =>
          state := Idle;
        case _ =>
      }
    }

    /** EVENT_USB_Device_ControlRequest: the packets it sends are left in `sent`. */
    method ControlRequest(r: Request)
      requires Valid()
      modifies this
      ensures Valid() && (View(), sent) == Handle(part, old(View()), r)
    {
      hide HandleDnload, HandleUpload, HandleShort;
      pipe, bank, sent := OutPipe([], r.packets), [], [];
      if r.kind == Foreign {
        return;
      }
      dataSize := r.wLength % U16;
      if r.kind == Dnload {
        DnloadRequest();
        sent := [];
      } else if r.kind == Upload {
        UploadRequest(r.polls);
      } else {
        ShortRequest(r.kind, r.polls);
      }
    }
  }
}
