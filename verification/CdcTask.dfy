/**
 CDC_Task and its loops over packetised endpoints, proved against the functions of Cdc.
 */
module CdcTask {
  import opened Avr
  import opened Basics
  import opened Bits
  import opened Usb
  import opened Cdc

  const EPSIZE := 16

  /**
   A transfer that ends by itself (section 5.8.3 of USB 2.0): full packets, then one that
   is short or empty.
   */
  predicate Transfer(packets: seq<seq<byte>>, answer: seq<byte>) {
    && packets != [] && Flatten(packets) == answer
    && (forall i :: 0 <= i < |packets| - 1 ==> |packets[i]| == EPSIZE)
    && |packets[|packets| - 1]| < EPSIZE
  }

  /** The packets of an answer are determined by it. */
  lemma {:induction false} TransferUnique(ps: seq<seq<byte>>, qs: seq<seq<byte>>, answer: seq<byte>)
    requires Transfer(ps, answer) && Transfer(qs, answer)
    ensures ps == qs
    decreases ps
  {
    assert answer == ps[0] + Flatten(ps[1..]) && answer == qs[0] + Flatten(qs[1..]);
    if |ps| == 1 || |qs| == 1 {
      assert |ps| == 1 ==> Flatten(ps[1..]) == [];
      assert |qs| == 1 ==> Flatten(qs[1..]) == [];
      assert |ps| == 1 && |qs| == 1;
      assert ps[0] == answer && qs[0] == answer;
    } else {
      assert ps[0] == answer[..EPSIZE] && qs[0] == answer[..EPSIZE];
      assert Flatten(ps[1..]) == answer[EPSIZE..] && Flatten(qs[1..]) == answer[EPSIZE..];
      TransferUnique(ps[1..], qs[1..], answer[EPSIZE..]);
      assert ps == [ps[0]] + ps[1..] && qs == [qs[0]] + qs[1..];
    }
  }

  /** All that has been written to an IN endpoint. */
  function Written(sent: seq<seq<byte>>, bank: seq<byte>): seq<byte> {
    Flatten(sent) + bank
  }

  lemma EmptyAnswer()
    ensures Written([], []) == []
  {
  }

  // ---- Where in the packets the reader is -------------------------------------

  predicate NoneEmpty(packets: seq<seq<byte>>) {
    forall k :: k in packets ==> k != []
  }

  /** `n` of the packets have been opened, and of the last of them something has been read. */
  predicate Opened(packets: seq<seq<byte>>, p: OutPipe, n: nat) {
    && n <= |packets| && p.queue == packets[n..]
    && (if n == 0 then p.bank == [] else |p.bank| < |packets[n - 1]|)
  }

  predicate Reading(packets: seq<seq<byte>>, p: OutPipe) {
    NoneEmpty(packets) ==> exists n :: 0 <= n <= |packets| && Opened(packets, p, n)
  }

  /** The packets that lie whole within the last `n` bytes. */
  function WholePackets(packets: seq<seq<byte>>, n: nat): seq<seq<byte>> {
    if |Flatten(packets)| <= n then packets else WholePackets(packets[1..], n)
  }

  lemma ReadingStarts(packets: seq<seq<byte>>)
    ensures Reading(packets, OutPipe([], packets))
  {
    assert packets[0..] == packets;
    assert Opened(packets, OutPipe([], packets), 0);
  }

  /** Reading a byte, after opening the next packet if there is nothing left of this one. */
  lemma ReadingGoesOn(packets: seq<seq<byte>>, p: OutPipe, q: OutPipe)
    requires Reading(packets, p) && NoneEmpty(packets) && Refill(p).Some? && q == Drop8(Refill(p).value)
    ensures Reading(packets, q)
  {
    var n :| 0 <= n <= |packets| && Opened(packets, p, n);
    if p.bank != [] {
      assert Opened(packets, q, n);
    } else {
      assert packets[n] in packets && packets[n..][0] == packets[n] && packets[n..][1..] == packets[n + 1..];
      assert Opened(packets, q, n + 1);
    }
  }

  lemma ReadingVacuous(packets: seq<seq<byte>>, p: OutPipe)
    ensures !NoneEmpty(packets) ==> Reading(packets, p)
  {
  }

  lemma NextNotEmpty(packets: seq<seq<byte>>, p: OutPipe)
    requires Reading(packets, p) && NoneEmpty(packets) && p.queue != []
    ensures p.queue[0] != []
  {
    var n :| 0 <= n <= |packets| && Opened(packets, p, n);
    assert packets[n] in packets && p.queue[0] == packets[n];
  }

  lemma ReadingDropsBank(packets: seq<seq<byte>>, p: OutPipe)
    requires Reading(packets, p)
    ensures Reading(packets, p.(bank := []))
  {
    if NoneEmpty(packets) {
      var n :| 0 <= n <= |packets| && Opened(packets, p, n);
      assert packets[..n] != [] ==> packets[n - 1] in packets;
      assert Opened(packets, p.(bank := []), n);
    }
  }

  /** What is left of the stream says which packets are left. */
  lemma {:induction false} LeftWhole(packets: seq<seq<byte>>, p: OutPipe)
    requires NoneEmpty(packets) && Reading(packets, p)
    ensures p.queue == WholePackets(packets, |Stream(p)|)
  {
    var n :| 0 <= n <= |packets| && Opened(packets, p, n);
    WholeFrom(packets, p, n);
  }

  lemma {:induction false} WholeFrom(packets: seq<seq<byte>>, p: OutPipe, n: nat)
    requires Opened(packets, p, n)
    ensures p.queue == WholePackets(packets, |Stream(p)|)
    decreases n
  {
    if n == 0 {
      assert packets[0..] == packets;
    } else {
      FlattenFrom(packets, n - 1);
      assert |Flatten(packets)| > |Stream(p)|;
      assert packets[1..][n - 1..] == packets[n..];
      if n == 1 {
        LargestSuffix(packets[1..], p);
      } else {
        WholeFrom(packets[1..], p, n - 1);
      }
    }
  }

  lemma LargestSuffix(packets: seq<seq<byte>>, p: OutPipe)
    requires p.queue == packets
    ensures packets == WholePackets(packets, |Stream(p)|)
  {
  }

  lemma {:induction false} FlattenFrom(packets: seq<seq<byte>>, i: nat)
    requires i < |packets|
    ensures |Flatten(packets)| >= |packets[i]| + |Flatten(packets[i + 1..])|
  {
    if i > 0 {
      FlattenFrom(packets[1..], i - 1);
      assert packets[1..][i..] == packets[i + 1..];
    }
  }

  // ---- Commands as packets ----------------------------------------------------

  function Streams(commands: seq<seq<seq<byte>>>): (cs: seq<seq<byte>>)
    ensures |cs| == |commands|
  {
    seq(|commands|, i requires 0 <= i < |commands| => Flatten(commands[i]))
  }

  /** Each command comes in packets that are not empty, and its last packet is needed. */
  predicate Fits(part: Part, d: Device, commands: seq<seq<seq<byte>>>)
    decreases commands
  {
    commands != [] ==>
      var c := commands[0];
      var r := Execute(part, d, Next(Flatten(c)), Rest(Flatten(c)));
      c != [] && NoneEmpty(c) && |r.rest| < |c[|c| - 1]| && Fits(part, r.device, commands[1..])
  }

  /** Commands that are exactly as long as they say fit, however they are cut into packets. */
  lemma {:induction false} ExactFits(part: Part, d: Device, commands: seq<seq<seq<byte>>>)
    requires forall c :: c in commands ==> c != [] && NoneEmpty(c)
    requires Exact(part, d, Streams(commands))
    ensures Fits(part, d, commands)
    decreases commands
  {
    hide Execute;
    if commands != [] {
      var cs := Streams(commands);
      var c := commands[0];
      assert c in commands && c[|c| - 1] in c;
      assert cs[0] == Flatten(c) && cs[1..] == Streams(commands[1..]);
      forall k | k in commands[1..]
        ensures k != [] && NoneEmpty(k)
      {
        assert k in commands;
      }
      ExactFits(part, Execute(part, d, Next(cs[0]), Rest(cs[0])).device, commands[1..]);
    }
  }

  lemma {:induction false} NoneLeft(c: seq<seq<byte>>, n: nat)
    requires c != [] && n < |c[|c| - 1]|
    ensures WholePackets(c, n) == []
    decreases c
  {
    FlattenFrom(c, |c| - 1);
    if |c| > 1 {
      NoneLeft(c[1..], n);
    }
  }

  lemma NextFits(part: Part, d: Device, commands: seq<seq<seq<byte>>>, i: nat)
    requires i < |commands| && Fits(part, d, commands[i..])
    ensures var c := commands[i];
            var r := Execute(part, d, Next(Flatten(c)), Rest(Flatten(c)));
            c != [] && NoneEmpty(c) && WholePackets(c, |r.rest|) == [] && Fits(part, r.device, commands[i + 1..])
  {
    hide Execute, WholePackets, NoneEmpty;
    var c := commands[i];
    assert commands[i..][0] == c && commands[i..][1..] == commands[i + 1..];
    NoneLeft(c, |Execute(part, d, Next(Flatten(c)), Rest(Flatten(c))).rest|);
  }

  lemma NextAnswer(part: Part, d: Device, commands: seq<seq<seq<byte>>>, i: nat)
    requires i < |commands|
    ensures var c := Flatten(commands[i]);
            var r := Execute(part, d, Next(c), Rest(c));
            var next := Session(part, r.device, Streams(commands[i + 1..]));
            Session(part, d, Streams(commands[i..])) == (next.0, [r.answer] + next.1)
  {
    hide Execute;
    var cs := Streams(commands[i..]);
    assert cs[0] == Flatten(commands[i]);
    assert cs[1..] == Streams(commands[i + 1..]);
  }

  lemma {:induction false} AnswerEach(part: Part, d: Device, cs: seq<seq<byte>>)
    ensures |Session(part, d, cs).1| == |cs|
    decreases cs
  {
    hide Execute;
    if cs != [] {
      AnswerEach(part, Execute(part, d, Next(cs[0]), Rest(cs[0])).device, cs[1..]);
    }
  }

  lemma SessionOfNone(part: Part, d: Device)
    ensures Session(part, d, Streams([])) == (d, [])
  {
  }

  lemma WholeStream(p: OutPipe)
    requires p.bank == []
    ensures Stream(p) == Flatten(p.queue)
  {
  }

  class Bootloader {
    const part: Part
    var currAddress: nat
    var runBootloader: bool
    var flash: Flash
    var eeprom: seq<byte>
    /** The OUT endpoint, and the bank and packets of the IN endpoint. */
    var rx: OutPipe
    var bank: seq<byte>
    var sent: seq<seq<byte>>
    /** The packets that were waiting when the current command began. */
    ghost var origin: seq<seq<byte>>

    ghost predicate Valid()
      reads this
    {
      && currAddress % 2 == 0 && currAddress < U32 && Reading(origin, rx)
      && |bank| <= EPSIZE && forall k :: k in sent ==> |k| == EPSIZE
    }

    ghost function View(): Device
      requires Valid()
      reads this
    {
      Device(currAddress, runBootloader, flash, eeprom)
    }

    /** All that has been written to the IN endpoint for the current command. */
    ghost function Answer(): seq<byte>
      reads this
    {
      Written(sent, bank)
    }

    constructor (part: Part, flash: Flash, eeprom: seq<byte>)
      ensures this.part == part && Valid() && View() == Device(0, true, flash, eeprom)
      ensures rx == OutPipe([], []) && bank == [] && sent == []
    {
      hide Reading;
      this.part, this.flash, this.eeprom := part, flash, eeprom;
      currAddress, runBootloader, rx, bank, sent := 0, true, OutPipe([], []), [], [];
      origin := [];
      ReadingStarts([]);
    }

    method FetchNextCommandByte() returns (b: byte)
      requires Valid()
      modifies this`rx
      ensures Valid() && b == Next(Stream(old(rx))) && Stream(rx) == Rest(Stream(old(rx)))
    {
      hide Reading, NoneEmpty;
      while rx.bank == []
        invariant Stream(rx) == Stream(old(rx))
        invariant NoneEmpty(origin) ==> rx == old(rx) || (rx.bank != [] && Refill(old(rx)) == Some(rx))
        decreases |rx.queue| - |rx.bank|, |rx.queue|
      {
        if rx.queue == [] {
          ReadingVacuous(origin, rx);
          return 0;
        }
        if NoneEmpty(origin) {
          NextNotEmpty(origin, rx);
        }
        rx := NextPacket(rx).value;
      }
      ReadingVacuous(origin, Drop8(rx));
      if NoneEmpty(origin) {
        ReadingGoesOn(origin, old(rx), Drop8(rx));
      }
      b := Peek8(rx);
      rx := Drop8(rx);
      assert Stream(rx) == Rest(Stream(old(rx)));
    }

    method WriteNextResponseByte(response: byte)
      requires Valid()
      modifies this`bank, this`sent
      ensures Valid() && Answer() == old(Answer()) + [response]
    {
      hide Reading;
      if |bank| == EPSIZE {
        FlattenSnoc(sent, bank);
        sent := sent + [bank];
        bank := [];
      }
      bank := bank + [response];
    }

    method WriteResponse(bytes: seq<byte>)
      requires Valid()
      modifies this`bank, this`sent
      ensures Valid() && Answer() == old(Answer()) + bytes
    {
      hide Reading;
      var i := 0;
      while i < |bytes|
        invariant 0 <= i <= |bytes| && Valid() && Answer() == old(Answer()) + bytes[..i]
      {
        WriteNextResponseByte(bytes[i]);
        i := i + 1;
      }
      assert bytes[..|bytes|] == bytes;
    }

    method ReadFlashBlock(size: nat)
      requires Valid()
      modifies this`bank, this`sent, this`currAddress
      ensures Valid()
      ensures var (bs, curr) := ReadFlash(flash, old(currAddress), false, size);
              Answer() == old(Answer()) + bs && currAddress == curr
    {
      hide Written, Reading;
      var blockSize, highByte := size, false;
      ghost var done := [];
      ghost var want := ReadFlash(flash, currAddress, false, size);
      assert old(Answer()) + [] == old(Answer());
      while blockSize > 0
        invariant Valid() && Answer() == old(Answer()) + done
        invariant var now := ReadFlash(flash, currAddress, highByte, blockSize);
                  want.0 == done + now.0 && want.1 == now.1
      {
        blockSize := blockSize - 1;
        var b := ReadByte(flash, currAddress + (if highByte then 1 else 0));
        WriteNextResponseByte(b);
        if highByte {
          currAddress := Advance(currAddress);
        }
        highByte := !highByte;
        Assoc(done, [b], ReadFlash(flash, currAddress, highByte, blockSize).0);
        Assoc(old(Answer()), done, [b]);
        done := done + [b];
      }
    }

    method ReadEepromBlock(size: nat)
      requires Valid()
      modifies this`bank, this`sent, this`currAddress
      ensures Valid()
      ensures var (bs, curr) := ReadEeprom(eeprom, old(currAddress), size);
              Answer() == old(Answer()) + bs && currAddress == curr
    {
      hide Written, EepromAddress, Reading;
      var blockSize := size;
      ghost var done := [];
      ghost var want := ReadEeprom(eeprom, currAddress, size);
      assert old(Answer()) + [] == old(Answer());
      while blockSize > 0
        invariant Valid() && Answer() == old(Answer()) + done
        invariant var now := ReadEeprom(eeprom, currAddress, blockSize);
                  want.0 == done + now.0 && want.1 == now.1
      {
        blockSize := blockSize - 1;
        var b := EepromByte(eeprom, EepromAddress(currAddress));
        WriteNextResponseByte(b);
        currAddress := Advance(currAddress);
        Assoc(done, [b], ReadEeprom(eeprom, currAddress, blockSize).0);
        Assoc(old(Answer()), done, [b]);
        done := done + [b];
      }
    }

    method FillFlashBlock(size: nat)
      requires Valid()
      modifies this`rx, this`flash, this`currAddress
      ensures Valid()
      ensures (flash, currAddress, Stream(rx)) ==
              FillFlash(old(flash), old(currAddress), false, 0, size, Stream(old(rx)))
    {
      hide Fill, Stream, Reading;
      var blockSize, highByte, lowByte := size, false, 0 as byte;
      ghost var want := FillFlash(flash, currAddress, false, 0, size, Stream(rx));
      while blockSize > 0
        invariant Valid() && want == FillFlash(flash, currAddress, highByte, lowByte, blockSize, Stream(rx))
      {
        blockSize := blockSize - 1;
        var b := FetchNextCommandByte();
        if highByte {
          flash := Fill(flash, currAddress, Word(lowByte, b));
          currAddress := Advance(currAddress);
        } else {
          lowByte := b;
        }
        highByte := !highByte;
      }
    }

    method WriteEepromBlock(size: nat)
      requires Valid()
      modifies this`rx, this`eeprom, this`currAddress
      ensures Valid()
      ensures (eeprom, currAddress, Stream(rx)) == WriteEeprom(old(eeprom), old(currAddress), size, Stream(old(rx)))
    {
      hide Stream, Reading;
      var blockSize := size;
      ghost var want := WriteEeprom(eeprom, currAddress, size, Stream(rx));
      while blockSize > 0
        invariant Valid() && want == WriteEeprom(eeprom, currAddress, blockSize, Stream(rx))
      {
        blockSize := blockSize - 1;
        var b := FetchNextCommandByte();
        eeprom := StoreEeprom(eeprom, EepromAddress(currAddress), b);
        currAddress := Advance(currAddress);
      }
    }

    method ReadWriteMemoryBlock(write: bool)
      requires Valid() && Answer() == []
      modifies this
      ensures Valid() && origin == old(origin)
      ensures var r := MemoryBlock(old(View()), write, Stream(old(rx)));
              View() == r.device && Answer() == r.answer && Stream(rx) == r.rest
    {
      hide Written, Stream, Reading, ReadFlash, ReadEeprom, FillFlash, WriteEeprom, Next, Rest;
      var high := FetchNextCommandByte();
      var low := FetchNextCommandByte();
      var blockSize := Word(low, high);
      var kind := FetchNextCommandByte();
      var memoryType := kind as char;
      if memoryType != 'F' && memoryType != 'E' {
        WriteNextResponseByte('?' as int);
        assert Answer() == ['?' as int];
        return;
      }
      if !write {
        if memoryType == 'F' {
          ReadFlashBlock(blockSize);
        } else {
          ReadEepromBlock(blockSize);
        }
        assert forall bs: seq<byte> :: [] + bs == bs;
      } else {
        var pageStartAddress := currAddress;
        if memoryType == 'F' {
          flash := Erase(flash, pageStartAddress);
          FillFlashBlock(blockSize);
          flash := Write(flash, pageStartAddress);
        } else {
          WriteEepromBlock(blockSize);
        }
        WriteNextResponseByte(CR);
      }
    }

    /** Commands on flash at the current address. */
    method FlashCommand(c: char)
      requires Valid() && Answer() == [] && OnFlash(c)
      modifies this
      ensures Valid() && origin == old(origin)
      ensures var r := ExecuteOnFlash(part, old(View()), c, Stream(old(rx)));
              View() == r.device && Answer() == r.answer && Stream(rx) == r.rest
    {
      hide Written, Stream, Reading, Next, Rest, MemoryBlock, Erase, Write, Fill, EraseFrom;
      var b;
      if c == 'e' {
        flash := EraseSection(flash, part.boot);
        WriteResponse([CR]);
      } else if c == 'C' {
        b := FetchNextCommandByte();
        flash := Fill(flash, currAddress, b);
        WriteResponse([CR]);
      } else if c == 'c' {
        b := FetchNextCommandByte();
        flash := Fill(flash, currAddress + 1, b);
        currAddress := Advance(currAddress);
        WriteResponse([CR]);
      } else if c == 'm' {
        flash := Write(flash, currAddress);
        WriteResponse([CR]);
      } else {
        WriteResponse([ReadByte(flash, currAddress + 1), ReadByte(flash, currAddress)]);
      }
      assert forall bs: seq<byte> :: [] + bs == bs;
    }

    /** Commands that set the current address or move one byte of EEPROM. */
    method AddressCommand(c: char)
      requires Valid() && Answer() == [] && OnAddress(c)
      modifies this
      ensures Valid() && origin == old(origin)
      ensures var r := ExecuteOnAddress(old(View()), c, Stream(old(rx)));
              View() == r.device && Answer() == r.answer && Stream(rx) == r.rest
    {
      hide Written, Stream, Reading, Next, Rest, MemoryBlock, EepromAddress, SetAddress, Advance, StoreEeprom,
           EepromByte;
      if c == 'A' {
        var high := FetchNextCommandByte();
        var low := FetchNextCommandByte();
        currAddress := SetAddress(high, low);
        WriteResponse([CR]);
      } else if c == 'D' {
        var b := FetchNextCommandByte();
        eeprom := StoreEeprom(eeprom, EepromAddress(currAddress), b);
        currAddress := Advance(currAddress);
        WriteResponse([CR]);
      } else {
        WriteResponse([EepromByte(eeprom, EepromAddress(currAddress))]);
        currAddress := Advance(currAddress);
      }
      assert forall bs: seq<byte> :: [] + bs == bs;
    }

    /** Commands that are answered without touching memory. */
    method InfoCommand(command: byte)
      requires Valid() && Answer() == []
      modifies this
      ensures Valid() && origin == old(origin) && Answer() == InfoAnswer(part, old(View()), command)
      ensures var c := command as char;
              && View() == (if c == 'E' then old(View()).(run := false) else old(View()))
              && Stream(rx) == (if TakesArgument(c) then Rest(Stream(old(rx))) else Stream(old(rx)))
    {
      hide Written, Stream, Reading, Rest;
      var c := command as char;
      if c == 'E' {
        runBootloader := false;
        WriteResponse([CR]);
      } else if c == 'x' || c == 'y' || c == 'T' || c == 'l' {
        var ignored := FetchNextCommandByte();
        WriteResponse([CR]);
      } else if c == 'P' || c == 'L' {
        WriteResponse([CR]);
      } else if c == 't' {
        WriteResponse([0x44, 0x00]);
      } else if c == 'a' {
        WriteResponse(['Y' as int]);
      } else if c == 'p' {
        WriteResponse(['S' as int]);
      } else if c == 'S' {
        WriteResponse([76, 85, 70, 65, 67, 68, 67]);
      } else if c == 'V' {
        WriteResponse(['1' as int, '0' as int]);
      } else if c == 's' {
        WriteResponse([part.signature3, part.signature2, part.signature1]);
      } else if c == 'r' {
        WriteResponse([part.lockBits]);
      } else if c == 'F' {
        WriteResponse([part.lowFuses]);
      } else if c == 'N' {
        WriteResponse([part.highFuses]);
      } else if c == 'Q' {
        WriteResponse([part.extendedFuses]);
      } else if c == 'b' {
        WriteResponse(['Y' as int, Hi(flash.Page()), Lo(flash.Page())]);
      } else if command != 27 {
        WriteResponse(['?' as int]);
      }
      assert forall bs: seq<byte> :: [] + bs == bs;
    }

    /** Closes the IN transfer of a command: a full last packet is followed by an empty one. */
    method FinishTransfer() returns (packets: seq<seq<byte>>)
      requires Valid()
      modifies this`bank, this`sent
      ensures Valid() && bank == [] && sent == [] && Transfer(packets, old(Answer()))
    {
      hide Reading;
      packets := sent + [bank];
      FlattenSnoc(sent, bank);
      if |bank| == EPSIZE {
        FlattenSnoc(packets, []);
        packets := packets + [[]];
      }
      bank, sent := [], [];
    }

    /** The host sends packets, behind those not yet taken. */
    method HostSends(packets: seq<seq<byte>>)
      requires Valid() && rx.bank == []
      modifies this`rx, this`origin
      ensures Valid() && rx == OutPipe([], old(rx.queue) + packets)
    {
      rx := OutPipe([], rx.queue + packets);
      origin := rx.queue;
      ReadingStarts(origin);
    }

    /**
     One pass of CDC_Task: a waiting command is carried out, its answer goes out as one
     complete transfer, and the rest of the command's last packet is dropped, so that of
     non-empty packets exactly those are left that hold none of its bytes.
     */
    method Task() returns (packets: seq<seq<byte>>)
      requires Valid() && bank == [] && sent == [] && rx.bank == []
      modifies this
      ensures Valid() && bank == [] && sent == [] && rx.bank == []
      ensures old(rx.queue) == [] ==> packets == [] && rx == old(rx) && View() == old(View())
      ensures old(rx.queue) != [] ==>
              var s := Flatten(old(rx.queue));
              var r := Execute(part, old(View()), Next(s), Rest(s));
              && View() == r.device && Transfer(packets, r.answer)
              && (NoneEmpty(old(rx.queue)) ==> rx.queue == WholePackets(old(rx.queue), |r.rest|))
    {
      hide MemoryBlock, ExecuteOnFlash, ExecuteOnAddress, InfoAnswer, Transfer, Next, Rest, Stream, Written, Reading,
           NoneEmpty, WholePackets;
      EmptyAnswer();
      if rx.queue == [] {
        return [];
      }
      origin := rx.queue;
      ReadingStarts(origin);
      WholeStream(rx);
      var command := FetchNextCommandByte();
      var c := command as char;
      if c == 'B' || c == 'g' {
        ReadWriteMemoryBlock(c == 'B');
      } else if OnFlash(c) {
        FlashCommand(c);
      } else if OnAddress(c) {
        AddressCommand(c);
      } else {
        InfoCommand(command);
      }
      packets := FinishTransfer();
      if NoneEmpty(origin) {
        LeftWhole(origin, rx);
      }
      ReadingDropsBank(origin, rx);
      rx := rx.(bank := []);
    }

    /** Commands sent one after the other, each once the last has been answered. */
    method Serve(commands: seq<seq<seq<byte>>>) returns (answers: seq<seq<seq<byte>>>)
      requires Valid() && bank == [] && sent == [] && rx == OutPipe([], [])
      requires Fits(part, View(), commands)
      modifies this
      ensures Valid() && bank == [] && sent == [] && rx == OutPipe([], [])
      ensures var (d, expected) := Session(part, old(View()), Streams(commands));
              && View() == d && |answers| == |expected| == |commands|
              && forall i :: 0 <= i < |answers| ==> Transfer(answers[i], expected[i])
    {
      hide Execute, Transfer, Reading, Fits, Session;
      answers := [];
      var i := 0;
      ghost var want := Session(part, View(), Streams(commands));
      assert commands[0..] == commands && want.1[0..] == want.1;
      AnswerEach(part, View(), Streams(commands));
      while i < |commands|
        invariant 0 <= i <= |commands| && Valid() && bank == [] && sent == [] && rx == OutPipe([], [])
        invariant Fits(part, View(), commands[i..]) && |want.1| == |commands|
        invariant Session(part, View(), Streams(commands[i..])) == (want.0, want.1[i..])
        invariant |answers| == i && forall j :: 0 <= j < i ==> Transfer(answers[j], want.1[j])
      {
        var command := commands[i];
        NextFits(part, View(), commands, i);
        NextAnswer(part, View(), commands, i);
        assert want.1[i..][0] == want.1[i] && want.1[i..][1..] == want.1[i + 1..];
        HostSends(command);
        assert [] + command == command;
        var packets := Task();
        answers := answers + [packets];
        i := i + 1;
      }
      assert commands[i..] == [];
      SessionOfNone(part, View());
    }
  }
}
