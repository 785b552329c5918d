# Verification of the bootloaders and the Switch bridge

A Dafny model of the parts of this repository where state, protocol and byte
layout interact: the four LUFA flash bootloaders (Printer, HID with its host
program, DFU, CDC), the serial bridge that feeds the Joystick firmware, and the
chat command scheduler. Every loop and handler is given twice: as a function on
values, about which the theorems are proved, and as a class whose methods update
fields, arrays and endpoint banks in place and are proved to compute that function.

`dafny verify dfyconfig.toml` checks the whole project.

## Layout

| file | contents |
|---|---|
| `Basics.dfy`, `Bits.dfy` | bytes, optional values and sequences; words, remainders and bitwise operations |
| `Avr.dfy`, `Usb.dfy`, `IntelHex.dfy` | flash with its temporary page buffer, EEPROM, packets, the text of HEX records |
| `Printer.dfy`, `PrinterPages.dfy` | the character-at-a-time HEX parser, and the page-at-a-time machine it amounts to on any records |
| `PrinterLoad.dfy`, `PrinterOdd.dfy`, `PrinterAbove.dfy`, `PrinterExit.dfy` | what files leave in flash, records of odd length, records in the bootloader section, when the bootloader ends |
| `HidDevice.dfy`, `HidHost.dfy`, `HidHostProgram.dfy`, `HidLines.dfy` | the device handler, the host's reader, its loops on arrays, the reader on printed records |
| `HidLoader.dfy`, `HidSixtyFourK.dfy` | both ends together, on parts whose page names agree and on 64 KB parts |
| `Agreement.dfy` | the Printer and HID paths against each other |
| `Dfu.dfy`, `DfuSecure.dfy`, `DfuProgram.dfy`, `DfuOffset.dfy`, `DfuEeprom.dfy` | DFU requests, the secure mode, programming and reading flash, starts inside a page, EEPROM |
| `DfuDetach.dfy`, `DfuAnswers.dfy`, `DfuExit.dfy`, `DfuDevice.dfy` | transfers that stop half way, what the host is told, leaving the bootloader, the handler as code |
| `Cdc.dfy`, `CdcBlocks.dfy`, `CdcBytes.dfy`, `CdcTask.dfy` | AVR109 commands, block round trips, chip erase and single bytes, CDC_Task as code |
| `Joystick.dfy`, `Bridge.dfy`, `SwitchProtocol.dfy` | ring and parser, encoding and record/replay, every interleaving of the two |
| `InputStack.dfy` | the stack of input sources |
| `Controller.dfy`, `Relay.dfy` | the controller, and the relay of remote players' states |
| `Commands.dfy`, `ChatWords.dfy` | the table of chat commands, what words and chords press |
| `Scheduler.dfy`, `MacroRuns.dfy` | the scheduler that runs them, and macros from their first word on |

## Assumptions about hardware

Self-programming follows the ATmega data sheets: erasing sets a page to 0xFF and
leaves the temporary buffer alone; filling puts a word into the buffer at the place
of the address in its page; writing clears in the page of the address every bit that
is clear in the buffer, then blanks the buffer. Pages are 128 or 256 bytes and flash is a whole number of
pages. Reads outside flash or EEPROM give 0xFF and writes there do nothing. An
endpoint is a bank and a queue of packets; reading an empty bank gives 0. Where a
handler waits for the host, running out of packets stands for the host detaching
(DFU, CDC) or for waiting forever (HID).

## What the code does that one would not expect

- Printer: the end-of-file flush compares the page of the end record's address
  with the open page, so an image that ends inside that page loses its last part
  (`PrinterLoad.PrinterLoadsIff`). A record of odd length lands one address too
  high, behind a stale byte (`PrinterOdd.OddFileIff` says when that does not show),
  and what follows it one too low (`PrinterOdd.InnerOddFileLoads`). A gap between
  records does no harm inside the open page (`PrinterLoad.GapFileIff`). The first
  word after a longer one goes into the page that was open or next instead of its
  own, and may land on bytes accepted before (`PrinterLoad.GapWordLands`,
  `PrinterLoad.GapPageSurvivesIff`). A record in the bootloader section is dropped, but
  with it the open page is forgotten: an image loses its unfinished page, unless
  records below follow (`PrinterAbove.AboveFileIff`, `PrinterAbove.AboveIgnored`). The
  bytes of an extended address are taken in
  the wrong order (`PrinterExit.ExtendedBaseIff`); the HID host takes them in the
  right one (`HidLines.ExtendedDecoded`).
- HID: on 64 KB parts host and device disagree on page names, and every block goes
  to the first page, turned (`HidSixtyFourK.SixtyFourKIff`). The
  block that ends at 0x10000 is always sent as 0xFF, so on 128 KB parts the file's
  bytes there are lost (`HidLoader.ByteReachesIff`). The host's range test is made
  modulo 2^32 (`HidHost.OverrunIff`), and after an extended address of 0xFFFF a file
  can get past it (`HidLines.TopExtensionOverruns`). The reader also tests
  `feof(stdin)`, which the model takes as false.
- DFU: a packet switch uses up one of the bytes to discard
  (`DfuProgram.PaddingDiscardedIff`). A payload that starts inside a page is turned
  within each page it touches (`DfuOffset.OffsetPrograms`,
  `DfuOffset.OffsetInPlaceIff`). Against its comment, the jump form of the "start
  application" command clears RunBootloader only if the first word of flash is
  0xFFFF. Main then goes on until a further download has cleared WaitForExit
  (`DfuExit.JumpLeavesIff`). So the main loop of a programmed device does not end
  in any session that neither erases nor programs (`DfuExit.ProgrammedNeverLeft`). The watchdog form
  resets the part and does start an application (`DfuExit.WatchdogStartsIff`).
  DFU_CLRSTATUS clears the status but leaves dfuERROR (`DfuAnswers.ClearedIff`). A
  payload of odd length loses its last byte (`DfuDetach.OddPrograms`).
- CDC: the byte address is built in a 16-bit int, so word addresses with a high
  byte of 0x40 or more are not understood (`Cdc.AddressUnderstoodIff`). Each half of a
  word sent by itself fills the whole word, so words sent that way lose their upper
  bytes (`CdcBytes.WordsProgrammedIff`). A chip erase with words waiting in the page
  buffer writes them to the first page (`CdcBytes.EraseBlanksIff`).
- Joystick: the overrun test is an `int` comparison and never succeeds when the
  tail is 0 (`Joystick.OverrunReportedIff`); the 256th unread byte empties the ring
  (`Joystick.PushUnread`); a fifteenth digit on a line is stored outside the buffer
  (`Joystick.LongLineCorruptsIff`).
- Bridge: all four d-pad buttons together raise an IndexError (`Bridge.EncodeMeans`).
- Chat commands: "jump back" queues "jump forward2"
  (`Commands.JumpBackGoesForward`) and nothing queues "jump back2"
  (`Commands.NothingQueuesJumpBack2`); no chord holds minus, because its name loses
  the `s` before it is looked up (`Commands.ChordsNeverMinus`). The words `l` and `r`
  move the stick as well as press the button, but not in a chord
  (`ChatWords.ChordIsItsWordsIff`). A relayed state whose vertical axes turned over
  are at rest is taken for a controller at rest (`Relay.RelayTwiceIff`). The spin
  leaves out the lower right (`MacroRuns.SpinGoesRound`).

## Model

| member | source | states |
|---|---|---|
| `Avr.BaseIsMask` | lufa/Bootloaders/Printer/BootloaderPrinter.c:221-222 | for every word width and every page size 2^k the bitwise AND of an address with ~(2^k - 1) is the page base used throughout |
| `Avr.CommitPage` | lufa/Bootloaders/Printer/BootloaderPrinter.c:222-229 | erase, fill, write leaves exactly the filled bytes, then 0xFF to the page end, all other pages unchanged, the buffer blank |
| `Avr.PageDone` | lufa/Bootloaders/DFU/BootloaderDFU.c:361-365 | writing the last, possibly part-filled page turns a load in progress into the whole load, padded with 0xFF |
| `Avr.EraseAll` | lufa/Bootloaders/CDC/BootloaderCDC.c:515-524 | from a blank buffer the erase loop sets exactly the bytes below BOOT_START_ADDR to 0xFF |
| `Avr.EraseSection` | lufa/Bootloaders/CDC/BootloaderCDC.c:515-524 | the erase loop, which DFU and CDC share, computes `EraseFrom` |
| `Usb.WordRead` | lufa/Bootloaders/DFU/BootloaderDFU.c:341-354 | waiting if the bank is empty and reading a word takes exactly the next two bytes of the stream, however it is cut into even packets |
| `Printer.NoiseIgnored` | lufa/Bootloaders/Printer/BootloaderPrinter.c:239-266 | on every stream, dropping all characters other than 0-9, A-F and ':' changes nothing that outlives the wait for a line |
| `Printer.FeedHexByte` | lufa/Bootloaders/Printer/BootloaderPrinter.c:198-266 | inside a record the two upper-case digits of a byte amount to one step on that byte |
| `Printer.Bootloader.constructor` | lufa/Bootloaders/Printer/BootloaderPrinter.c:67-106 | the parser state after power-up |
| `Printer.Bootloader.FlushPageIfRequired` | lufa/Bootloaders/Printer/BootloaderPrinter.c:214-231 | new state is `FlushIfRequired` of the old: a dirty page is written exactly when the current address has left it |
| `Printer.Bootloader.StoreDataWord` | lufa/Bootloaders/Printer/BootloaderPrinter.c:320-336 | lazy erase, fill, advance, flush on a page crossing; equal to `StoreWord` of the old state |
| `Printer.Bootloader.TakeData` | lufa/Bootloaders/Printer/BootloaderPrinter.c:296-351 | the READ_DATA case: guard at BOOT_START_ADDR, byte pairing, record types 0, 2 and 4 |
| `Printer.Bootloader.TakeRecordChecksum` | lufa/Bootloaders/Printer/BootloaderPrinter.c:353-365 | the CHECKSUM case: a wrong byte does nothing; a right one flushes and, for type 1, ends the bootloader |
| `Printer.Bootloader.ActOnByte` | lufa/Bootloaders/Printer/BootloaderPrinter.c:264-370 | the state switch on a completed byte, all seven states |
| `Printer.Bootloader.ParseIntelHEXByte` | lufa/Bootloaders/Printer/BootloaderPrinter.c:239-371 | one character takes the state to `Feed` of it, about which the theorems below speak |
| `Printer.Bootloader.ReceivePacket` | lufa/Bootloaders/Printer/BootloaderPrinter.c:385-398 | a packet is its characters in order |
| `PrinterPages.PageWritten` | lufa/Bootloaders/Printer/BootloaderPrinter.c:222-229 | writing the open page, which was erased when it was opened, leaves in it exactly the bytes waiting in the buffer, and nothing else changes |
| `PrinterPages.StoreWordHolds` | lufa/Bootloaders/Printer/BootloaderPrinter.c:214-336 | a data word for any address takes flash, PageStartAddress and PageDirty to one step of the page machine: into the open page, and on to the page of the next address if that is another |
| `PrinterPages.HeaderRead` | lufa/Bootloaders/Printer/BootloaderPrinter.c:239-295 | from any state the text of a record up to its data leaves count, address, type and running sum of that record |
| `PrinterPages.DataStored` | lufa/Bootloaders/Printer/BootloaderPrinter.c:296-351 | the data characters of a record of any length at any address, the bootloader section included, are its words in order up to the first that begins in that section, an odd one with the stale PrevData in front; there the line is given up |
| `PrinterPages.GivenUp` | lufa/Bootloaders/Printer/BootloaderPrinter.c:300-306 | a data byte addressed into the bootloader section forgets the open page without writing it, stores nothing and gives up the line |
| `PrinterPages.OtherStored` | lufa/Bootloaders/Printer/BootloaderPrinter.c:308-349 | the data of a record of any other type stores nothing and sets the base as the stream says |
| `PrinterPages.RecordTaken` | lufa/Bootloaders/Printer/BootloaderPrinter.c:239-371 | every checksum-correct record, of any type, length and address, is one step of the page machine |
| `PrinterPages.FileTaken` | lufa/Bootloaders/Printer/BootloaderPrinter.c:198-371 | every file of checksum-correct records, any types, lengths, addresses and order, any noise: flash is what the records make of the pages, a function of the records alone, and the bootloader has ended iff one of them is an end record that is not given up |
| `PrinterPages.DataFileTaken` | lufa/Bootloaders/Printer/BootloaderPrinter.c:198-371 | in particular any data records and an end record: the bootloader ends, and the open page is written iff the end record's address lies in another |
| `PrinterLoad.StepExtends` | lufa/Bootloaders/Printer/BootloaderPrinter.c:296-351 | a word in the page in which the image ends, at or behind its end, extends the image, 0xFF in between |
| `PrinterLoad.AscendingFileLoads` | lufa/Bootloaders/Printer/BootloaderPrinter.c:198-371 | every file whose records begin in the page in which the one before ended, odd ones included: the bootloader ends, flash is exactly `Outcome` of their image, nothing at or above BOOT_START_ADDR changes |
| `PrinterLoad.PrinterLoadsFile` | lufa/Bootloaders/Printer/BootloaderPrinter.c:198-371 | every contiguous even image up to BOOT_START_ADDR and 64 KB, any cut into records, any noise: the bootloader ends, flash is exactly `Outcome`, nothing at or above BOOT_START_ADDR changes |
| `PrinterLoad.PrinterLoadsIff` | lufa/Bootloaders/Printer/BootloaderPrinter.c:214-371 | flash is the image padded with 0xFF to a page end and otherwise unchanged, if and only if the image fills its last page, or the end record's address is in another page, or only 0xFF is left over |
| `PrinterLoad.ImageIsFile` | lufa/Bootloaders/Printer/BootloaderPrinter.c:296-351 | the image of ascending even records is the last record's byte at every address, 0xFF where no record covers it |
| `PrinterLoad.GapFileIff` | lufa/Bootloaders/Printer/BootloaderPrinter.c:214-371 | even files with gaps inside the open page: every flash byte is the file's, 0xFF in gaps and up to the last page end, unchanged beyond, iff nothing of the image is left behind |
| `PrinterLoad.StoreWordSpares` | lufa/Bootloaders/Printer/BootloaderPrinter.c:320-336 | in every state a data word, wherever it is addressed, changes no flash byte outside the page at PageStartAddress |
| `PrinterLoad.GapWordLands` | lufa/Bootloaders/Printer/BootloaderPrinter.c:222-229 | a word beyond the page in which the image ends, open or not: that page is written with its bytes, 0xFF behind them, and the word at its offset on top; PageStartAddress moves to the next address |
| `PrinterLoad.GapWordIff` | lufa/Bootloaders/Printer/BootloaderPrinter.c:222-229 | such a word is in its own place afterwards iff it was there before |
| `PrinterLoad.GapPageSurvivesIff` | lufa/Bootloaders/Printer/BootloaderPrinter.c:320-336 | the bytes accepted before survive it iff its offset lies behind them or it equals them |
| `PrinterOdd.OddRecordLoads` | lufa/Bootloaders/Printer/BootloaderPrinter.c:296-351 | at any point of a load a record of odd length below BOOT_START_ADDR extends the loaded image by the stale PrevData and then its data |
| `PrinterOdd.OddFileLoads` | lufa/Bootloaders/Printer/BootloaderPrinter.c:239-371 | any even records, an odd one, any end record, any noise: the bootloader ends and flash is `Outcome` of the shifted image |
| `PrinterOdd.OddFileIff` | lufa/Bootloaders/Printer/BootloaderPrinter.c:296-371 | such a file is in flash as meant, padded with 0xFF and nothing else changed, iff its bytes hide the shift: a condition on the last even bytes, the odd bytes and the end address alone |
| `PrinterOdd.OddRecordMisplaced` | lufa/Bootloaders/Printer/BootloaderPrinter.c:308-332 | in particular an odd record on its own, once flushed, lies behind a zero byte |
| `PrinterOdd.InnerOddFileLoads` | lufa/Bootloaders/Printer/BootloaderPrinter.c:296-371 | even records, an odd one that does not complete a page, and even ones again, any noise: flash is `Outcome` of the image with the odd data one too high and all that follows one too low, over its last two bytes |
| `PrinterAbove.AboveChangesNothing` | lufa/Bootloaders/Printer/BootloaderPrinter.c:300-306 | any number of data records in the bootloader section change no byte of flash and leave no page open |
| `PrinterAbove.AboveFileLoads` | lufa/Bootloaders/Printer/BootloaderPrinter.c:198-371 | a contiguous image, then data records in the bootloader section, then an end record at any address: flash is the whole pages of the image, its last, unfinished page erased |
| `PrinterAbove.AboveFileIff` | lufa/Bootloaders/Printer/BootloaderPrinter.c:300-371 | such a file is in flash as meant iff the image fills its last page or only 0xFF is left over |
| `PrinterAbove.AboveIgnored` | lufa/Bootloaders/Printer/BootloaderPrinter.c:296-336 | if a data record below BOOT_START_ADDR follows, the records in the bootloader section might as well be absent, whatever else the file holds: same flash, same end |
| `PrinterExit.BootloaderEndsIff` | lufa/Bootloaders/Printer/BootloaderPrinter.c:239-371 | on every stream, well formed or not, RunBootloader is false iff some prefix ends with a whole type 1 record, announced data read, byte sum zero, not given up for an address in the bootloader section, counted from the base the stream has set |
| `PrinterExit.StreamTracked` | lufa/Bootloaders/Printer/BootloaderPrinter.c:239-371 | after every stream the parser's count, address, type and checksum are those of the digits since the last colon |
| `PrinterExit.CharTracked` | lufa/Bootloaders/Printer/BootloaderPrinter.c:239-371 | one character keeps that correspondence and ends the bootloader exactly when it completes such an end record |
| `PrinterExit.BaseFromStream` | lufa/Bootloaders/Printer/BootloaderPrinter.c:296-349 | on every stream CurrBaseAddress and PrevData are those defined line by line on the bytes of the stream alone, and a line is given up exactly when the stream says so |
| `PrinterExit.ExtendedBaseIff` | lufa/Bootloaders/Printer/BootloaderPrinter.c:315-346 | a two-byte record of type 2 or 4 sets the base of its swapped bytes, or nothing if it is addressed into the bootloader section; so the base is the one the format means iff the bytes are equal, or it was that already |
| `HidDevice.PageReport` | lufa/Bootloaders/HID/BootloaderHID.c:142-195 | a report for an aligned page programs exactly that page if it is below BOOT_START_ADDR and nothing otherwise, for any even packets |
| `HidDevice.ShortReport` | lufa/Bootloaders/HID/BootloaderHID.c:167-182 | a report with too little data for its page, in any even packets: the handler waits, the page is erased, the data is in the buffer, nothing is written |
| `HidDevice.ReportFrame` | lufa/Bootloaders/HID/BootloaderHID.c:142-195 | whatever the packets, too few included, a report changes no flash byte outside the page it names, and none at all if that page is not below BOOT_START_ADDR |
| `HidDevice.Bootloader.constructor` | lufa/Bootloaders/HID/BootloaderHID.c:38-42 | the device runs the bootloader |
| `HidDevice.Bootloader.HandleSetReport` | lufa/Bootloaders/HID/BootloaderHID.c:142-195 | the handler with its packet loop computes `SetReport`; a missing packet is reported as still waiting |
| `HidDevice.Bootloader.FillBuffer` | lufa/Bootloaders/HID/BootloaderHID.c:170-182 | the word loop computes `FillPage` |
| `HidHost.NibbleMeans` | lufa/Bootloaders/HID/HostLoaderApp/hid_bootloader_cli.c:829-836 | a digit is read exactly where there is one, in either case, for its value |
| `HidHost.FieldsRead` | lufa/Bootloaders/HID/HostLoaderApp/hid_bootloader_cli.c:829-836 | a field is the number that the digits in place spell, at most two or four, if there are any |
| `HidHost.ImageIsLastWriter` | lufa/Bootloaders/HID/HostLoaderApp/hid_bootloader_cli.c:773-879 | for every file read without error each cell is the byte of the last data record covering it, other cells are untouched, byte_count is the sum of the lengths and no record leaves the image |
| `HidHost.AcceptedRecordSums` | lufa/Bootloaders/HID/HostLoaderApp/hid_bootloader_cli.c:826-879 | an accepted data line has all announced bytes and its record sums to zero modulo 256 |
| `HidHost.OverrunIff` | lufa/Bootloaders/HID/HostLoaderApp/hid_bootloader_cli.c:837-875 | an array store is out of range iff a data line with bytes has an end that wraps past 2^32 |
| `HidHost.NoOverrun` | lufa/Bootloaders/HID/HostLoaderApp/hid_bootloader_cli.c:773-879 | no file without an extended address of 0xFFFF in its linear records stores out of range, at any line |
| `HidHostProgram.Loader.constructor` | lufa/Bootloaders/HID/HostLoaderApp/hid_bootloader_cli.c:766-785 | the arrays start as 0xFF and 0: the state is the empty image |
| `HidHostProgram.Loader.PutByte` | lufa/Bootloaders/HID/HostLoaderApp/hid_bootloader_cli.c:869-870 | storing in both arrays updates exactly that cell of the image |
| `HidHostProgram.Loader.StoreBytes` | lufa/Bootloaders/HID/HostLoaderApp/hid_bootloader_cli.c:865-872 | the data loop stores the bytes of the line in order up to the first store out of range, and sums them |
| `HidHostProgram.Loader.StoreData` | lufa/Bootloaders/HID/HostLoaderApp/hid_bootloader_cli.c:865-878 | the data loop stores the line's bytes in order and checks the sum; stops at the first store out of range |
| `HidHostProgram.Loader.ParseHexLine` | lufa/Bootloaders/HID/HostLoaderApp/hid_bootloader_cli.c:819-879 | on the arrays and globals computes `TakeLine`, error returns included |
| `HidHostProgram.Loader.ReadIntelHex` | lufa/Bootloaders/HID/HostLoaderApp/hid_bootloader_cli.c:773-808 | the line loop computes `TakeLines` from an empty image |
| `HidHostProgram.Loader.BytesWithinRange` | lufa/Bootloaders/HID/HostLoaderApp/hid_bootloader_cli.c:881-893 | true iff both ends are in range and some cell between them is in the image |
| `HidHostProgram.Loader.GetData` | lufa/Bootloaders/HID/HostLoaderApp/hid_bootloader_cli.c:895-913 | copies the block with 0xFF for missing cells, all 0xFF if it reaches the end of the image, and changes nothing before it |
| `HidHostProgram.Loader.MakeReport` | lufa/Bootloaders/HID/HostLoaderApp/hid_bootloader_cli.c:153-163 | a report is the two bytes of the page name and the block |
| `HidHostProgram.Loader.Program` | lufa/Bootloaders/HID/HostLoaderApp/hid_bootloader_cli.c:146-174 | the programming loop writes exactly `Reports`, in order |
| `HidLoader.NameUnderstood` | lufa/Bootloaders/HID/HostLoaderApp/hid_bootloader_cli.c:153-159 | on 8, 16, 32 and 128 KB parts the device takes the two bytes for the page the host means, and never for the start command |
| `HidLoader.SendFrom` | lufa/Bootloaders/HID/HostLoaderApp/hid_bootloader_cli.c:146-174 | from any block on: host reports, cut into packets at will, handled by the device, give the wanted flash and run flag |
| `HidLoader.HidEndToEnd` | lufa/Bootloaders/HID/HostLoaderApp/hid_bootloader_cli.c:146-174 | for every accepted file on those parts each flash byte after host and device is the file's last byte or 0xFF in sent pages below BOOT_START_ADDR, unchanged elsewhere; run falls exactly with the final report |
| `HidLoader.ByteReachesIff` | lufa/Bootloaders/HID/HostLoaderApp/hid_bootloader_cli.c:895-913 | a byte the file gives for an address in a page below BOOT_START_ADDR reaches flash iff its block ends below 0x10000 or it is 0xFF |
| `HidSixtyFourK.TurnedReport` | lufa/Bootloaders/HID/BootloaderHID.c:148-190 | on a 64 KB part a report with page name n replaces the first page by its block, turned by n, and nothing else, for any even packets |
| `HidSixtyFourK.SixtyFourKLeaves` | lufa/Bootloaders/HID/BootloaderHID.c:142-195 | every image, every cut into packets: all of flash is unchanged but the first page, which is the last block sent, turned by its page number |
| `HidSixtyFourK.SixtyFourKIff` | lufa/Bootloaders/HID/BootloaderHID.c:148-190 | every image: the loader is right on every starting flash and every cut into packets iff the image has nothing between the first page and BOOT_START_ADDR and the last block sent, turned, is the first |
| `HidSixtyFourK.SixtyFourKFits` | lufa/Bootloaders/HID/BootloaderHID.c:148-190 | for an image below BOOT_START_ADDR that condition is that it lies in the first page |
| `HidSixtyFourK.FarByteLost` | lufa/Bootloaders/HID/HostLoaderApp/hid_bootloader_cli.c:153-159 | for every image with a byte between the first page and BOOT_START_ADDR, a flash on which the result is wrong |
| `HidLines.HeaderDecoded` | lufa/Bootloaders/HID/HostLoaderApp/hid_bootloader_cli.c:826-838 | the host scans from a printed record's line the length, address and type it was printed with |
| `HidLines.DataDecoded` | lufa/Bootloaders/HID/HostLoaderApp/hid_bootloader_cli.c:826-879 | decoding the printed text of a data record gives back the record, checksum accepted, at every extended address and line ending |
| `HidLines.ExtendedDecoded` | lufa/Bootloaders/HID/HostLoaderApp/hid_bootloader_cli.c:845-863 | a printed type 2 or type 4 record that passes the range test, at any extended address, record address and line ending, is read as 16 times its big-endian word or as that word in the upper half |
| `HidLines.ExtendedLineSums` | lufa/Bootloaders/HID/HostLoaderApp/hid_bootloader_cli.c:845-863 | only a line with two data bytes whose bytes sum to zero modulo 256 sets the extended address |
| `HidLines.RecordDecoded` | lufa/Bootloaders/HID/HostLoaderApp/hid_bootloader_cli.c:819-879 | the printed text of any record, at any extended address, with anything behind it, is read as the record |
| `HidLines.FileRead` | lufa/Bootloaders/HID/HostLoaderApp/hid_bootloader_cli.c:773-879 | a file of any records with any line endings: refused at the first out of range, stored outside the image at the first past 4 GB, otherwise accepted with each cell the last data record's byte at its address above the base of the last extended record |
| `HidLines.SegmentPlaces` | lufa/Bootloaders/HID/HostLoaderApp/hid_bootloader_cli.c:845-872 | behind a segment record a data record fills the image from 16 times the segment plus its address, or the file is refused if that reaches 0x10000 |
| `HidLines.TopExtensionOverruns` | lufa/Bootloaders/HID/HostLoaderApp/hid_bootloader_cli.c:837-875 | after an extended address of 0xFFFF every data record with data is refused, or stored outside the image if it reaches past 4 GB |
| `Agreement.ContiguousRead` | lufa/Bootloaders/HID/HostLoaderApp/hid_bootloader_cli.c:792-805 | a printed contiguous file is accepted and read as exactly its pieces |
| `Agreement.HidLoadsImage` | lufa/Bootloaders/HID/HostLoaderApp/hid_bootloader_cli.c:146-174 | the HID path leaves the padded image of a contiguous file, or a blank first page for an empty one |
| `Agreement.LoadersAgree` | lufa/Bootloaders/Printer/BootloaderPrinter.c:239-371 | on 8, 16 and 32 KB parts the same file takes the same flash to the same flash over both paths iff the Printer leaves nothing behind (empty file: iff the first page was blank) |
| `DfuSecure.LockedStep` | lufa/Bootloaders/DFU/BootloaderDFU.c:250-654 | any request to a locked device either leaves it locked, idle or in error, flash, EEPROM and buffer untouched, or has wiped exactly the application section |
| `DfuSecure.SecureSession` | lufa/Bootloaders/DFU/BootloaderDFU.c:250-654 | every session, hosts detaching included: while secure the memories are the initial ones; if security was given up, some step did it and left all below BOOT_START_ADDR 0xFF and the rest as it was |
| `DfuSecure.StillUnlocked` | lufa/Bootloaders/DFU/BootloaderDFU.c:250-654 | no session makes an unlocked device secure again |
| `DfuSecure.TwinStep` | lufa/Bootloaders/DFU/BootloaderDFU.c:250-654 | two locked devices that differ only in their memories answer a request alike and stay such twins, or become equal by the erase |
| `DfuSecure.ApplicationNeverLeaks` | lufa/Bootloaders/DFU/BootloaderDFU.c:611-654 | two locked devices that differ in the application section give the same packets in every session, chip erase and readout after it included |
| `DfuSecure.NothingReadWhileSecure` | lufa/Bootloaders/DFU/BootloaderDFU.c:611-654 | while it stays secure a device's packets do not depend on flash or EEPROM at all |
| `DfuProgram.ProgramWordsLoads` | lufa/Bootloaders/DFU/BootloaderDFU.c:327-378 | the programming loop, from any point of a page-aligned download, commits exactly done + rest, padded with 0xFF, for any even packets |
| `DfuProgram.CommandRead` | lufa/Bootloaders/DFU/BootloaderDFU.c:280-301 | a command packet is split into command, five parameters and the bytes left in the bank |
| `DfuProgram.CommandHandled` | lufa/Bootloaders/DFU/BootloaderDFU.c:267-313 | a DNLOAD that starts with a command packet is that command followed by the download part |
| `DfuProgram.DfuPrograms` | lufa/Bootloaders/DFU/BootloaderDFU.c:267-419 | page-aligned start, any even payload below 64 KB, any even packets: flash is payload, 0xFF to the page end, unchanged elsewhere; state, addresses and EEPROM as promised |
| `DfuProgram.ReadWordsReads` | lufa/Bootloaders/DFU/BootloaderDFU.c:448-486 | the reading loop sends the requested words in full 32-byte packets and keeps the rest in the bank |
| `DfuProgram.DfuReads` | lufa/Bootloaders/DFU/BootloaderDFU.c:420-518 | display command and upload return exactly the requested range, all packets full but the last, ending idle |
| `DfuProgram.DfuRoundTrip` | lufa/Bootloaders/DFU/BootloaderDFU.c:267-518 | programming and then reading the same range returns the payload and leaves flash as programmed |
| `DfuProgram.FirstUsedIsLeast` | lufa/Bootloaders/DFU/BootloaderDFU.c:718-744 | the search result is the least non-blank address below BOOT_START_ADDR, or there is none |
| `DfuProgram.BlankCheckFinds` | lufa/Bootloaders/DFU/BootloaderDFU.c:707-744 | blank check sets dfuERROR and errCHECK_ERASED iff some application byte is not 0xFF, and then page and address name the least one |
| `DfuProgram.BlankAfterErase` | lufa/Bootloaders/DFU/BootloaderDFU.c:718-810 | for every starting flash and state, erase wipes the application section and a following blank check sets no error: the state is the one before, dfuIDLE for dfuDNLOAD_IDLE |
| `DfuProgram.PaddingByteLeft` | lufa/Bootloaders/DFU/BootloaderDFU.c:316-320 | concrete effect: k bytes of alignment padding in a new packet leave the last one in front of the firmware |
| `DfuProgram.PaddingDiscardedIff` | lufa/Bootloaders/DFU/BootloaderDFU.c:585-605 | the firmware comes next after discarding iff there is no padding |
| `DfuOffset.ProgramWordsWraps` | lufa/Bootloaders/DFU/BootloaderDFU.c:327-378 | the programming loop from any point of a download that starts inside a page: every page gets its share of the payload, turned by the offset |
| `DfuOffset.OffsetPrograms` | lufa/Bootloaders/DFU/BootloaderDFU.c:267-419 | any packet-aligned start, any even payload below 64 KB, any even packets: the whole device afterwards, each page its share of the payload turned by the offset of the start, 0xFF where the payload has ended |
| `DfuOffset.OffsetInPlaceIff` | lufa/Bootloaders/DFU/BootloaderDFU.c:327-378 | the payload is in its place iff each byte that went to the start of its page equals what is found instead, which depends on payload and old flash only; always if it ends inside the page it starts in |
| `DfuOffset.FitsPage` | lufa/Bootloaders/DFU/BootloaderDFU.c:327-378 | then everything around it in that page becomes 0xFF |
| `DfuOffset.LastByteMissed` | lufa/Bootloaders/DFU/BootloaderDFU.c:361-365 | a payload whose last share goes on beyond its page leaves the last byte of its range as it was |
| `DfuEeprom.EepromWritten` | lufa/Bootloaders/DFU/BootloaderDFU.c:388-407 | the EEPROM loop stores the next bytes of the stream from the address on, however they are cut into packets, and nothing else |
| `DfuEeprom.EepromPrograms` | lufa/Bootloaders/DFU/BootloaderDFU.c:386-408 | unlocked device, any start on a packet boundary, any payload inside EEPROM, any non-empty packets: EEPROM has the payload there, flash and all else as before |
| `DfuEeprom.EepromReads` | lufa/Bootloaders/DFU/BootloaderDFU.c:487-513 | display command and upload return any range of EEPROM, all packets full but the last, ending idle |
| `DfuEeprom.EepromRoundTrip` | lufa/Bootloaders/DFU/BootloaderDFU.c:267-518 | programming EEPROM and reading the same range returns the payload |
| `DfuDetach.ProgramStops` | lufa/Bootloaders/DFU/BootloaderDFU.c:339-349 | the host detaches in the middle of the firmware, anywhere: its whole pages are in flash, the page at hand is erased with its part in the buffer, StartAddr has not moved |
| `DfuDetach.OddPrograms` | lufa/Bootloaders/DFU/BootloaderDFU.c:322-330 | a payload of odd length loses its last byte and still StartAddr reaches EndAddr |
| `DfuDetach.SingleByte` | lufa/Bootloaders/DFU/BootloaderDFU.c:322-385 | a payload of one byte erases its page and is not stored |
| `DfuDetach.EepromStops` | lufa/Bootloaders/DFU/BootloaderDFU.c:388-407 | the EEPROM loop stops where the data does, with all of it stored and the address behind it |
| `DfuDetach.UploadStops` | lufa/Bootloaders/DFU/BootloaderDFU.c:459-471 | a host that asks for fewer packets than the range has gets its beginning in full packets; the device stays in dfuUPLOAD-IDLE |
| `DfuAnswers.PageSelected` | lufa/Bootloaders/DFU/BootloaderDFU.c:645-650 | the command that chooses the 64 KB page sets it and changes neither memory |
| `DfuAnswers.SelectedRoundTrip` | lufa/Bootloaders/DFU/BootloaderDFU.c:325-486 | after choosing a page, programming and reading go to that page: the payload is at 64 KB times the page plus the start and comes back |
| `DfuAnswers.InformationTold` | lufa/Bootloaders/DFU/BootloaderDFU.c:816-859 | locked or not, an upload after a read command returns the information or signature byte asked for |
| `DfuAnswers.UnknownIndexTold` | lufa/Bootloaders/DFU/BootloaderDFU.c:851-858 | any other index makes the status errADDRESS in dfuERROR |
| `DfuAnswers.UsedAddressTold` | lufa/Bootloaders/DFU/BootloaderDFU.c:427-436 | an upload after a failed blank check is the least used address in its 64 KB page, low byte first |
| `DfuAnswers.ClearedIff` | lufa/Bootloaders/DFU/BootloaderDFU.c:544-552 | clearing the status makes it OK; the host is told dfuIDLE iff the device was idle before |
| `DfuAnswers.AbortedAndCleared` | lufa/Bootloaders/DFU/BootloaderDFU.c:544-576 | abort makes the state dfuIDLE and keeps the status; abort and clear together take any device to OK in dfuIDLE |
| `DfuAnswers.TransfersTold` | lufa/Bootloaders/DFU/BootloaderDFU.c:553-567 | after firmware the host is told dfuDNLOAD-IDLE (5), after a display command dfuUPLOAD-IDLE (9) |
| `DfuAnswers.LockedTold` | lufa/Bootloaders/DFU/BootloaderDFU.c:614-631 | a locked device answers every command but chip erase and reads with errWRITE in dfuERROR and keeps its memories |
| `DfuAnswers.NotBlankTold` | lufa/Bootloaders/DFU/BootloaderDFU.c:730-738 | a failed blank check is told as errCHECK_ERASED in dfuERROR |
| `DfuAnswers.NothingUploaded` | lufa/Bootloaders/DFU/BootloaderDFU.c:437-515 | a signature read between display command and upload makes the upload one empty packet |
| `DfuExit.RequestFlags` | lufa/Bootloaders/DFU/BootloaderDFU.c:250-313 | for every device and request: RunBootloader, WaitForExit, the watchdog and the jump target afterwards, from the pending command and the request's own command |
| `DfuExit.LeavesIff` | lufa/Bootloaders/DFU/BootloaderDFU.c:267-313 | for every device and request RunBootloader falls iff a DNLOAD runs, as pending or as new command, an unlocked write command 3 without data, second byte not 0, while word 0 of flash is 0xFFFF |
| `DfuExit.LeftIff` | lufa/Bootloaders/DFU/BootloaderDFU.c:190-192 | for every device and request the test of the main loop fails afterwards iff RunBootloader is or becomes false and the request leaves no start command waiting |
| `DfuExit.PendingKept` | lufa/Bootloaders/DFU/BootloaderDFU.c:752-756 | what waits for its closing download is always a command to start the application |
| `DfuExit.SessionLeftIff` | lufa/Bootloaders/DFU/BootloaderDFU.c:190-192 | over every session the main loop has ended at some point iff some request cleared RunBootloader and the same or a later one left no start command waiting |
| `DfuExit.ProgrammedNeverLeft` | lufa/Bootloaders/DFU/BootloaderDFU.c:250-578 | a running device with an application is left at no point of any session whose requests neither erase nor program, and keeps its flash |
| `DfuExit.JumpLeavesIff` | lufa/Bootloaders/DFU/BootloaderDFU.c:752-789 | told to start the application by a jump, an unlocked running bootloader is not left by that request; after the closing download it is left iff word 0 of flash is 0xFFFF |
| `DfuExit.WatchdogStartsIff` | lufa/Bootloaders/DFU/BootloaderDFU.c:137-172 | told to do so by the watchdog, an unlocked device starts its application after the reset iff word 0 of flash is not 0xFFFF |
| `DfuExit.ProgrammedStays` | lufa/Bootloaders/DFU/BootloaderDFU.c:776-788 | an application just programmed from address 0 is not started by a jump, then or after the closing download, but is by the watchdog |
| `DfuDevice.Bootloader.constructor` | lufa/Bootloaders/DFU/BootloaderDFU.c:43-93 | initial globals |
| `DfuDevice.Bootloader.LoadStartEndAddresses` | lufa/Bootloaders/DFU/BootloaderDFU.c:659-671 | both addresses from the big-endian parameters |
| `DfuDevice.Bootloader.ProcessMemProgCommand` | lufa/Bootloaders/DFU/BootloaderDFU.c:676-701 | computes `ProcessMemProg`: load addresses, erase the first page, enter dfuDNLOAD_IDLE |
| `DfuDevice.Bootloader.ProcessMemReadCommand` | lufa/Bootloaders/DFU/BootloaderDFU.c:707-745 | computes `ProcessMemRead`; the blank check loop ends and agrees with `FirstUsed` |
| `DfuDevice.Bootloader.ProcessWriteCommand` | lufa/Bootloaders/DFU/BootloaderDFU.c:750-811 | computes `ProcessWrite`: start application, watchdog, chip erase |
| `DfuDevice.Bootloader.ProcessReadCommand` | lufa/Bootloaders/DFU/BootloaderDFU.c:816-859 | computes `ProcessRead`: bootloader information, signature, address errors |
| `DfuDevice.Bootloader.ProcessBootloaderCommand` | lufa/Bootloaders/DFU/BootloaderDFU.c:611-654 | computes `ProcessCommand`: the secure filter, then dispatch |
| `DfuDevice.Bootloader.DiscardFillerBytes` | lufa/Bootloaders/DFU/BootloaderDFU.c:585-605 | computes `Discard`; a packet switch counts as a byte |
| `DfuDevice.Bootloader.WriteFlash` | lufa/Bootloaders/DFU/BootloaderDFU.c:327-378 | the word loop with its 8-bit counter computes `ProgramWords`, detaching included |
| `DfuDevice.Bootloader.WriteEeprom` | lufa/Bootloaders/DFU/BootloaderDFU.c:388-407 | the byte loop computes `ProgramEeprom`, 16-bit address wrap included |
| `DfuDevice.Bootloader.StoreFlash` | lufa/Bootloaders/DFU/BootloaderDFU.c:325-385 | the flash branch; StartAddr reaches EndAddr only if the host stayed |
| `DfuDevice.Bootloader.StoreEepromData` | lufa/Bootloaders/DFU/BootloaderDFU.c:386-408 | the EEPROM branch |
| `DfuDevice.Bootloader.StoreFirmware` | lufa/Bootloaders/DFU/BootloaderDFU.c:316-411 | discard filler and padding, then store |
| `DfuDevice.Bootloader.Download` | lufa/Bootloaders/DFU/BootloaderDFU.c:307-413 | computes `FinishDownload` |
| `DfuDevice.Bootloader.ReceiveParameters` | lufa/Bootloaders/DFU/BootloaderDFU.c:295-301 | the parameter loop computes `ReadParameters` while the packet lasts |
| `DfuDevice.Bootloader.ReceiveCommand` | lufa/Bootloaders/DFU/BootloaderDFU.c:289-301 | command byte and parameters, sizes counted down modulo 2^16 |
| `DfuDevice.Bootloader.DnloadRequest` | lufa/Bootloaders/DFU/BootloaderDFU.c:267-419 | computes `HandleDnload`: pending exit, command, download |
| `DfuDevice.Bootloader.SendFlash` | lufa/Bootloaders/DFU/BootloaderDFU.c:448-482 | the read loop computes `ReadWords`: same packets, same bank, same point of detaching |
| `DfuDevice.Bootloader.SendEeprom` | lufa/Bootloaders/DFU/BootloaderDFU.c:487-509 | the same for EEPROM |
| `DfuDevice.Bootloader.SendMemoryPackets` | lufa/Bootloaders/DFU/BootloaderDFU.c:443-515 | computes `SendMemory` |
| `DfuDevice.Bootloader.UploadRequest` | lufa/Bootloaders/DFU/BootloaderDFU.c:420-518 | computes `HandleUpload` |
| `DfuDevice.Bootloader.ShortRequest` | lufa/Bootloaders/DFU/BootloaderDFU.c:519-576 | status, clear, state, abort |
| `DfuDevice.Bootloader.ControlRequest` | lufa/Bootloaders/DFU/BootloaderDFU.c:250-578 | one request takes the device to `Handle` of it with exactly its packets, so the session theorems apply to the code |
| `Cdc.AddressUnderstoodIff` | lufa/Bootloaders/CDC/BootloaderCDC.c:484-488 | the current address is twice the word address given iff its high byte is below 0x40 |
| `CdcBlocks.BlockUnderstood` | lufa/Bootloaders/CDC/BootloaderCDC.c:284-287 | a block command with its big-endian size and memory type is carried out as that transfer |
| `CdcBlocks.FlashBlockWritten` | lufa/Bootloaders/CDC/BootloaderCDC.c:330-382 | an even block of at most a page at a page boundary: committed, 0xFF to the page end, address advanced by its size, answer CR |
| `CdcBlocks.FlashBlockRead` | lufa/Bootloaders/CDC/BootloaderCDC.c:298-329 | an even block read returns flash from the current address and advances it |
| `CdcBlocks.WritesLoad` | lufa/Bootloaders/CDC/BootloaderCDC.c:330-382 | any number of page-sized block writes commit the concatenation, one CR each |
| `CdcBlocks.ReadsReturn` | lufa/Bootloaders/CDC/BootloaderCDC.c:298-329 | reads of any even sizes return consecutive slices |
| `CdcBlocks.FlashRoundTrip` | lufa/Bootloaders/CDC/BootloaderCDC.c:276-383 | set address, write pages, set address, read in any even split: flash is the blocks, other pages unchanged, the answers are the CRs and then the blocks |
| `CdcBlocks.EepromRoundTrip` | lufa/Bootloaders/CDC/BootloaderCDC.c:276-383 | the same for EEPROM with blocks and reads of any sizes |
| `CdcBytes.EraseCommand` | lufa/Bootloaders/CDC/BootloaderCDC.c:515-529 | the erase command answers CR and leaves the page buffer's contents, then 0xFF up to BOOT_START_ADDR; flash from there on, EEPROM and address as before |
| `CdcBytes.EraseBlanksIff` | lufa/Bootloaders/CDC/BootloaderCDC.c:515-524 | the whole section reads 0xFF iff the buffer was blank |
| `CdcBytes.ErasedReads` | lufa/Bootloaders/CDC/BootloaderCDC.c:298-529 | erase with a blank buffer, any set address, block reads of any even sizes inside the section: only 0xFF comes back |
| `CdcBytes.EepromByByte` | lufa/Bootloaders/CDC/BootloaderCDC.c:613-632 | set address, any bytes one command each, set address, as many reads: EEPROM has the bytes there, flash is unchanged, the reads return them |
| `CdcBytes.WordsProgrammed` | lufa/Bootloaders/CDC/BootloaderCDC.c:571-600 | a page filled by single words and written has the lower byte of each and zero for the upper one |
| `CdcBytes.WordsProgrammedIff` | lufa/Bootloaders/CDC/BootloaderCDC.c:571-600 | flash holds the words meant iff all their upper bytes are zero |
| `CdcBytes.WordRead` | lufa/Bootloaders/CDC/BootloaderCDC.c:601-611 | set address and read a word: upper byte first, nothing changed but the address |
| `CdcBytes.QuestionsAnswered` | lufa/Bootloaders/CDC/BootloaderCDC.c:453-638 | any run of commands that only ask leaves the device as it is, one answer each |
| `CdcBytes.BlockSizeTold` | lufa/Bootloaders/CDC/BootloaderCDC.c:555-563 | the block size told is the page size of the flash |
| `CdcBytes.IdentityTold` | lufa/Bootloaders/CDC/BootloaderCDC.c:473-508 | identifier, version and part code as the programmer expects them |
| `CdcBytes.UnknownRefused` | lufa/Bootloaders/CDC/BootloaderCDC.c:634-638 | anything else that asks is refused with '?', but the synchronisation byte is not answered |
| `CdcBytes.ArgumentTaken` | lufa/Bootloaders/CDC/BootloaderCDC.c:460-467 | commands whose argument is not used take exactly that byte, answer CR and change nothing |
| `CdcBytes.LeftIff` | lufa/Bootloaders/CDC/BootloaderCDC.c:453-459 | over any session RunBootloader falls iff some command is the exit command |
| `CdcTask.TransferUnique` | lufa/Bootloaders/CDC/BootloaderCDC.c:640-666 | full packets and a short last one determine the packets from the bytes (section 5.8.3 of USB 2.0) |
| `CdcTask.Bootloader.constructor` | lufa/Bootloaders/CDC/BootloaderCDC.c:48-57 | initial state |
| `CdcTask.Bootloader.FetchNextCommandByte` | lufa/Bootloaders/CDC/BootloaderCDC.c:391-410 | returns the next byte of the stream across packets, 0 once the host has gone |
| `CdcTask.Bootloader.WriteNextResponseByte` | lufa/Bootloaders/CDC/BootloaderCDC.c:417-436 | appends one byte to what has been written, sending the bank when it is full |
| `CdcTask.Bootloader.WriteResponse` | lufa/Bootloaders/CDC/BootloaderCDC.c:500-513 | appends several bytes in order |
| `CdcTask.Bootloader.ReadFlashBlock` | lufa/Bootloaders/CDC/BootloaderCDC.c:303-319 | the byte loop with its HighByte toggle computes `ReadFlash` |
| `CdcTask.Bootloader.ReadEepromBlock` | lufa/Bootloaders/CDC/BootloaderCDC.c:320-327 | computes `ReadEeprom` |
| `CdcTask.Bootloader.FillFlashBlock` | lufa/Bootloaders/CDC/BootloaderCDC.c:340-359 | computes `FillFlash` |
| `CdcTask.Bootloader.WriteEepromBlock` | lufa/Bootloaders/CDC/BootloaderCDC.c:360-367 | computes `WriteEeprom` |
| `CdcTask.Bootloader.ReadWriteMemoryBlock` | lufa/Bootloaders/CDC/BootloaderCDC.c:276-383 | header, type check, transfer: state, answer and rest of the stream are those of `MemoryBlock` |
| `CdcTask.Bootloader.FlashCommand` | lufa/Bootloaders/CDC/BootloaderCDC.c:515-611 | erase, fill, write and word read at the current address |
| `CdcTask.Bootloader.AddressCommand` | lufa/Bootloaders/CDC/BootloaderCDC.c:484-632 | set address; single EEPROM bytes |
| `CdcTask.Bootloader.InfoCommand` | lufa/Bootloaders/CDC/BootloaderCDC.c:453-638 | commands answered without touching memory, '?' for unknown ones, nothing for sync |
| `CdcTask.Bootloader.FinishTransfer` | lufa/Bootloaders/CDC/BootloaderCDC.c:640-666 | the packets sent form one complete transfer of the answer: all full but a shorter, possibly empty last one |
| `CdcTask.LeftWhole` | lufa/Bootloaders/CDC/BootloaderCDC.c:671-672 | of non-empty packets, what is unread of the stream says exactly which packets have not been touched |
| `CdcTask.Bootloader.HostSends` | lufa/Bootloaders/CDC/BootloaderCDC.c:441-446 | packets queue behind those not yet taken |
| `CdcTask.Bootloader.Task` | lufa/Bootloaders/CDC/BootloaderCDC.c:441-673 | a waiting command changes the device as `Execute` says, its answer goes out as one complete transfer, and exactly the packets that hold none of its bytes are left; without a packet nothing happens |
| `CdcTask.ExactFits` | lufa/Bootloaders/CDC/BootloaderCDC.c:441-673 | commands that are exactly as long as they say end in their last packet, however they are cut |
| `CdcTask.Bootloader.Serve` | lufa/Bootloaders/CDC/BootloaderCDC.c:441-673 | commands given as packets, one Task each: the device is that of `Session` and every answer is a complete transfer of the answer there, so the round trips hold of the code |
| `Joystick.PushUnread` | Joystick.c:40-47 | with fewer than 255 unread bytes the interrupt appends to the queue of unread bytes; with 255 it empties it |
| `Joystick.PopUnread` | Joystick.c:57-59 | reading takes the first unread byte, indices wrapping |
| `Joystick.OverrunReportedIff` | Joystick.c:44-45 | X is printed iff 255 bytes are unread and the tail is not 0 |
| `Joystick.HexValueMeans` | Joystick.c:74-82 | a character counts as a digit iff it is one, in either case, and for its value |
| `Joystick.DigitsCounted` | Joystick.c:84-90 | on every stream the counter is the number of digits on the line modulo 256 |
| `Joystick.ParserRefinesLines` | Joystick.c:50-94 | after any characters with at most 14 digits a line, the report is the decoding of the last line of exactly 14 digits, and the buffer holds the digits of the open line |
| `Joystick.LongLineCorruptsIff` | Joystick.c:88-89 | a store outside b happens iff some line gets a fifteenth digit |
| `Joystick.Firmware.constructor` | Joystick.c:30-52 | empty ring, zero report |
| `Joystick.Firmware.ReceiveInterrupt` | Joystick.c:43-47 | pushes the byte, prints X exactly when the test says so |
| `Joystick.Firmware.ParseChar` | Joystick.c:61-91 | one character on l and the array b computes `TakeChar` |
| `Joystick.RunAccounted` | Joystick.c:40-59 | any bytes, any interleaving of arrivals and parsing with at most 255 unread: bytes taken, then bytes unread, are the bytes that arrived; none lost, repeated or moved |
| `Joystick.RingAndParser` | Joystick.c:40-94 | in every such run no X is printed, a store leaves b iff a line taken has a fifteenth digit, and otherwise the report is that of the last line of exactly 14 digits |
| `Joystick.OverrunsPrinted` | Joystick.c:43-47 | in every run, room or not, one X is printed for each byte that arrives at 255 unread with the tail not 0, and nothing else |
| `Joystick.ArrivalCommutes` | Joystick.c:40-59 | a byte that arrives in the middle of a round of the loop leaves the ring as if it came after it |
| `Joystick.Firmware.TakeUnread` | Joystick.c:55-91 | one round of the loop is one Parse event |
| `Joystick.Firmware.Interrupts` | Joystick.c:43-47 | interrupts for some bytes are their Arrive events, in order |
| `Joystick.Firmware.SerialTask` | Joystick.c:50-94 | with bytes arriving before every test of its loop it is a run of events that ends with nothing unread, and with room has parsed all that was unread or arrived, in order |
| `Joystick.Firmware.HidTask` | Joystick.c:196-260 | sends the current globals and prints U |
| `Bridge.ButtonWordIsDown` | bridge.py:126-128 | the summed and OR-ed word has exactly the bits of the buttons that are down, a trigger counting as its button |
| `Bridge.EncodeMeans` | bridge.py:126-135 | encoding fails iff all four d-pad buttons are down; otherwise hat, buttons and all four axes are those of the pad and fit their fields |
| `Bridge.AxisMeans` | bridge.py:132-133 | axes are monotone over the whole range, 128 inside the dead zone, 0 and 255 at the ends |
| `Bridge.WholeMessage` | bridge.py:135-136 | after any whole lines, the characters of a message make the firmware's report that state |
| `Bridge.ReplayReadsRecord` | bridge.py:139-144 | splitting the concatenation of any lines gives back the lines |
| `Bridge.RecordReplayDecode` | bridge.py:135-144 | for every sequence of states: the recorded bytes split into the messages sent, and the firmware fed them holds the last state |
| `Bridge.PadsReplayed` | bridge.py:126-144 | from pad states on: the recording splits into the messages sent, and replayed up to any of them makes the firmware show hat, buttons and axes of that pad state |
| `SwitchProtocol.StepConsistent` | Joystick.c:43-94 | every step of host, line, interrupt and main loop keeps: bytes sent are those parsed, then those unread in the ring, then those on the line |
| `SwitchProtocol.ReportsAreMessages` | Joystick.c:110-117 | over every interleaving with room in the ring: each report is the zero state or one whole message sent, the numbers of the messages shown never decrease, messages sent are at most U's emitted plus one |
| `SwitchProtocol.DrainedShowsLast` | bridge.py:405-421 | once line and ring are drained the next report is the last message sent |
| `SwitchProtocol.TasksTakeTurns` | Joystick.c:110-117 | in every run Serial_Task ends between any two rounds of HID_Task |
| `SwitchProtocol.CaughtUp` | Joystick.c:50-117 | every report shows at least the last whole message that had arrived when Serial_Task last ended |
| `SwitchProtocol.EveryMessageCanBeShown` | bridge.py:405-421 | from wherever any run leads, without a new message, the loop can go on so that the console gets the last message sent and a waiting host reads its U: no deadlock |
| `InputStack.NextAdvances` | bridge.py:314-326 | the popping loop delivers the head of the stack's one combined future |
| `InputStack.StackIsFuture` | bridge.py:305-326 | under any pushes and takes the stack behaves as that future with interruptions put in front |
| `InputStack.InterruptionsResume` | bridge.py:305-326 | interruptions, however many and nested, live sources sampled when asked: once what was pushed is used up, everything after is as if it had never been pushed |
| `InputStack.FileDelivered` | bridge.py:305-326 | a pushed file or macro is delivered completely and in order, whatever live sources would have given meanwhile |
| `InputStack.Stack.constructor` | bridge.py:278-287 | empty stack, record file if asked for |
| `InputStack.Stack.MacroStart` | bridge.py:294-298 | opens a macro file only if none is open |
| `InputStack.Stack.MacroEnd` | bridge.py:300-303 | the closed macro file is the concatenation of the messages returned since its start |
| `InputStack.Stack.Push` | bridge.py:305-306 | the pushed source comes before everything else |
| `InputStack.Stack.Next` | bridge.py:314-326 | returns the next message of the future, ends after at most the depth of the stack, and keeps record and macro file equal to the messages returned |
| `Controller.OutputDetermines` | controller/switchcontroller/switchcontroller.py:92-116 | the line sent determines every field: equal lines, equal states |
| `Controller.LastKeyWins` | controller/twitch-control.py:1119-1693 | after any assignments each field has the value of the last one to it, fields without one keep theirs |
| `Commands.InsertsLower` | controller/twitch-control.py:1119-1630 | for every string the words it queues are of lower rank, so no chain of macros goes on forever |
| `Commands.ContinuationSettles` | controller/twitch-control.py:1379-1630 | every word that a non-resetting row queues decides itself whether to reset |
| `Commands.NotResetting` | controller/twitch-control.py:1119-1694 | every string, all matching rows applied in order, chords included: if it does not reset it queues a continuation, or sets nothing and is none itself |
| `Commands.ChordsNeverMinus` | controller/twitch-control.py:1633-1694 | no string whatever holds minus as a chord |
| `Commands.JumpBackGoesForward` | controller/twitch-control.py:1414-1417 | "jump back" queues exactly "jump forward2" |
| `Commands.NothingQueuesJumpBack2` | controller/twitch-control.py:1414-1423 | no string queues "jump back2" |
| `ChatWords.SplitJoin` | controller/twitch-control.py:1634 | splitting at plus signs gives back any parts without one that were joined by them |
| `ChatWords.JoinSplit` | controller/twitch-control.py:1634 | joining the parts of any word gives it back |
| `ChatWords.PartsPlain` | controller/twitch-control.py:1634 | no part of any word has a plus sign |
| `ChatWords.VariantNamed` | controller/twitch-control.py:1634-1650 | a plain word with any blanks around it and any letters s and h put in anywhere is looked up under its bare name |
| `ChatWords.PlainKeys` | controller/twitch-control.py:1119-1694 | a plain word presses exactly what the chord table has for it, `l` and `r` the stick too |
| `ChatWords.PlusMatchesNothing` | controller/twitch-control.py:1119-1630 | no word with a plus sign matches a row of the table |
| `ChatWords.ChordIsItsWords` | controller/twitch-control.py:1633-1694 | every chord of plain words, however blanked and lengthened: its keys are those of its words in order, it queues nothing and resets |
| `ChatWords.ChordIsItsWordsIff` | controller/twitch-control.py:1633-1694 | they are the keys of the same words sent one by one iff none of them is `l` or `r` |
| `ChatWords.SlowSticksPoint` | controller/twitch-control.py:1119-1378 | every short stick word moves the left stick the way it ends in |
| `ChatWords.HeldSticksPoint` | controller/twitch-control.py:1119-1378 | so does every word that holds the stick |
| `ChatWords.PadsPoint` | controller/twitch-control.py:1119-1378 | every d-pad word presses the way it ends in |
| `ChatWords.LooksPoint` | controller/twitch-control.py:1119-1378 | every look word moves the right stick the way it ends in |
| `ChatWords.PressesName` | controller/twitch-control.py:1119-1378 | every button word holds exactly the button that it names behind letters s and h |
| `MacroRuns.OneMeaning` | controller/twitch-control.py:1379-1630 | a word runs at most one step of one macro |
| `MacroRuns.StepEffect` | controller/twitch-control.py:1119-1630 | every word of a macro matches no other condition: it sets its step's keys, queues the next step alone and resets iff it is the last |
| `MacroRuns.MacroPlays` | controller/twitch-control.py:1093-1630 | a macro sent to an idle scheduler: the k-th tick runs its k-th step and shows the keys of all steps so far, after the last the controller is neutral and nothing is queued |
| `MacroRuns.OtherEffect` | controller/twitch-control.py:1414-1439 | the words that follow no pattern match no other condition either |
| `MacroRuns.JumpBackPlays` | controller/twitch-control.py:1408-1417 | "jump back" sent to an idle scheduler pulls the stick back, then jumps forward, then is neutral |
| `MacroRuns.SpinGoesRound` | controller/twitch-control.py:1535-1630 | the spin moves the stick clockwise twice, the lower right left out each time, resting at the top between the rounds |
| `MacroRuns.MacrosAreWords` | controller/twitch-control.py:1379-1534 | sprints are the chord of up and b, and the steps of the other macros hold the keys of up, b, y and zl in the order of the source |
| `Scheduler.TickShows` | controller/twitch-control.py:1093-1695 | in a tick every field shows the command's last assignment or what it began as, lock-on holding zl; afterwards the controller is neutral or as shown |
| `Scheduler.TickHeld` | controller/twitch-control.py:1093-1695 | a tick on any word keeps: anything but zl off neutral means a continuation is queued |
| `Scheduler.NothingStaysHeld` | controller/twitch-control.py:1093-1695 | in every run with any strings as chat and lock-on at will that holds, so with no queued commands the controller is neutral apart from zl |
| `Scheduler.TickWeight` | controller/twitch-control.py:1103-1117 | a tick runs a command unless both queues are empty, and lowers the queued weight by exactly one |
| `Scheduler.DrainsExactly` | controller/twitch-control.py:1103-1630 | with no new chat both queues are empty after n ticks iff n is at least their weight |
| `Scheduler.TickInOrder` | controller/twitch-control.py:1103-1117 | a tick keeps both order laws; continuations run only while no chat command waits |
| `Scheduler.RunsInOrder` | controller/twitch-control.py:1088-1117 | in every run chat commands run and waiting are those that arrived, in order; inserted commands run and waiting are those inserted, in order |
| `Controller.SwitchController.constructor` | controller/switchcontroller/switchcontroller.py:32-61 | neutral |
| `Controller.SwitchController.Reset` | controller/switchcontroller/switchcontroller.py:63-90 | every field back to neutral |
| `Controller.SwitchController.Assign` | controller/twitch-control.py:1119-1693 | one assignment changes one field |
| `Controller.SwitchController.AssignAll` | controller/twitch-control.py:1119-1693 | a command's assignments in order |
| `Controller.SwitchController.GetOutput` | controller/switchcontroller/switchcontroller.py:92-116 | output is the line of the current fields |
| `Relay.RelayCopies` | controller/twitch-control.py:211-313 | a controller's line, relayed, copies every field with the vertical axes turned over, less the buttons the player may not press; a controller at rest stays at rest |
| `Relay.PermittedMeans` | controller/twitch-control.py:269-306 | everyone may press all buttons but capture and home (moderators) and plus (those with a plus) |
| `Relay.RelayTwiceIff` | controller/twitch-control.py:211-313 | relayed twice a state comes back iff turned over it is not at rest |
| `Relay.PressIf` | controller/twitch-control.py:261-306 | one condition presses its button iff its place has a 1 and the player may |
| `Relay.PressButtons` | controller/twitch-control.py:261-306 | the conditions in order |
| `Relay.OnControllerState` | controller/twitch-control.py:211-313 | the handler leaves the controller as `Relayed` says and sends its line |
| `Scheduler.Client.constructor` | controller/twitch-control.py:135-180 | empty queues, lock-on off |
| `Scheduler.Client.Enqueue` | controller/twitch-control.py:1079-1089 | all words of an accepted line in order, none of a rejected one |
| `Scheduler.Client.InsertAll` | controller/twitch-control.py:1425-1439 | repeated insertion at index 0 |
| `Scheduler.Client.PerformRow` | controller/twitch-control.py:1119-1630 | a row of the table acts exactly if its condition holds of the word |
| `Scheduler.Client.PerformChain` | controller/twitch-control.py:1119-1630 | the chain of conditions in order computes the word's effect: keys, insertions, reset |
| `Scheduler.Client.PerformChord` | controller/twitch-control.py:1633-1694 | the buttons of a chord in order |
| `Scheduler.Client.Perform` | controller/twitch-control.py:1119-1694 | keys pressed, words queued and reset are those of the word: the whole chain, then the chord if it has a + |
| `Scheduler.Client.DecreaseQueue` | controller/twitch-control.py:1093-1695 | one tick on lists and controller is `Tick`; the first line sent shows the command held, the last one the state left behind |

## Left out

- Fuse and lock bit commands, USB enumeration, endpoint set-up, LEDs, watchdog and jump to the application: hardware calls.
- Mass Storage bootloader and SCSI.c: the virtual FAT they rest on is not part of the repository.
- Descriptors, configuration headers and the LUFA demo projects: tables and thin wrappers.
- sscanf corner cases in the HID host (leading spaces, signs, 0x prefixes) and lines longer than fgets's buffer: a line is an exact sequence of digits.
- Opening and closing files, serial ports, SDL, curses and the progress bar: messages, lines and pad states are parameters.
- Durations, the 8.33 ms gate, sockets, voting, permissions and the checks that decide whether a chat line is valid: a tick is a step and validity, that chat is enabled included, a parameter.
- MacroRuns.MacroPlays: lock-on is off; `Scheduler.TickShows` says what it adds to a tick.
- Scheduler: the button fields of the controller are kept as the set of those that are 1; the fields up, down, left and right are never written after reset and left out.
- PrinterPages.FileTaken: records with a wrong checksum are not covered; when the bootloader ends is stated for every stream (`PrinterExit.BootloaderEndsIff`). No claim is made that arbitrary streams spare the bootloader section.
- PrinterOdd.InnerOddFileLoads: an odd record that completes a page is left to `PrinterPages.FileTaken`, because the first word after it then goes to the end of the next page.
- DfuProgram.DfuPrograms: the start is page aligned; `DfuOffset.OffsetPrograms` says what a start inside a page leaves, and `DfuProgram.PaddingDiscardedIff` what one that is not packet aligned does.
- DfuEeprom.EepromPrograms: the start is a multiple of the packet size, because of the padding (`DfuProgram.PaddingDiscardedIff`).
- DfuExit.WatchdogStartsIff: the reset itself and its time-out are hardware; the model has the check that follows it with the boot key set, on boards where no pin decides instead.
- CdcBlocks.FlashRoundTrip: the start lies below 0x8000, the addresses the set-address command can express, and blocks are whole pages, as the block size the device announces.
- CdcBytes.WordsProgrammed: the page is blank before, as an erase leaves it, because the word commands do not erase.
- CdcTask.Bootloader.Task: which packets are left is stated for packets that are not empty, because an empty packet in front of the command is taken without a byte of it being read.
- CdcTask.Bootloader.Serve: every command ends in its last packet, because CDC_Task drops what is left of the packet it stops in and would take a further packet for a new command; `CdcTask.ExactFits` and the round trips give it for commands that are as long as they say.
- Relay.OnControllerState: for a line that is not five words, the first of 15 characters or more and the others numbers below 256, the source stops with an exception or keeps part of it; here nothing is sent and the controller is left open. Which players are moderators or have a plus is a parameter.
- HidLoader.HidEndToEnd: the file is required to be one the host accepts, because a refused file is not sent at all.
- SwitchProtocol.ReportsAreMessages: a byte arrives only while fewer than 255 are unread, and no U from before the start is pending; `Joystick.PushUnread` says what happens otherwise.
- Host detaching in the middle of a transfer is a possible step in the secure mode theorems and is stated for DFU in `DfuDetach` and for HID in `HidDevice.ShortReport`; the round trips assume it stays.
