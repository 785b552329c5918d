/**
 The two independent Intel HEX paths, the Printer bootloader's character parser and
 the HID host and device, on the same file.
 */
module Agreement {
  import opened Avr
  import opened Basics
  import opened IntelHex
  import opened Usb
  import Printer
  import PrinterLoad
  import opened HidHost
  import opened HidDevice
  import opened HidLoader
  import opened HidLines

  /** A contiguous file from address 0, with its end record, as lines. */
  function FileLines(chunks: seq<seq<byte>>, a: nat, endings: seq<string>): seq<string>
    requires |Flatten(chunks)| <= 0x10000 && a < 0x10000 && |endings| == |chunks| + 1
    requires forall d :: d in chunks ==> 0 < |d| < 256
  {
    Lines(DataRecords(0, chunks) + [Record(a, END_OF_FILE, [])], endings)
  }

  // ---- What the host reads in a file ------------------------------------------

  function PiecesOf(at: nat, chunks: seq<seq<byte>>): seq<Piece>
    decreases chunks
  {
    if chunks == [] then [] else [Piece(at, chunks[0])] + PiecesOf(at + |chunks[0]|, chunks[1..])
  }

  /** The records of a contiguous file follow each other in memory and all lie in range. */
  lemma {:induction false} ContiguousPlaced(at: nat, chunks: seq<seq<byte>>, a: nat)
    requires at + |Flatten(chunks)| < 0x10000 && a < 0x10000
    requires forall d :: d in chunks ==> 0 < |d| < 256
    ensures var rs := DataRecords(at, chunks) + [Record(a, END_OF_FILE, [])];
            Ending(0, rs).Accepted? && Placed(0, rs) == PiecesOf(at, chunks)
    decreases chunks
  {
    var last: Record := Record(a, END_OF_FILE, []);
    if chunks == [] {
      assert DataRecords(at, chunks) + [last] == [last];
    } else {
      hide Flatten;
      var d, rest := chunks[0], chunks[1..];
      assert chunks == [d] + rest;
      FlattenCons(d, rest);
      ContiguousPlaced(at + |d|, rest, a);
      var rs := DataRecords(at + |d|, rest) + [last];
      assert DataRecords(at, chunks) + [last] == [Record(at, DATA, d)] + rs;
      FirstPlaced(Record(at, DATA, d), rs);
    }
  }

  lemma FirstPlaced(r: Record, rs: seq<Record>)
    requires r.kind == DATA && r.addr + |r.data| < 0x10000
    ensures Ending(0, [r] + rs) == Ending(0, rs)
    ensures Placed(0, [r] + rs) == [Piece(r.addr, r.data)] + Placed(0, rs)
  {
    assert ([r] + rs)[1..] == rs;
  }

  lemma ContiguousRead(chunks: seq<seq<byte>>, a: nat, endings: seq<string>)
    requires |Flatten(chunks)| < 0x10000 && a < 0x10000 && |endings| == |chunks| + 1
    requires forall d :: d in chunks ==> 0 < |d| < 256
    ensures var lines := FileLines(chunks, a, endings);
            TakeLines(EMPTY_HOST, lines).1.Accepted? && Pieces(0, lines) == PiecesOf(0, chunks)
  {
    hide Lines, DataRecords, TakeLines, Pieces, PiecesOf, Ending, Placed, Flatten;
    var rs := DataRecords(0, chunks) + [Record(a, END_OF_FILE, [])];
    ContiguousPlaced(0, chunks, a);
    FileEnds(EMPTY_HOST, rs, endings);
    FilePlaced(0, rs, endings);
  }

  lemma {:induction false} ContiguousLastWriter(at: nat, chunks: seq<seq<byte>>, a: nat)
    ensures LastWriter(PiecesOf(at, chunks), a) ==
            if at <= a < at + |Flatten(chunks)| then Some(Flatten(chunks)[a - at]) else None
    decreases chunks
  {
    if chunks != [] {
      ContiguousLastWriter(at + |chunks[0]|, chunks[1..], a);
      LastWriterCons(Piece(at, chunks[0]), PiecesOf(at + |chunks[0]|, chunks[1..]), a);
    }
  }

  // ---- What the printer reads -------------------------------------------------

  lemma {:induction false} StripAppend(xs: string, ys: string)
    ensures Printer.Strip(xs + ys) == Printer.Strip(xs) + Printer.Strip(ys)
  {
    if xs == [] {
      assert xs + ys == ys;
    } else {
      hide Printer.Significant;
      assert (xs + ys)[1..] == xs[1..] + ys;
      StripAppend(xs[1..], ys);
      var first := if Printer.Significant(xs[0]) then [xs[0]] else [];
      Assoc(first, Printer.Strip(xs[1..]), Printer.Strip(ys));
    }
  }

  lemma {:induction false} StripHex(bs: seq<byte>)
    ensures Printer.Strip(HexBytes(bs)) == HexBytes(bs)
  {
    if bs != [] {
      StripHex(bs[1..]);
      StripAppend(HexByte(bs[0]), HexBytes(bs[1..]));
      var t := HexByte(bs[0]);
      assert t[1..] == [t[1]] && t[1..][1..] == [];
      assert Printer.Strip(t) == t;
    }
  }

  lemma {:induction false} StripLines(rs: seq<Record>, endings: seq<string>)
    requires |rs| == |endings| && forall i :: 0 <= i < |endings| ==> Printer.Strip(endings[i]) == []
    ensures Printer.Strip(Flatten(Lines(rs, endings))) == Flatten(Texts(rs))
    decreases rs
  {
    hide Text, Printer.Strip;
    if rs == [] {
      StripNothing();
    } else {
      var rest := Lines(rs[1..], endings[1..]);
      StripLines(rs[1..], endings[1..]);
      StripAppend(Text(rs[0]) + endings[0], Flatten(rest));
      StripAppend(Text(rs[0]), endings[0]);
      StripText(rs[0]);
      assert Lines(rs, endings)[1..] == rest && Texts(rs)[1..] == Texts(rs[1..]);
      assert Text(rs[0]) + [] == Text(rs[0]);
    }
  }

  lemma StripNothing()
    ensures Printer.Strip([]) == []
  {
  }

  lemma StripText(r: Record)
    ensures Printer.Strip(Text(r)) == Text(r)
  {
    StripHex(Fields(r) + [CheckByte(Fields(r))]);
    assert Text(r)[1..] == HexBytes(Fields(r) + [CheckByte(Fields(r))]);
  }

  // ---- Both -------------------------------------------------------------------

  /** Flash after the HID loader: the image, or a blank first page for an empty file. */
  lemma HidLoadsImage(boot: nat, f: Flash, img: seq<byte>, ps: seq<Piece>, i: nat)
    requires Aligned(f.Page(), boot) && |img| <= boot <= |f.mem| <= 0x8000 && i < |f.mem|
    requires forall a: nat :: LastWriter(ps, a) == if 0 <= a < |img| then Some(img[a]) else None
    ensures RoundUp(f.Page(), |img|) <= |f.mem|
    ensures FileByte(boot, ps, f, i) ==
            if img == [] && 0 < boot && i < f.Page() then 255 else Loaded(f.Page(), f.mem, 0, img)[i]
  {
    hide LastWriter;
    var p := f.Page();
    var b := Base(p, i);
    RoundUpBelow(p, |img|, boot);
    BaseAligned(p, i);
    InFlashBelow(f, i);
    assert (exists a :: b <= a < b + p <= MAX_MEMORY_SIZE && LastWriter(ps, a).Some?) <==> b < |img| by {
      if b < |img| {
        assert LastWriter(ps, b).Some?;
      }
    }
    if b < |img| {
      if i >= |img| {
        BaseOfPage(p, b, |img|);
      }
    } else if img != [] {
      RoundUpBelow(p, |img|, b);
    }
    assert LastWriter(ps, i) == if 0 <= i < |img| then Some(img[i]) else None;
  }

  lemma SentImage(boot: nat, f: Flash, chunks: seq<seq<byte>>, a: nat, endings: seq<string>, reboot: bool,
                  ps: seq<OutPipe>)
    requires |f.mem| in {0x2000, 0x4000, 0x8000} && f.Page() == 128 && BufferBlank(f)
    requires Aligned(f.Page(), boot) && 0 < boot <= |f.mem| && a < 0x10000
    requires |Flatten(chunks)| <= boot && (forall d :: d in chunks ==> 0 < |d| < 256) && |endings| == |chunks| + 1
    requires AllDelivered(
               ps, Reports(TakeLines(EMPTY_HOST, FileLines(chunks, a, endings)).0.cells, |f.mem|, 128, 0, reboot))
    ensures RoundUp(f.Page(), |Flatten(chunks)|) <= |f.mem|
    ensures var img, sent := Flatten(chunks), HandleAll(boot, Device(f, true), ps).device.flash.mem;
            && |sent| == |f.mem|
            && (img != [] ==> sent == Loaded(f.Page(), f.mem, 0, img))
            && (img == [] ==> forall i :: 0 <= i < |f.mem| ==> sent[i] == if i < f.Page() then 255 else f.mem[i])
  {
    hide Lines, DataRecords, TakeLines, Reports, HandleAll, AllDelivered, Loaded, Pieces, FileByte, RoundUp,
      LastWriter, PiecesOf, Flatten, Aligned;
    var img := Flatten(chunks);
    ContiguousRead(chunks, a, endings);
    HidEndToEnd(boot, FileLines(chunks, a, endings), f, reboot, ps);
    forall c: nat ensures LastWriter(PiecesOf(0, chunks), c) == if 0 <= c < |img| then Some(img[c]) else None {
      ContiguousLastWriter(0, chunks, c);
    }
    SentIsLoaded(boot, f, img, PiecesOf(0, chunks), HandleAll(boot, Device(f, true), ps).device.flash.mem);
  }

  lemma Printable(chunks: seq<seq<byte>>, a: nat, endings: seq<string>)
    requires |Flatten(chunks)| <= 0x10000 && a < 0x10000 && |endings| == |chunks| + 1
    requires forall d :: d in chunks ==> 0 < |d| < 256 && |d| % 2 == 0
    requires forall i :: 0 <= i < |endings| ==> Printer.Strip(endings[i]) == []
    ensures PrinterLoad.ContiguousFile(chunks, a, Flatten(FileLines(chunks, a, endings)))
  {
    hide Lines, Texts, Printer.Strip;
    StripLines(DataRecords(0, chunks) + [Record(a, END_OF_FILE, [])], endings);
  }

  /**
   On an 8, 16 or 32 KB part the two paths take the same starting flash to the same
   final flash, on any contiguous file of even records below BOOT_START_ADDR, if and
   only if the Printer path leaves nothing behind, or for an empty file if the first
   page, which the HID host always sends, was blank.
   */
  lemma LoadersAgree(boot: nat, f: Flash, chunks: seq<seq<byte>>, a: nat, endings: seq<string>, reboot: bool,
                     ps: seq<OutPipe>)
    requires |f.mem| in {0x2000, 0x4000, 0x8000} && f.Page() == 128 && BufferBlank(f)
    requires Aligned(f.Page(), boot) && 0 < boot <= |f.mem| && a < 0x10000 && |endings| == |chunks| + 1
    requires |Flatten(chunks)| <= boot && forall d :: d in chunks ==> 0 < |d| < 256 && |d| % 2 == 0
    requires forall i :: 0 <= i < |endings| ==> Printer.Strip(endings[i]) == []
    requires AllDelivered(
               ps, Reports(TakeLines(EMPTY_HOST, FileLines(chunks, a, endings)).0.cells, |f.mem|, 128, 0, reboot))
    ensures var img, p, file := Flatten(chunks), f.Page(), Flatten(FileLines(chunks, a, endings));
            Printer.FeedAll(boot, Printer.Reset(f), file).flash.mem ==
            HandleAll(boot, Device(f, true), ps).device.flash.mem
            <==> if img == [] then f.mem[..p] == Blank(p) else PrinterLoad.NothingLeftBehind(p, img, a)
  {
    hide FileLines, TakeLines, Reports, HandleAll, AllDelivered, Printer.FeedAll, Loaded, RoundUp,
      PrinterLoad.NothingLeftBehind, PrinterLoad.Outcome, PrinterLoad.ContiguousFile;
    var img, file := Flatten(chunks), Flatten(FileLines(chunks, a, endings));
    Printable(chunks, a, endings);
    PrinterLoad.PrinterLoadsFile(boot, f, chunks, a, file);
    PrinterLoad.PrinterLoadsIff(boot, f, chunks, a, file);
    SentImage(boot, f, chunks, a, endings, reboot, ps);
    if img == [] {
      EmptyOutcome(f, a, HandleAll(boot, Device(f, true), ps).device.flash.mem);
    }
  }

  lemma SentIsLoaded(boot: nat, f: Flash, img: seq<byte>, ps: seq<Piece>, sent: seq<byte>)
    requires Aligned(f.Page(), boot) && 0 < boot && |img| <= boot <= |f.mem| <= 0x8000
    requires forall a: nat :: LastWriter(ps, a) == if 0 <= a < |img| then Some(img[a]) else None
    requires |sent| == |f.mem| && forall i :: 0 <= i < |f.mem| ==> sent[i] == FileByte(boot, ps, f, i)
    ensures RoundUp(f.Page(), |img|) <= |f.mem|
    ensures img != [] ==> sent == Loaded(f.Page(), f.mem, 0, img)
    ensures img == [] ==> forall i :: 0 <= i < |f.mem| ==> sent[i] == if i < f.Page() then 255 else f.mem[i]
  {
    hide LastWriter, FileByte, Loaded;
    RoundUpBelow(f.Page(), |img|, boot);
    forall i | 0 <= i < |f.mem|
      ensures sent[i] == if img == [] && i < f.Page() then 255 else Loaded(f.Page(), f.mem, 0, img)[i]
    {
      HidLoadsImage(boot, f, img, ps, i);
    }
    LoadedNothing(f.Page(), f.mem, 0);
  }

  lemma EmptyOutcome(f: Flash, a: nat, sent: seq<byte>)
    requires f.Page() <= |f.mem| == |sent|
    requires forall i :: 0 <= i < |f.mem| ==> sent[i] == if i < f.Page() then 255 else f.mem[i]
    ensures PrinterLoad.Outcome(f, [], a).mem == f.mem
    ensures f.mem == sent <==> f.mem[..f.Page()] == Blank(f.Page())
  {
    var p := f.Page();
    LoadedNothing(p, f.mem, 0);
    if f.mem[..p] == Blank(p) {
      assert forall i :: 0 <= i < p ==> f.mem[i] == f.mem[..p][i];
    }
  }
}
