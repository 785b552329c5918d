/**
 Data records at or above BOOT_START_ADDR, as in a file that holds application and
 bootloader. They change no flash, but close the open page without writing it: the bytes
 waiting for it are lost unless more data below BOOT_START_ADDR follows.
 */
module PrinterAbove {
  import opened Avr
  import opened Basics
  import opened Bits
  import opened IntelHex
  import opened Printer
  import opened PrinterLoad
  import opened PrinterPages

  /** A data record, with data, at or above BOOT_START_ADDR. */
  predicate Above(boot: nat, l: Load, r: Record) {
    r.kind == DATA && r.data != [] && At(l, r) >= boot
  }

  lemma AboveTaken(p: nat, boot: nat, l: Load, r: Record)
    requires Valid(p, l.pages) && Above(boot, l, r)
    ensures TakeRecord(p, boot, l, r) == l.(pages := Abandoned(p, l.pages))
  {
    hide Valid, Abandoned;
    var w := Padded(l.stale, r.data);
    assert w[..0] == [];
  }

  lemma AbandonedTwice(p: nat, m: Pages)
    requires Valid(p, m)
    ensures Abandoned(p, Abandoned(p, m)) == Abandoned(p, m)
  {
    hide Valid;
  }

  /** Any number of them does what one does. */
  lemma {:induction false} AllAboveTaken(p: nat, boot: nat, l: Load, qs: seq<Record>)
    requires Valid(p, l.pages) && qs != [] && forall r :: r in qs ==> Above(boot, l, r)
    ensures TakeRecords(p, boot, l, qs) == l.(pages := Abandoned(p, l.pages)) && !Ended(p, boot, l, qs)
    decreases qs
  {
    hide Valid, Abandoned, TakeRecord;
    var m := l.(pages := Abandoned(p, l.pages));
    AboveTaken(p, boot, l, qs[0]);
    if |qs| > 1 {
      forall r | r in qs[1..]
        ensures Above(boot, m, r)
      {
        assert r in qs && Above(boot, l, r);
      }
      AllAboveTaken(p, boot, m, qs[1..]);
      AbandonedTwice(p, l.pages);
    }
  }

  /**
   For the parser: whatever it has done before, such records leave every flash byte, the temporary
   buffer and PageStartAddress as they are, and no page open.
   */
  lemma AboveChangesNothing(boot: nat, s: Parser, p: nat, l: Load, qs: seq<Record>)
    requires Between(s, p, l) && boot <= U32 - 2 && qs != [] && forall r :: r in qs ==> Above(boot, l, r)
    ensures var t := FeedAll(boot, s, Flatten(Texts(qs)));
            && t.flash == s.flash && t.pageStart == s.pageStart && !t.pageDirty
            && t.prevData == s.prevData && t.baseAddr == s.baseAddr && t.run == s.run
  {
    hide FeedAll, Texts, Valid, FlashOf, Abandoned, TakeRecords, Ended, Above;
    BetweenValid(s, p, l);
    RecordsTaken(boot, s, p, l, qs);
    AllAboveTaken(p, boot, l, qs);
  }

  // ---- At the end of a file ---------------------------------------------------

  /** Even records that hold `chunks` from address 0 on, records above, and the end record. */
  predicate AboveFile(boot: nat, chunks: seq<seq<byte>>, qs: seq<Record>, a: nat, stream: string) {
    && |Flatten(chunks)| <= 0x10000 && a < 0x10000 && (forall d :: d in chunks ==> 0 < |d| < 256 && |d| % 2 == 0)
    && qs != [] && (forall r :: r in qs ==> r.kind == DATA && r.data != [] && r.addr >= boot)
    && Strip(stream) == Flatten(Texts((DataRecords(0, chunks) + qs) + [Record(a, END_OF_FILE, [])]))
  }

  /**
   Such a file leaves its whole pages and an erased last one, wherever the end record points:
   what a file without the records above leaves if its end record points into the last page.
   */
  lemma AboveFileLoads(boot: nat, f: Flash, chunks: seq<seq<byte>>, qs: seq<Record>, a: nat, stream: string)
    requires BufferBlank(f) && Aligned(f.Page(), boot) && boot <= |f.mem| < U32 - 2
    requires AboveFile(boot, chunks, qs, a, stream) && |Flatten(chunks)| <= boot
    ensures var img := Flatten(chunks);
            && RoundUp(f.Page(), |img|) <= |f.mem|
            && var t := FeedAll(boot, Reset(f), stream);
            !t.run && t.flash == Outcome(f, img, |img|)
  {
    hide FeedAll, Strip, Texts, Outcome, Base, Aligned, RoundUp, PagesOf, FlashOf, Crossed, TakeRecords, Valid,
      Abandoned, Flatten, DataRecords, Ended;
    var p, img, data := f.Page(), Flatten(chunks), DataRecords(0, chunks);
    ContiguousRecords(0, chunks);
    DataFileTaken(boot, f, data + qs, a, stream);
    ChunksTaken(p, boot, f.mem, chunks);
    FreshStart(f);
    TakeRecordsAppend(p, boot, Fresh(f), data, qs);
    var l := TakeRecords(p, boot, Fresh(f), data);
    AllAboveTaken(p, boot, l, qs);
    ClosedStays(p, l.pages, a);
    OpenStays(p, l.pages, |img|);
    EndOutcome(f, img, |img|);
  }

  lemma FreshStart(f: Flash)
    requires BufferBlank(f)
    ensures Fresh(f) == Load(Pages(f.mem, 0, Blank(f.Page()), false), 0, 0)
  {
  }

  lemma ChunksTaken(p: nat, boot: nat, mem: seq<byte>, chunks: seq<seq<byte>>)
    requires (p == 128 || p == 256) && Aligned(p, |mem|) && |Flatten(chunks)| <= 0x10000
    requires |Flatten(chunks)| <= boot <= |mem|
    requires forall d :: d in chunks ==> 0 < |d| < 256 && |d| % 2 == 0
    ensures var l := Load(Pages(mem, 0, Blank(p), false), 0, 0);
            && Valid(p, l.pages)
            && TakeRecords(p, boot, l, DataRecords(0, chunks)) ==
               Load(PagesOf(p, mem, Flatten(chunks)), Stale(0, Flatten(chunks)), 0)
  {
    hide Base, Aligned, PagesOf, Image, Ascending, Flatten, DataRecords, TakeRecords, Leftover, Even, End, Below;
    NoImage(p, mem);
    ContiguousImage(p, 0, [], 0, chunks);
    ContiguousBelow(0, chunks, boot, |mem|);
    ContiguousLeftover(0, 0, chunks);
    RecordsExtend(p, boot, mem, 0, [], DataRecords(0, chunks));
    assert [] + Flatten(chunks) == Flatten(chunks);
  }

  lemma ClosedStays(p: nat, m: Pages, a: nat)
    requires Valid(p, m)
    ensures Crossed(p, Abandoned(p, m), a) == Abandoned(p, m)
  {
    hide Valid, Base;
  }

  lemma OpenStays(p: nat, m: Pages, n: nat)
    requires Valid(p, m) && m.start == Base(p, n)
    ensures Crossed(p, m, n) == m
  {
    hide Valid, Base;
  }

  /** So it is in flash, padded with 0xFF, if and only if it fills its last page or has only 0xFF there. */
  lemma AboveFileIff(boot: nat, f: Flash, chunks: seq<seq<byte>>, qs: seq<Record>, a: nat, stream: string)
    requires BufferBlank(f) && Aligned(f.Page(), boot) && boot <= |f.mem| < U32 - 2
    requires AboveFile(boot, chunks, qs, a, stream) && |Flatten(chunks)| <= boot
    ensures var p, img := f.Page(), Flatten(chunks);
            && RoundUp(p, |img|) <= |f.mem|
            && (FeedAll(boot, Reset(f), stream).flash.mem == Loaded(p, f.mem, 0, img) <==>
                Aligned(p, |img|) || forall i :: Base(p, |img|) <= i < |img| ==> img[i] == 255)
  {
    hide FeedAll, AboveFile, Outcome, Base, Aligned, RoundUp, Loaded;
    AboveFileLoads(boot, f, chunks, qs, a, stream);
    OutcomeIsLoaded(f, Flatten(chunks), |Flatten(chunks)|);
  }

  // ---- Before more data -------------------------------------------------------

  /** The same page open or closed over the same flash. */
  predicate Alike(p: nat, m: Pages, n: Pages) {
    && Valid(p, m) && Valid(p, n) && FlashOf(p, m) == FlashOf(p, n)
    && m.start == n.start && m.open == n.open
  }

  lemma CrossedAlike(p: nat, m: Pages, n: Pages, y: nat)
    requires Alike(p, m, n)
    ensures Alike(p, Crossed(p, m, y), Crossed(p, n, y))
  {
    hide Base, Aligned;
    if m.open && m.start + p <= |m.mem| {
      var a, b := Put(m.mem, m.start, Blank(p)), Put(n.mem, m.start, Blank(p));
      var c, d := Put(m.mem, m.start, m.waiting), Put(n.mem, m.start, m.waiting);
      assert forall i :: 0 <= i < |m.mem| ==> a[i] == b[i];
      assert forall i :: 0 <= i < |m.mem| ==> c[i] == d[i];
    }
  }

  lemma StepAlike(p: nat, m: Pages, n: Pages, x: nat, lo: byte, hi: byte)
    requires Alike(p, m, n)
    ensures Alike(p, Step(p, m, x, lo, hi), Step(p, n, x, lo, hi))
  {
    hide Base, Aligned, Overlay, Crossed;
    var page := Overlay(m.waiting, x, lo, hi);
    OpenedAlike(p, m, n, page);
    CrossedAlike(p, m.(waiting := page, open := true), n.(waiting := page, open := true), x + 2);
  }

  lemma OpenedAlike(p: nat, m: Pages, n: Pages, page: seq<byte>)
    requires Alike(p, m, n) && |page| == p
    ensures m.waiting == n.waiting
    ensures Alike(p, m.(waiting := page, open := true), n.(waiting := page, open := true))
  {
    hide Base, Aligned;
  }

  /** A word after the records above opens the page again, with the bytes that were waiting for it. */
  lemma StepReopens(p: nat, m: Pages, x: nat, lo: byte, hi: byte)
    requires Valid(p, m)
    ensures Alike(p, Step(p, Abandoned(p, m), x, lo, hi), Step(p, m, x, lo, hi))
  {
    hide Base, Aligned, Overlay, Crossed;
    var page := Overlay(m.waiting, x, lo, hi);
    ReopenedAlike(p, m, page);
    CrossedAlike(p, Abandoned(p, m).(waiting := page, open := true), m.(waiting := page, open := true), x + 2);
  }

  lemma ReopenedAlike(p: nat, m: Pages, page: seq<byte>)
    requires Valid(p, m) && |page| == p
    ensures Alike(p, Abandoned(p, m).(waiting := page, open := true), m.(waiting := page, open := true))
  {
    hide Base, Aligned;
  }

  lemma {:induction false} WordsAlike(p: nat, m: Pages, n: Pages, x: nat, w: seq<byte>)
    requires Alike(p, m, n) && |w| % 2 == 0
    ensures Alike(p, Words(p, m, x, w), Words(p, n, x, w))
    decreases |w|
  {
    hide Alike, Valid, Step;
    AlikeValid(p, m, n);
    if w != [] {
      StepAlike(p, m, n, x, w[0], w[1]);
      WordsAlike(p, Step(p, m, x, w[0], w[1]), Step(p, n, x, w[0], w[1]), x + 2, w[2..]);
    }
  }

  lemma AlikeValid(p: nat, m: Pages, n: Pages)
    requires Alike(p, m, n)
    ensures Valid(p, m) && Valid(p, n)
  {
  }

  lemma AbandonedAlike(p: nat, m: Pages, n: Pages)
    requires Alike(p, m, n)
    ensures Alike(p, Abandoned(p, m), Abandoned(p, n))
  {
    hide Base, Aligned;
  }

  lemma RecordAlike(p: nat, boot: nat, l: Load, k: Load, r: Record)
    requires Alike(p, l.pages, k.pages) && l.stale == k.stale && l.base == k.base
    ensures var l', k' := TakeRecord(p, boot, l, r), TakeRecord(p, boot, k, r);
            Alike(p, l'.pages, k'.pages) && l'.stale == k'.stale && l'.base == k'.base
    ensures Ends(boot, l, r) == Ends(boot, k, r)
  {
    hide Alike, Valid, Words, Crossed, Abandoned, BaseAfter, Limit;
    AlikeValid(p, l.pages, k.pages);
    var x, w := At(l, r), Padded(l.stale, r.data);
    var n := Limit(boot, x, |w|);
    CrossedAlike(p, l.pages, k.pages, x);
    AbandonedAlike(p, l.pages, k.pages);
    WordsAlike(p, l.pages, k.pages, x, w[..n]);
    AbandonedAlike(p, Words(p, l.pages, x, w[..n]), Words(p, k.pages, x, w[..n]));
  }

  lemma {:induction false} RecordsAlike(p: nat, boot: nat, l: Load, k: Load, rs: seq<Record>)
    requires Alike(p, l.pages, k.pages) && l.stale == k.stale && l.base == k.base
    ensures Valid(p, l.pages) && Valid(p, k.pages)
    ensures Alike(p, TakeRecords(p, boot, l, rs).pages, TakeRecords(p, boot, k, rs).pages)
    ensures Ended(p, boot, l, rs) == Ended(p, boot, k, rs)
    decreases rs
  {
    hide Alike, Valid, TakeRecord, Ends;
    AlikeValid(p, l.pages, k.pages);
    if rs != [] {
      RecordAlike(p, boot, l, k, rs[0]);
      RecordsAlike(p, boot, TakeRecord(p, boot, l, rs[0]), TakeRecord(p, boot, k, rs[0]), rs[1..]);
    }
  }

  /** A data record that begins below BOOT_START_ADDR makes up for the records above. */
  lemma DataReopens(p: nat, boot: nat, l: Load, r: Record)
    requires Valid(p, l.pages) && r.kind == DATA && r.data != [] && At(l, r) < boot
    ensures var m := l.(pages := Abandoned(p, l.pages));
            var l', m' := TakeRecord(p, boot, l, r), TakeRecord(p, boot, m, r);
            Alike(p, m'.pages, l'.pages) && m'.stale == l'.stale && m'.base == l'.base
    ensures !Ends(boot, l, r)
  {
    hide Alike, Valid, Words, Abandoned, Limit;
    var x, w := At(l, r), Padded(l.stale, r.data);
    var n := Limit(boot, x, |w|);
    SomeStored(boot, x, |w|);
    WordsReopen(p, l.pages, x, w[..n]);
    AbandonedAlike(p, Words(p, Abandoned(p, l.pages), x, w[..n]), Words(p, l.pages, x, w[..n]));
  }

  lemma SomeStored(boot: nat, x: nat, n: nat)
    requires n % 2 == 0 && n > 0 && x < boot
    ensures Limit(boot, x, n) >= 2
  {
    EvenAtLeast(n);
  }

  lemma WordsReopen(p: nat, m: Pages, x: nat, w: seq<byte>)
    requires Valid(p, m) && |w| % 2 == 0 && w != []
    ensures Alike(p, Words(p, Abandoned(p, m), x, w), Words(p, m, x, w))
  {
    hide Alike, Valid, Abandoned, Step;
    StepReopens(p, m, x, w[0], w[1]);
    WordsAlike(p, Step(p, Abandoned(p, m), x, w[0], w[1]), Step(p, m, x, w[0], w[1]), x + 2, w[2..]);
  }

  /**
   Records above that are followed by data below BOOT_START_ADDR might as well not be there,
   whatever else is in the file before and after: same flash, same end.
   */
  lemma AboveIgnored(boot: nat, f: Flash, before: seq<Record>, qs: seq<Record>, r: Record, rest: seq<Record>,
                     stream: string, without: string)
    requires var l := TakeRecords(f.Page(), boot, Fresh(f), before);
             && (forall q :: q in qs ==> Above(boot, l, q))
             && r.kind == DATA && r.data != [] && At(l, r) < boot
    requires boot <= U32 - 2
    requires Strip(stream) == Flatten(Texts(before + (qs + ([r] + rest))))
    requires Strip(without) == Flatten(Texts(before + ([r] + rest)))
    ensures var s, t := FeedAll(boot, Reset(f), stream), FeedAll(boot, Reset(f), without);
            s.flash == t.flash && s.run == t.run
  {
    hide FeedAll, Texts, Strip, TakeRecords, TakeRecord, Ended, FlashOf, Valid, Above, Ends, At;
    var p := f.Page();
    var l := TakeRecords(p, boot, Fresh(f), before);
    FileTaken(boot, f, before + (qs + ([r] + rest)), stream);
    FileTaken(boot, f, before + ([r] + rest), without);
    TakeRecordsAppend(p, boot, Fresh(f), before, qs + ([r] + rest));
    TakeRecordsAppend(p, boot, Fresh(f), before, [r] + rest);
    TailAlike(p, boot, l, qs, r, rest);
  }

  lemma TailAlike(p: nat, boot: nat, l: Load, qs: seq<Record>, r: Record, rest: seq<Record>)
    requires Valid(p, l.pages) && forall q :: q in qs ==> Above(boot, l, q)
    requires r.kind == DATA && r.data != [] && At(l, r) < boot
    ensures FlashOf(p, TakeRecords(p, boot, l, qs + ([r] + rest)).pages) ==
            FlashOf(p, TakeRecords(p, boot, l, [r] + rest).pages)
    ensures Ended(p, boot, l, qs + ([r] + rest)) == Ended(p, boot, l, [r] + rest)
  {
    hide TakeRecords, TakeRecord, Ended, FlashOf, Valid, Above, Abandoned;
    var m := l.(pages := Abandoned(p, l.pages));
    if qs == [] {
      assert qs + ([r] + rest) == [r] + rest;
    } else {
      AllAboveTaken(p, boot, l, qs);
      TakeRecordsAppend(p, boot, l, qs, [r] + rest);
      TakeRecordsAppend(p, boot, m, [r], rest);
      TakeRecordsAppend(p, boot, l, [r], rest);
      OneRecord(p, boot, m, r);
      OneRecord(p, boot, l, r);
      DataReopens(p, boot, l, r);
      RecordsAlike(p, boot, TakeRecord(p, boot, m, r), TakeRecord(p, boot, l, r), rest);
    }
  }
}
