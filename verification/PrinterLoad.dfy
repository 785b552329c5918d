/**
 What the Printer bootloader leaves in flash after a whole Intel HEX file whose records
 ascend, each from the page in which the one before ended.
 */
module PrinterLoad {
  import opened Avr
  import opened Basics
  import opened Bits
  import opened IntelHex
  import opened Printer
  import opened PrinterPages

  // ---- The pages of an image --------------------------------------------------

  /** The bytes of the page at `b`, in which the image ends, 0xFF behind it. */
  function LastPage(p: nat, img: seq<byte>, b: nat): (page: seq<byte>)
    requires b <= |img| <= b + p
    ensures |page| == p
  {
    img[b..] + Blank(p - (|img| - b))
  }

  /** Memory below `b` replaced by the image. */
  function Overwritten(mem: seq<byte>, img: seq<byte>, b: nat): (m: seq<byte>)
    requires b <= |img| && b <= |mem|
    ensures |m| == |mem|
  {
    img[..b] + mem[b..]
  }

  /** The image accepted from address 0 on: whole pages written, the rest waiting. */
  function PagesOf(p: nat, mem: seq<byte>, img: seq<byte>): (m: Pages)
    requires (p == 128 || p == 256) && Aligned(p, |mem|) && |img| <= |mem|
    ensures Valid(p, m) && |m.mem| == |mem| && m.start == Base(p, |img|)
  {
    var b := Base(p, |img|);
    BaseAligned(p, |img|);
    Pages(Overwritten(mem, img, b), b, LastPage(p, img, b), b != |img|)
  }

  lemma NoImage(p: nat, mem: seq<byte>)
    requires (p == 128 || p == 256) && Aligned(p, |mem|)
    ensures PagesOf(p, mem, []) == Pages(mem, 0, Blank(p), false)
  {
    assert LastPage(p, [], 0) == Blank(p);
    assert Overwritten(mem, [], 0) == mem;
  }

  /** The even address at or below `x`, where a word for `x` goes. */
  function Even(x: nat): (y: nat)
    ensures y % 2 == 0 && y <= x <= y + 1
  {
    x - x % 2
  }

  lemma SamePage(p: nat, x: nat)
    requires p == 128 || p == 256
    ensures Base(p, Even(x)) == Base(p, x) && Even(x) + 2 <= Base(p, x) + p
    ensures Even(x + 2) == Even(x) + 2
  {
    hide Base;
    EvenPages(p, x);
    BaseAligned(p, x);
    EvenBelow(Base(p, x), x);
    BaseOfPage(p, Base(p, x), Even(x));
    EvenSum(Base(p, x), p);
    RoomForWord(Even(x), Base(p, x) + p);
  }

  lemma EvenBelow(b: nat, x: nat)
    requires b % 2 == 0 && b <= x
    ensures b <= Even(x)
  {
  }

  /** The place of a word in a page. */
  lemma OverlayPlace(page: seq<byte>, x: nat, lo: byte, hi: byte)
    requires |page| == 128 || |page| == 256
    ensures var e := Even(x) - Base(|page|, x);
            0 <= e && e + 1 < |page| && Overlay(page, x, lo, hi) == page[e := lo][e + 1 := hi]
  {
    hide Base, Even;
    SamePage(|page|, x);
    EvenPages(|page|, x);
    EvenRest(Base(|page|, x), x);
  }

  lemma EvenRest(b: nat, x: nat)
    requires b % 2 == 0 && b <= x
    ensures (x - b) - (x - b) % 2 == Even(x) - b
  {
  }

  /** The image extended by a word at an even address, 0xFF in between. */
  function Extended(img: seq<byte>, y: nat, d: seq<byte>): (r: seq<byte>)
    requires |img| <= y
    ensures |r| == y + |d|
  {
    img + Blank(y - |img|) + d
  }

  /** The open page once a word at `y` in it has been put down. */
  lemma PageExtended(p: nat, img: seq<byte>, b: nat, y: nat, lo: byte, hi: byte)
    requires b <= |img| <= y && y + 2 <= b + p
    ensures LastPage(p, img, b)[y - b := lo][y - b + 1 := hi] == LastPage(p, Extended(img, y, [lo, hi]), b)
  {
    var page, more := LastPage(p, img, b), LastPage(p, Extended(img, y, [lo, hi]), b);
    assert forall i :: 0 <= i < p ==> page[y - b := lo][y - b + 1 := hi][i] == more[i];
  }

  lemma PrefixKept(mem: seq<byte>, img: seq<byte>, b: nat, y: nat, d: seq<byte>)
    requires b <= |img| <= y && b <= |mem|
    ensures Overwritten(mem, Extended(img, y, d), b) == Overwritten(mem, img, b)
  {
  }

  /** The last page of an image, written. */
  lemma PageCompleted(p: nat, mem: seq<byte>, img: seq<byte>, b: nat)
    requires b <= |img| == b + p <= |mem|
    ensures Replaced(Overwritten(mem, img, b), b, LastPage(p, img, b)) == Overwritten(mem, img, |img|)
  {
    hide Base;
    var page := LastPage(p, img, b);
    assert page == img[b..];
    var m, n := Put(Overwritten(mem, img, b), b, page), Overwritten(mem, img, |img|);
    assert forall i :: 0 <= i < |mem| ==> m[i] == n[i];
  }

  lemma PageReached(p: nat, b: nat, n: nat)
    requires (p == 128 || p == 256) && Aligned(p, b) && b < n <= b + p
    ensures n == b + p ==> Base(p, n) == n
    ensures n < b + p ==> Base(p, n) == b
  {
    if n == b + p {
      AlignedSum(p, b, p);
    } else {
      BaseOfPage(p, b, n);
    }
  }

  /** The open page of an image, once the address has come to the end of the image. */
  lemma CrossedExtended(p: nat, mem: seq<byte>, img: seq<byte>, b: nat, z: nat)
    requires (p == 128 || p == 256) && Aligned(p, |mem|) && Aligned(p, b)
    requires b < |img| <= b + p <= |mem| && Base(p, z) == Base(p, |img|)
    ensures Crossed(p, Pages(Overwritten(mem, img, b), b, LastPage(p, img, b), true), z) == PagesOf(p, mem, img)
  {
    hide Base, LastPage, Overwritten, Replaced;
    PageReached(p, b, |img|);
    NothingWaiting(p, img);
    if |img| == b + p {
      PageCompleted(p, mem, img, b);
    }
  }

  lemma NothingWaiting(p: nat, img: seq<byte>)
    ensures LastPage(p, img, |img|) == Blank(p)
  {
  }

  lemma OpenExtended(p: nat, img: seq<byte>, b: nat, x: nat, lo: byte, hi: byte)
    requires (p == 128 || p == 256) && Aligned(p, b) && b <= |img| <= Even(x) < b + p
    ensures Base(p, x) == b && Even(x) + 2 <= b + p
    ensures Overlay(LastPage(p, img, b), x, lo, hi) == LastPage(p, Extended(img, Even(x), [lo, hi]), b)
  {
    hide Base, LastPage, Overlay, Extended, Even;
    InPage(p, b, x);
    OverlayPlace(LastPage(p, img, b), x, lo, hi);
    PageExtended(p, img, b, Even(x), lo, hi);
  }

  /** A word in the page in which the image ends, at or behind that end, extends the image. */
  lemma StepExtends(p: nat, mem: seq<byte>, img: seq<byte>, x: nat, lo: byte, hi: byte)
    requires (p == 128 || p == 256) && Aligned(p, |mem|)
    requires |img| <= Even(x) < Base(p, |img|) + p && Even(x) < |mem|
    ensures Even(x) + 2 <= |mem|
    ensures Step(p, PagesOf(p, mem, img), x, lo, hi) == PagesOf(p, mem, Extended(img, Even(x), [lo, hi]))
  {
    hide Base, Aligned, LastPage, Overwritten, Overlay, Extended, Even, Crossed;
    var b, y := Base(p, |img|), Even(x);
    BaseAligned(p, |img|);
    WordFits(p, |mem|, y);
    AlignedGap(p, b, |mem|);
    OpenExtended(p, img, b, x, lo, hi);
    PrefixKept(mem, img, b, y, [lo, hi]);
    SamePage(p, x + 2);
    EvenNext(x);
    CrossedExtended(p, mem, Extended(img, y, [lo, hi]), b, x + 2);
  }

  lemma InPage(p: nat, b: nat, x: nat)
    requires (p == 128 || p == 256) && Aligned(p, b) && b <= Even(x) < b + p
    ensures Base(p, x) == b && Even(x) + 2 <= b + p
  {
    hide Base;
    BaseOfPage(p, b, Even(x));
    SamePage(p, x);
  }

  lemma WordFits(p: nat, n: nat, y: nat)
    requires (p == 128 || p == 256) && Aligned(p, n) && y % 2 == 0 && y < n
    ensures y + 2 <= n
  {
    EvenPages(p, n);
    RoomForWord(y, n);
  }

  /** Words one after the other, the first of them in that page. */
  lemma {:induction false} WordsExtend(p: nat, mem: seq<byte>, img: seq<byte>, x: nat, d: seq<byte>)
    requires (p == 128 || p == 256) && Aligned(p, |mem|) && |d| % 2 == 0 && d != []
    requires |img| <= Even(x) < Base(p, |img|) + p && Even(x) + |d| <= |mem|
    ensures Words(p, PagesOf(p, mem, img), x, d) == PagesOf(p, mem, Extended(img, Even(x), d))
    decreases |d|
  {
    hide Base, Aligned, PagesOf, Step, Valid, Even;
    var lo, hi, rest := d[0], d[1], d[2..];
    var y := Even(x);
    var img' := Extended(img, y, [lo, hi]);
    StepExtends(p, mem, img, x, lo, hi);
    EvenNext(x);
    if rest == [] {
      assert d == [lo, hi];
    } else {
      WordsExtend(p, mem, img', x + 2, rest);
      assert Extended(img', y + 2, rest) == Extended(img, y, d) by {
        assert d == [lo, hi] + rest;
      }
    }
  }

  lemma EvenNext(x: nat)
    ensures Even(x + 2) == Even(x) + 2
  {
  }

  // ---- Ascending records ------------------------------------------------------

  /** A record with data that begins in the page in which an image of `n` bytes ends, at or behind its end. */
  predicate Reaches(p: nat, n: nat, r: Record)
    requires p > 0
  {
    r.data != [] && n <= Even(r.addr) < Base(p, n) + p
  }

  /** The end of a record in flash. */
  function End(r: Record): nat {
    Even(r.addr) + |r.data| + |r.data| % 2
  }

  predicate Ascending(p: nat, n: nat, rs: seq<Record>)
    requires p > 0
    decreases rs
  {
    rs != [] ==> Reaches(p, n, rs[0]) && Ascending(p, End(rs[0]), rs[1..])
  }

  /** The image such records build up: 0xFF in the gaps, a stale byte in front of odd data. */
  function Image(p: nat, stale: byte, img: seq<byte>, rs: seq<Record>): seq<byte>
    requires p > 0 && Ascending(p, |img|, rs)
    decreases rs
  {
    if rs == [] then img
    else
      var w := Padded(stale, rs[0].data);
      Image(p, Stale(stale, w), Extended(img, Even(rs[0].addr), w), rs[1..])
  }

  /** PrevData after the records. */
  function Leftover(stale: byte, rs: seq<Record>): byte
    decreases rs
  {
    if rs == [] then stale else Leftover(Stale(stale, Padded(stale, rs[0].data)), rs[1..])
  }

  /** Records after records. */
  lemma {:induction false} ImageAppend(p: nat, stale: byte, img: seq<byte>, rs: seq<Record>, more: seq<Record>)
    requires p > 0 && Ascending(p, |img|, rs) && Ascending(p, |Image(p, stale, img, rs)|, more)
    ensures Ascending(p, |img|, rs + more)
    ensures Image(p, stale, img, rs + more) == Image(p, Leftover(stale, rs), Image(p, stale, img, rs), more)
    decreases rs
  {
    hide Base, Even;
    if rs == [] {
      assert rs + more == more;
    } else {
      var w := Padded(stale, rs[0].data);
      assert (rs + more)[1..] == rs[1..] + more && (rs + more)[0] == rs[0];
      ImageAppend(p, Stale(stale, w), Extended(img, Even(rs[0].addr), w), rs[1..], more);
    }
  }

  lemma {:induction false} ImageBound(p: nat, stale: byte, img: seq<byte>, rs: seq<Record>, bound: nat)
    requires p > 0 && Ascending(p, |img|, rs) && |img| <= bound && forall r :: r in rs ==> End(r) <= bound
    ensures |Image(p, stale, img, rs)| <= bound
    decreases rs
  {
    hide Base, Even;
    if rs != [] {
      var w := Padded(stale, rs[0].data);
      ImageBound(p, Stale(stale, w), Extended(img, Even(rs[0].addr), w), rs[1..], bound);
    }
  }

  lemma {:induction false} RecordsExtend(p: nat, boot: nat, mem: seq<byte>, stale: byte, img: seq<byte>,
                                         rs: seq<Record>)
    requires (p == 128 || p == 256) && Aligned(p, |mem|) && |img| <= |mem|
    requires Ascending(p, |img|, rs) && forall r :: r in rs ==> End(r) <= |mem| && Below(boot, r)
    ensures |Image(p, stale, img, rs)| <= |mem|
    ensures TakeRecords(p, boot, Load(PagesOf(p, mem, img), stale, 0), rs) ==
            Load(PagesOf(p, mem, Image(p, stale, img, rs)), Leftover(stale, rs), 0)
    decreases rs
  {
    hide Base, Aligned, PagesOf, Words, Valid, Even, Extended, TakeRecord, Below;
    if rs != [] {
      var r := rs[0];
      var w := Padded(stale, r.data);
      WordsExtend(p, mem, img, r.addr, w);
      BelowTaken(p, boot, Load(PagesOf(p, mem, img), stale, 0), r);
      RecordsExtend(p, boot, mem, Stale(stale, w), Extended(img, Even(r.addr), w), rs[1..]);
    }
  }

  // ---- Whole files ------------------------------------------------------------

  /** Flash when the end record, with address field `a`, has been acted on. */
  function Outcome(f: Flash, img: seq<byte>, a: nat): (g: Flash)
    requires RoundUp(f.Page(), |img|) <= |f.mem|
    ensures |g.mem| == |f.mem|
  {
    var p := f.Page();
    var b := Base(p, |img|);
    if b == |img| || Base(p, a) != b then Committed(f, 0, img)
    else f.(mem := Put(Loaded(p, f.mem, 0, img[..b]), b, Blank(p)), buf := img[b..] + Blank(p - |img[b..]|))
  }

  lemma OverwrittenLoaded(p: nat, mem: seq<byte>, img: seq<byte>, b: nat)
    requires p > 0 && b <= |img| && b <= |mem| && Aligned(p, b)
    ensures Overwritten(mem, img, b) == Loaded(p, mem, 0, img[..b])
  {
    hide Base;
    LoadedAligned(p, mem, 0, img[..b]);
  }

  lemma PageAppended(p: nat, mem: seq<byte>, img: seq<byte>, b: nat)
    requires (p == 128 || p == 256) && Aligned(p, b) && b < |img| < b + p && b + p <= |mem|
    ensures Replaced(Overwritten(mem, img, b), b, LastPage(p, img, b)) == Loaded(p, mem, 0, img)
  {
    hide Base, Aligned, Put, Blank, Loaded, RoundUp, Overwritten;
    OverwrittenLoaded(p, mem, img, b);
    LoadedPage(p, Loaded(p, mem, 0, img[..b]), b, img[b..]);
    LoadedAppend(p, mem, 0, img[..b], img[b..]);
    assert img[..b] + img[b..] == img;
  }

  /** What the end record leaves of an image. */
  lemma EndOutcome(f: Flash, img: seq<byte>, a: nat)
    requires |img| <= |f.mem|
    ensures RoundUp(f.Page(), |img|) <= |f.mem|
    ensures FlashOf(f.Page(), Crossed(f.Page(), PagesOf(f.Page(), f.mem, img), a)) == Outcome(f, img, a)
  {
    var p := f.Page();
    var b := Base(p, |img|);
    RoundUpBelow(p, |img|, |f.mem|);
    BaseAligned(p, |img|);
    OverwrittenLoaded(p, f.mem, img, b);
    if b == |img| {
      assert img[..b] == img;
    } else {
      AlignedGap(p, b, |f.mem|);
      PageAppended(p, f.mem, img, b);
    }
  }

  /** A file of ascending records that end at or below BOOT_START_ADDR. */
  predicate AscendingFile(boot: nat, p: nat, rs: seq<Record>, a: nat, stream: string)
    requires p > 0
  {
    File(rs, a, stream) && Ascending(p, 0, rs) && forall r :: r in rs ==> Below(boot, r) && End(r) <= boot
  }

  /**
   Printing a file of ascending records ends the bootloader and leaves exactly `Outcome` of
   its image in flash. Nothing at or above BOOT_START_ADDR changes.
   */
  lemma AscendingFileLoads(boot: nat, f: Flash, rs: seq<Record>, a: nat, stream: string)
    requires BufferBlank(f) && Aligned(f.Page(), boot) && boot <= |f.mem| < U32 - 2
    requires AscendingFile(boot, f.Page(), rs, a, stream)
    ensures var img := Image(f.Page(), 0, [], rs);
            && RoundUp(f.Page(), |img|) <= boot
            && var t := FeedAll(boot, Reset(f), stream);
            && !t.run && t.flash == Outcome(f, img, a)
            && forall i :: boot <= i < |f.mem| ==> t.flash.mem[i] == f.mem[i]
  {
    hide FeedAll, File, Outcome, Base, Aligned, RoundUp, PagesOf, FlashOf, Crossed, Image, TakeRecords, Ascending,
         Valid;
    var p := f.Page();
    DataFileTaken(boot, f, rs, a, stream);
    NoImage(p, f.mem);
    RecordsExtend(p, boot, f.mem, 0, [], rs);
    ImageBound(p, 0, [], rs, boot);
    var img := Image(p, 0, [], rs);
    RoundUpBelow(p, |img|, boot);
    EndOutcome(f, img, a);
    OutcomeFrame(boot, f, img, a);
  }

  lemma OutcomeFrame(boot: nat, f: Flash, img: seq<byte>, a: nat)
    requires Aligned(f.Page(), boot) && RoundUp(f.Page(), |img|) <= boot <= |f.mem|
    ensures |Outcome(f, img, a).mem| == |f.mem|
    ensures forall i :: boot <= i < |f.mem| ==> Outcome(f, img, a).mem[i] == f.mem[i]
  {
    var p := f.Page();
    var b := Base(p, |img|);
    if b != |img| {
      BaseAligned(p, |img|);
      assert RoundUp(p, b) == b;
    }
  }

  /**
   The last page of the image was filled, or the end record's address lies in another
   page, or nothing but 0xFF is left to write.
   */
  predicate NothingLeftBehind(p: nat, img: seq<byte>, a: nat)
    requires p > 0
  {
    || Aligned(p, |img|)
    || Base(p, a) != Base(p, |img|)
    || forall i :: Base(p, |img|) <= i < |img| ==> img[i] == 255
  }

  lemma OutcomeIsLoaded(f: Flash, img: seq<byte>, a: nat)
    requires RoundUp(f.Page(), |img|) <= |f.mem|
    ensures var p := f.Page();
            Outcome(f, img, a).mem == Loaded(p, f.mem, 0, img) <==>
            NothingLeftBehind(p, img, a)
  {
    var p := f.Page();
    var b := Base(p, |img|);
    if b != |img| && Base(p, a) == b {
      BaseAligned(p, |img|);
      var final := Outcome(f, img, a).mem;
      var want := Loaded(p, f.mem, 0, img);
      assert forall i :: b <= i < |img| ==> final[i] == 255 && want[i] == img[i];
      if forall i :: b <= i < |img| ==> img[i] == 255 {
        assert forall i :: 0 <= i < |f.mem| ==> final[i] == want[i];
      }
    }
  }

  // ---- Files without gaps -----------------------------------------------------

  /** Even data from the end of the image on; it may be addressed one too high. */
  lemma {:induction false} ContiguousImage(p: nat, stale: byte, img: seq<byte>, at: nat, chunks: seq<seq<byte>>)
    requires p > 0 && Even(at) == |img| && at + |Flatten(chunks)| <= 0x10000
    requires forall d :: d in chunks ==> 0 < |d| < 256 && |d| % 2 == 0
    ensures var rs := DataRecords(at, chunks);
            Ascending(p, |img|, rs) && Image(p, stale, img, rs) == img + Flatten(chunks)
    decreases chunks
  {
    hide Image, Ascending, Flatten, DataRecords, Even;
    if chunks == [] {
      NoChunks(p, stale, img, at);
    } else {
      var d, rest := chunks[0], chunks[1..];
      assert chunks == [d] + rest;
      FlattenCons(d, rest);
      FirstRecord(at, chunks, at + |d|);
      EvenOn(at, |d|);
      ContiguousImage(p, Stale(stale, d), img + d, at + |d|, rest);
      Assoc(img, d, Flatten(rest));
      NextImage(p, stale, img, at, d, DataRecords(at + |d|, rest));
    }
  }

  lemma NoChunks(p: nat, stale: byte, img: seq<byte>, at: nat)
    requires p > 0 && at <= 0x10000
    ensures DataRecords(at, []) == [] && Flatten<byte>([]) == []
    ensures Ascending(p, |img|, []) && Image(p, stale, img, []) == img + Flatten([])
    ensures Leftover(stale, []) == stale
  {
    assert img + [] == img;
  }

  lemma EvenOn(x: nat, n: nat)
    requires n % 2 == 0
    ensures Even(x + n) == Even(x) + n
  {
  }

  lemma FirstRecord(at: nat, chunks: seq<seq<byte>>, next: nat)
    requires chunks != [] && at + |Flatten(chunks)| <= 0x10000 && next == at + |chunks[0]|
    requires forall d :: d in chunks ==> 0 < |d| < 256
    ensures next + |Flatten(chunks[1..])| <= 0x10000
    ensures DataRecords(at, chunks) == [Record(at, DATA, chunks[0])] + DataRecords(next, chunks[1..])
  {
    hide Flatten;
    FlattenCons(chunks[0], chunks[1..]);
    assert chunks == [chunks[0]] + chunks[1..];
  }

  lemma NextImage(p: nat, stale: byte, img: seq<byte>, at: nat, d: seq<byte>, rest: seq<Record>)
    requires p > 0 && Even(at) == |img| && at < 0x10000 && 0 < |d| < 256 && |d| % 2 == 0
    requires Ascending(p, |img + d|, rest)
    ensures var r: Record := Record(at, DATA, d);
            && Ascending(p, |img|, [r] + rest)
            && Image(p, stale, img, [r] + rest) == Image(p, Stale(stale, d), img + d, rest)
  {
    hide Base;
    var r: Record := Record(at, DATA, d);
    assert ([r] + rest)[1..] == rest;
    assert Extended(img, |img|, d) == img + d;
  }

  lemma {:induction false} ContiguousLeftover(at: nat, stale: byte, chunks: seq<seq<byte>>)
    requires at + |Flatten(chunks)| <= 0x10000
    requires forall d :: d in chunks ==> 0 < |d| < 256 && |d| % 2 == 0
    ensures Leftover(stale, DataRecords(at, chunks)) == Stale(stale, Flatten(chunks))
    decreases chunks
  {
    hide Flatten, DataRecords, Leftover;
    if chunks == [] {
      NoChunks(1, stale, [], at);
    } else {
      var d, rest := chunks[0], chunks[1..];
      assert chunks == [d] + rest;
      FlattenCons(d, rest);
      FirstRecord(at, chunks, at + |d|);
      ContiguousLeftover(at + |d|, Stale(stale, d), rest);
      NextLeftover(stale, Record(at, DATA, d), DataRecords(at + |d|, rest));
      EvenFlatten(rest);
      StaleAppend(stale, d, Flatten(rest));
    }
  }

  lemma NextLeftover(stale: byte, r: Record, rest: seq<Record>)
    requires |r.data| % 2 == 0
    ensures Leftover(stale, [r] + rest) == Leftover(Stale(stale, r.data), rest)
  {
    assert ([r] + rest)[1..] == rest;
  }

  lemma StaleAppend(stale: byte, c: seq<byte>, more: seq<byte>)
    requires |c| % 2 == 0 && |more| % 2 == 0
    ensures Stale(stale, c + more) == Stale(Stale(stale, c), more)
  {
  }

  lemma {:induction false} ContiguousRecords(at: nat, chunks: seq<seq<byte>>)
    requires at + |Flatten(chunks)| <= 0x10000
    requires forall d :: d in chunks ==> 0 < |d| < 256 && |d| % 2 == 0
    ensures forall r :: r in DataRecords(at, chunks) ==>
              r.kind == DATA && End(r) <= r.addr + |r.data| <= at + |Flatten(chunks)|
    decreases chunks
  {
    hide Flatten, DataRecords, End;
    if chunks == [] {
      NoChunks(1, 0, [], at);
    } else {
      var d, rest := chunks[0], chunks[1..];
      assert chunks == [d] + rest;
      FlattenCons(d, rest);
      FirstRecord(at, chunks, at + |d|);
      ContiguousRecords(at + |d|, rest);
      EvenEnd(Record(at, DATA, d));
    }
  }

  lemma ContiguousBelow(at: nat, chunks: seq<seq<byte>>, boot: nat, bound: nat)
    requires at + |Flatten(chunks)| <= 0x10000 && at + |Flatten(chunks)| <= boot <= bound
    requires forall d :: d in chunks ==> 0 < |d| < 256 && |d| % 2 == 0
    ensures forall r :: r in DataRecords(at, chunks) ==> End(r) <= bound && Below(boot, r)
  {
    hide Flatten, DataRecords, End;
    ContiguousRecords(at, chunks);
  }

  lemma EvenEnd(r: Record)
    requires |r.data| % 2 == 0
    ensures End(r) == Even(r.addr) + |r.data| <= r.addr + |r.data|
  {
  }

  /** A file that holds `chunks` one after the other from address 0, then its end record. */
  predicate ContiguousFile(chunks: seq<seq<byte>>, a: nat, stream: string) {
    && |Flatten(chunks)| <= 0x10000 && a < 0x10000
    && (forall d :: d in chunks ==> 0 < |d| < 256 && |d| % 2 == 0)
    && Strip(stream) == Flatten(Texts(DataRecords(0, chunks) + [Record(a, END_OF_FILE, [])]))
  }

  lemma ContiguousAscends(boot: nat, p: nat, chunks: seq<seq<byte>>, a: nat, stream: string)
    requires p > 0 && ContiguousFile(chunks, a, stream) && |Flatten(chunks)| <= boot
    ensures AscendingFile(boot, p, DataRecords(0, chunks), a, stream)
    ensures Image(p, 0, [], DataRecords(0, chunks)) == Flatten(chunks)
  {
    hide Texts, Strip;
    ContiguousImage(p, 0, [], 0, chunks);
    ContiguousRecords(0, chunks);
    assert [] + Flatten(chunks) == Flatten(chunks);
  }

  /**
   Printing a whole file ends the bootloader and leaves exactly `Outcome` in flash:
   the image, padded with 0xFF to a page boundary, or that image without its last
   part-filled page when the end record's address falls in that page. Nothing at or
   above BOOT_START_ADDR changes.
   */
  lemma PrinterLoadsFile(boot: nat, f: Flash, chunks: seq<seq<byte>>, a: nat, stream: string)
    requires BufferBlank(f) && Aligned(f.Page(), boot) && boot <= |f.mem| < U32 - 2
    requires ContiguousFile(chunks, a, stream) && |Flatten(chunks)| <= boot
    ensures RoundUp(f.Page(), |Flatten(chunks)|) <= boot
    ensures var t := FeedAll(boot, Reset(f), stream);
            && !t.run && t.flash == Outcome(f, Flatten(chunks), a)
            && forall i :: boot <= i < |f.mem| ==> t.flash.mem[i] == f.mem[i]
  {
    hide FeedAll, AscendingFile, Strip, Texts, Image, Outcome, Base, Aligned, RoundUp;
    ContiguousAscends(boot, f.Page(), chunks, a, stream);
    AscendingFileLoads(boot, f, DataRecords(0, chunks), a, stream);
  }

  /**
   The file is in flash, padded with 0xFF, if and only if its last page was filled,
   or the end record's address lies in another page, or nothing but 0xFF was left
   to write. With the usual end record address 0 this says: at least one page of
   image, or an image of 0xFF only.
   */
  lemma PrinterLoadsIff(boot: nat, f: Flash, chunks: seq<seq<byte>>, a: nat, stream: string)
    requires BufferBlank(f) && Aligned(f.Page(), boot) && boot <= |f.mem| < U32 - 2
    requires ContiguousFile(chunks, a, stream) && |Flatten(chunks)| <= boot
    ensures RoundUp(f.Page(), |Flatten(chunks)|) <= |f.mem|
    ensures var p, img := f.Page(), Flatten(chunks);
            FeedAll(boot, Reset(f), stream).flash.mem == Loaded(p, f.mem, 0, img) <==>
            NothingLeftBehind(p, img, a)
  {
    PrinterLoadsFile(boot, f, chunks, a, stream);
    OutcomeIsLoaded(f, Flatten(chunks), a);
  }

  // ---- Gaps within the open page ----------------------------------------------

  /** Records of even length at even addresses. */
  predicate EvenRecords(rs: seq<Record>) {
    forall r :: r in rs ==> r.addr % 2 == 0 && |r.data| % 2 == 0
  }

  predicate Covers(r: Record, i: nat) {
    r.addr <= i < r.addr + |r.data|
  }

  /** What the file says of address `i`: the byte of the last record that covers it. */
  function ByteAt(rs: seq<Record>, i: nat): Option<byte> {
    if rs == [] then None
    else
      var k := |rs| - 1;
      if Covers(rs[k], i) then Some(rs[k].data[i - rs[k].addr]) else ByteAt(rs[..k], i)
  }

  lemma {:induction false} ByteAtCons(r: Record, rs: seq<Record>, i: nat)
    ensures ByteAt([r] + rs, i) ==
            if ByteAt(rs, i).Some? then ByteAt(rs, i) else if Covers(r, i) then Some(r.data[i - r.addr]) else None
  {
    hide Covers;
    if rs == [] {
      assert ([r] + rs)[..0] == [];
    } else {
      var k := |rs| - 1;
      assert ([r] + rs)[..k + 1] == [r] + rs[..k];
      ByteAtCons(r, rs[..k], i);
    }
  }

  lemma {:induction false} NothingBelow(p: nat, n: nat, rs: seq<Record>, i: nat)
    requires p > 0 && Ascending(p, n, rs) && EvenRecords(rs) && i < n
    ensures ByteAt(rs, i).None?
    decreases rs
  {
    hide Base;
    if rs != [] {
      NothingBelow(p, End(rs[0]), rs[1..], i);
      assert rs == [rs[0]] + rs[1..];
      ByteAtCons(rs[0], rs[1..], i);
    }
  }

  /** What the image holds at `i`: the bytes accepted so far, then what the file says, 0xFF where it is silent. */
  predicate Tells(img: seq<byte>, rs: seq<Record>, all: seq<byte>, i: nat) {
    && |img| <= |all| && (ByteAt(rs, i).Some? ==> i < |all|)
    && (i < |all| ==>
        all[i] == if i < |img| then img[i] else if ByteAt(rs, i).Some? then ByteAt(rs, i).value else 255)
  }

  /** The image of even records is what the file says, and 0xFF where it says nothing. */
  lemma {:induction false} ImageIsFile(p: nat, stale: byte, img: seq<byte>, rs: seq<Record>, i: nat)
    requires p > 0 && Ascending(p, |img|, rs) && EvenRecords(rs)
    ensures Tells(img, rs, Image(p, stale, img, rs), i)
    decreases rs
  {
    hide Base;
    if rs != [] {
      hide Tells, ByteAt;
      var r, rest := rs[0], rs[1..];
      assert r in rs && rs == [r] + rest;
      EvenEnd(r);
      var more := Extended(img, r.addr, r.data);
      ImageIsFile(p, Stale(stale, r.data), more, rest, i);
      if i < End(r) {
        NothingBelow(p, End(r), rest, i);
      }
      TellsOn(img, r, rest, Image(p, Stale(stale, r.data), more, rest), i);
    }
  }

  lemma TellsOn(img: seq<byte>, r: Record, rest: seq<Record>, all: seq<byte>, i: nat)
    requires |img| <= r.addr && Tells(Extended(img, r.addr, r.data), rest, all, i)
    requires i < r.addr + |r.data| ==> ByteAt(rest, i).None?
    ensures Tells(img, [r] + rest, all, i)
  {
    hide ByteAt;
    ByteAtCons(r, rest, i);
  }

  /**
   A file of even records, each beginning in the page in which the one before ended: flash
   holds what the file says, 0xFF in the gaps and up to the end of the last page, and what was
   there before beyond, if and only if nothing of the image is left behind.
   */
  lemma GapFileIff(boot: nat, f: Flash, rs: seq<Record>, a: nat, stream: string)
    requires BufferBlank(f) && Aligned(f.Page(), boot) && boot <= |f.mem| < U32 - 2
    requires AscendingFile(boot, f.Page(), rs, a, stream) && EvenRecords(rs)
    ensures var p, t := f.Page(), FeedAll(boot, Reset(f), stream);
            var img := Image(p, 0, [], rs);
            && |t.flash.mem| == |f.mem|
            && ((forall i :: 0 <= i < |f.mem| ==>
                   t.flash.mem[i] == match ByteAt(rs, i)
                                     case Some(b) => b
                                     case None => if i < RoundUp(p, |img|) then 255 else f.mem[i])
                <==> NothingLeftBehind(p, img, a))
  {
    hide FeedAll, File, Outcome, Base, Aligned, RoundUp, Image, Ascending, EvenRecords, NothingLeftBehind, Loaded,
         ByteAt;
    var p := f.Page();
    var img := Image(p, 0, [], rs);
    AscendingFileLoads(boot, f, rs, a, stream);
    OutcomeIsLoaded(f, img, a);
    var want := Loaded(p, f.mem, 0, img);
    forall i | 0 <= i < |f.mem|
      ensures want[i] == match ByteAt(rs, i)
                         case Some(b) => b
                         case None => if i < RoundUp(p, |img|) then 255 else f.mem[i]
    {
      ImageIsFile(p, 0, [], rs, i);
      LoadedAt(p, f.mem, img, i);
    }
  }

  lemma LoadedAt(p: nat, mem: seq<byte>, data: seq<byte>, i: nat)
    requires p > 0 && RoundUp(p, |data|) <= |mem| && i < |mem|
    ensures Loaded(p, mem, 0, data)[i] ==
            if i < |data| then data[i] else if i < RoundUp(p, |data|) then 255 else mem[i]
  {
  }

  // ---- Gaps beyond it ---------------------------------------------------------

  /** A data word changes no byte outside the page at PageStartAddress, wherever it is addressed. */
  lemma StoreWordSpares(s: Parser, w: nat, i: nat)
    requires Aligned(s.flash.Page(), s.pageStart) && i < |s.flash.mem|
    requires i < s.pageStart || s.pageStart + s.flash.Page() <= i
    ensures StoreWord(s, w).flash.mem[i] == s.flash.mem[i]
  {
    hide Base, Lo, Hi, Programmed;
    BaseOfPage(s.flash.Page(), s.pageStart, s.pageStart);
  }

  /** The address, in the page at `b`, at the offset that `x` has in its own. */
  function Place(p: nat, b: nat, x: nat): (y: nat)
    requires p == 128 || p == 256
    ensures b <= y && y + 2 <= b + p
  {
    SamePage(p, x);
    EvenPages(p, x);
    b + (Even(x) - Base(p, x))
  }

  lemma EvenPlace(p: nat, b: nat, x: nat)
    requires (p == 128 || p == 256) && b % 2 == 0
    ensures Place(p, b, x) % 2 == 0
  {
    hide Base;
    SamePage(p, x);
    EvenPages(p, x);
    EvenDifference(Base(p, x), Even(x));
    EvenSum(b, Even(x) - Base(p, x));
  }

  /** A word at `y` leaves the image as it is. */
  predicate Harmless(img: seq<byte>, y: nat, lo: byte, hi: byte) {
    |img| <= y || (y + 1 < |img| && img[y] == lo && img[y + 1] == hi)
  }

  /** Memory once the page at `b`, in which the image ends, was written with a word for `x` in it. */
  function Strayed(p: nat, mem: seq<byte>, img: seq<byte>, b: nat, x: nat, lo: byte, hi: byte): (m: seq<byte>)
    requires (p == 128 || p == 256) && b <= |img| <= b + p <= |mem|
    ensures |m| == |mem|
  {
    Put(Overwritten(mem, img, b), b, Overlay(LastPage(p, img, b), x, lo, hi))
  }

  lemma StrayStep(p: nat, mem: seq<byte>, img: seq<byte>, b: nat, x: nat, lo: byte, hi: byte)
    requires (p == 128 || p == 256) && Aligned(p, |mem|) && |img| <= |mem|
    requires b == Base(p, |img|) && b + p <= x < |mem|
    ensures Step(p, PagesOf(p, mem, img), x, lo, hi) ==
            Pages(Strayed(p, mem, img, b, x, lo, hi), Base(p, x + 2), Blank(p), false)
  {
    hide Base, Aligned, Overlay, LastPage, Overwritten, Put, Blank;
    Farther(p, b, x);
  }

  lemma Farther(p: nat, b: nat, x: nat)
    requires p > 0 && b + p <= x
    ensures Base(p, x + 2) != b
  {
  }

  /** An image has been accepted, and a word for `x` follows beyond the page at `b`, in which the image ends. */
  predicate Astray(s: Parser, mem: seq<byte>, img: seq<byte>, b: nat, x: nat) {
    var p := s.flash.Page();
    && Aligned(p, |mem|) && |img| <= |mem| < U32 && Holds(s, PagesOf(p, mem, img))
    && b == Base(p, |img|) && s.currAddr == x && b + p <= x && x + 2 <= |mem|
  }

  lemma StrayHolds(s: Parser, mem: seq<byte>, img: seq<byte>, b: nat, x: nat, lo: byte, hi: byte)
    requires Astray(s, mem, img, b, x)
    ensures var p := s.flash.Page();
            Holds(StoreWord(s, Word(lo, hi)),
                  Pages(Strayed(p, mem, img, b, x, lo, hi), Base(p, x + 2), Blank(p), false))
  {
    hide StoreWord, Base, Aligned, Holds, PagesOf, Step, Strayed, Word;
    var p := s.flash.Page();
    StoreWordHolds(s, PagesOf(p, mem, img), lo, hi);
    StrayStep(p, mem, img, b, x, lo, hi);
  }

  /** The word goes into that page, open or not, which is then written. */
  lemma GapWordLands(s: Parser, mem: seq<byte>, img: seq<byte>, b: nat, x: nat, lo: byte, hi: byte)
    requires Astray(s, mem, img, b, x)
    ensures var p, t := s.flash.Page(), StoreWord(s, Word(lo, hi));
            && t.flash.mem == Strayed(p, mem, img, b, x, lo, hi) && BufferBlank(t.flash)
            && t.pageStart == Base(p, x + 2) && !t.pageDirty
  {
    hide StoreWord, Base, Aligned, Holds, PagesOf, Strayed, BufferBlank, Word;
    var p := s.flash.Page();
    StrayHolds(s, mem, img, b, x, lo, hi);
    HoldsClosed(StoreWord(s, Word(lo, hi)), p, Strayed(p, mem, img, b, x, lo, hi), Base(p, x + 2));
  }

  lemma HoldsClosed(t: Parser, p: nat, mem: seq<byte>, start: nat)
    requires Holds(t, Pages(mem, start, Blank(p), false))
    ensures t.flash.mem == mem && BufferBlank(t.flash) && t.pageStart == start && !t.pageDirty
  {
  }

  lemma StrayedBeyond(p: nat, mem: seq<byte>, img: seq<byte>, b: nat, x: nat, lo: byte, hi: byte, i: nat)
    requires (p == 128 || p == 256) && b <= |img| <= b + p <= i < |mem|
    ensures Strayed(p, mem, img, b, x, lo, hi)[i] == mem[i]
  {
    hide Overlay, LastPage;
  }

  /** So it is in its place only if it was there before. */
  lemma GapWordIff(s: Parser, mem: seq<byte>, img: seq<byte>, b: nat, x: nat, lo: byte, hi: byte)
    requires Astray(s, mem, img, b, x)
    ensures var m := StoreWord(s, Word(lo, hi)).flash.mem;
            |m| == |mem| > x + 1 && (m[x] == lo && m[x + 1] == hi <==> mem[x] == lo && mem[x + 1] == hi)
  {
    hide StoreWord, Base, Strayed, Holds, PagesOf, Word, BufferBlank, Aligned;
    var p := s.flash.Page();
    GapWordLands(s, mem, img, b, x, lo, hi);
    StrayedBeyond(p, mem, img, b, x, lo, hi, x);
    StrayedBeyond(p, mem, img, b, x, lo, hi, x + 1);
  }

  /**
   And the bytes accepted for the page survive if and only if the word, at its offset, lies behind
   them or is what they are.
   */
  lemma GapPageSurvivesIff(s: Parser, mem: seq<byte>, img: seq<byte>, b: nat, x: nat, lo: byte, hi: byte)
    requires Astray(s, mem, img, b, x) && |img| % 2 == 0
    ensures var p, m := s.flash.Page(), StoreWord(s, Word(lo, hi)).flash.mem;
            |m| == |mem| && (m[..|img|] == img <==> Harmless(img, Place(p, b, x), lo, hi))
  {
    hide StoreWord, Base, Strayed, Holds, PagesOf, Word, BufferBlank, Aligned, Harmless, Place;
    var p := s.flash.Page();
    GapWordLands(s, mem, img, b, x, lo, hi);
    EvenPages(p, |img|);
    SurvivesIff(p, mem, img, b, x, lo, hi);
  }

  lemma SurvivesIff(p: nat, mem: seq<byte>, img: seq<byte>, b: nat, x: nat, lo: byte, hi: byte)
    requires (p == 128 || p == 256) && b % 2 == 0 && |img| % 2 == 0 && b <= |img| <= b + p <= |mem|
    ensures Strayed(p, mem, img, b, x, lo, hi)[..|img|] == img <==> Harmless(img, Place(p, b, x), lo, hi)
  {
    hide Base, Overlay, Even;
    var y, m := Place(p, b, x), Strayed(p, mem, img, b, x, lo, hi);
    EvenPlace(p, b, x);
    OverlayPlace(LastPage(p, img, b), x, lo, hi);
    if y < |img| {
      RoomForWord(y, |img|);
      assert m[..|img|][y] == lo && m[..|img|][y + 1] == hi;
    }
    if Harmless(img, y, lo, hi) {
      assert forall i :: 0 <= i < |img| ==> m[..|img|][i] == img[i];
    }
  }
}
