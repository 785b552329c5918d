/**
 Records of odd length. The parser pairs bytes by what is left of a record, so the first
 byte of an odd record is paired with the lower byte of the last word before it, and
 everything in the record lands one address too high.
 */
module PrinterOdd {
  import opened Avr
  import opened Basics
  import opened Bits
  import opened IntelHex
  import opened Printer
  import opened PrinterLoad
  import opened PrinterPages

  /** An odd record at the end of the image extends it by a stale byte and then its data. */
  lemma OddRecordLoads(boot: nat, s: Parser, p: nat, mem: seq<byte>, img: seq<byte>, stale: byte, d: seq<byte>)
    requires (p == 128 || p == 256) && Aligned(p, |mem|) && |img| <= |mem|
    requires Between(s, p, Load(PagesOf(p, mem, img), stale, 0))
    requires |img| % 2 == 0 && |d| % 2 == 1 && |d| < 256 && |img| < 0x10000
    requires |img| + |d| < boot <= |mem| < U32 - 2
    ensures Between(FeedAll(boot, s, Text(Record(|img|, DATA, d))), p,
                    Load(PagesOf(p, mem, img + ([stale] + d)), Stale(stale, [stale] + d), 0))
  {
    hide FeedAll, Text, Between, PagesOf, Aligned, Base;
    var r: Record := Record(|img|, DATA, d);
    RecordTaken(boot, s, p, Load(PagesOf(p, mem, img), stale, 0), r);
    OddTaken(p, boot, mem, img, stale, r);
  }

  lemma OddTaken(p: nat, boot: nat, mem: seq<byte>, img: seq<byte>, stale: byte, r: Record)
    requires (p == 128 || p == 256) && Aligned(p, |mem|) && |img| % 2 == 0
    requires r.kind == DATA && r.addr == |img| && |r.data| % 2 == 1 && |img| + |r.data| < |mem|
    requires |img| + |r.data| <= boot
    ensures TakeRecord(p, boot, Load(PagesOf(p, mem, img), stale, 0), r) ==
            Load(PagesOf(p, mem, img + ([stale] + r.data)), Stale(stale, [stale] + r.data), 0)
  {
    hide PagesOf, Aligned, Base, Words, TakeRecord;
    var w := [stale] + r.data;
    BelowTaken(p, boot, Load(PagesOf(p, mem, img), stale, 0), r);
    WordsExtend(p, mem, img, |img|, w);
    assert Extended(img, |img|, w) == img + w;
  }

  // ---- Files that end with an odd record --------------------------------------

  /** What the parser takes the image for: `even`, a stale byte, and the odd data. */
  function Shifted(even: seq<byte>, d: seq<byte>): seq<byte> {
    even + ([Stale(0, even)] + d)
  }

  /** Even records that hold `chunks` from address 0 on, an odd one, and the end record. */
  predicate OddFile(chunks: seq<seq<byte>>, d: seq<byte>, a: nat, stream: string) {
    && |Flatten(chunks)| + |d| <= 0x10000 && a < 0x10000 && |d| < 256 && |d| % 2 == 1
    && (forall c :: c in chunks ==> 0 < |c| < 256 && |c| % 2 == 0)
    && Strip(stream) == Flatten(Texts(DataRecords(0, chunks)
                                      + [Record(|Flatten(chunks)|, DATA, d), Record(a, END_OF_FILE, [])]))
  }

  /** An odd image below BOOT_START_ADDR leaves room for one byte more. */
  lemma RoomForOne(p: nat, n: nat, boot: nat)
    requires (p == 128 || p == 256) && Aligned(p, boot) && n % 2 == 1 && n <= boot
    ensures n < boot && RoundUp(p, n + 1) <= boot && RoundUp(p, n) == RoundUp(p, n + 1)
  {
    EvenPages(p, boot);
    RoundUpBelow(p, n + 1, boot);
    EvenPages(p, n);
    EvenPages(p, n + 1);
    BaseAligned(p, n);
    if n + 1 < Base(p, n) + p {
      BaseOfPage(p, Base(p, n), n + 1);
    } else {
      AlignedSum(p, Base(p, n), p);
    }
  }

  lemma RoomForShifted(p: nat, even: seq<byte>, d: seq<byte>, boot: nat)
    requires (p == 128 || p == 256) && Aligned(p, boot) && |even| % 2 == 0 && |d| % 2 == 1 && |even| + |d| <= boot
    ensures |even| + |d| < boot && RoundUp(p, |Shifted(even, d)|) <= boot
  {
    hide RoundUp, Aligned;
    RoomForOne(p, |even| + |d|, boot);
    assert |Shifted(even, d)| == |even| + |d| + 1;
  }

  lemma OddAscends(boot: nat, p: nat, chunks: seq<seq<byte>>, d: seq<byte>, a: nat, stream: string)
    requires (p == 128 || p == 256) && OddFile(chunks, d, a, stream) && |Flatten(chunks)| + |d| < boot
    ensures var even := Flatten(chunks);
            var rs := DataRecords(0, chunks) + [Record(|even|, DATA, d)];
            AscendingFile(boot, p, rs, a, stream) && Image(p, 0, [], rs) == Shifted(even, d)
  {
    hide Texts, Strip, Ascending, Image, Base, Flatten;
    var even := Flatten(chunks);
    var data, odd: Record, last: Record := DataRecords(0, chunks), Record(|even|, DATA, d), Record(a, END_OF_FILE, []);
    EvenFlatten(chunks);
    ContiguousRecords(0, chunks);
    assert data + [odd] + [last] == data + [odd, last];
    OddImage(p, chunks, d);
  }

  lemma OddImage(p: nat, chunks: seq<seq<byte>>, d: seq<byte>)
    requires p > 0 && |Flatten(chunks)| < 0x10000 && |d| < 256 && |d| % 2 == 1
    requires forall c :: c in chunks ==> 0 < |c| < 256 && |c| % 2 == 0
    ensures var even := Flatten(chunks);
            var rs := DataRecords(0, chunks) + [Record(|even|, DATA, d)];
            Ascending(p, 0, rs) && Image(p, 0, [], rs) == Shifted(even, d)
  {
    hide Base, Image, Ascending, Flatten, DataRecords, Leftover;
    var even := Flatten(chunks);
    ContiguousImage(p, 0, [], 0, chunks);
    ContiguousLeftover(0, 0, chunks);
    EvenFlatten(chunks);
    assert [] + even == even;
    OddAlone(p, Stale(0, even), even, d);
    ImageAppend(p, 0, [], DataRecords(0, chunks), [Record(|even|, DATA, d)]);
  }

  lemma OddAlone(p: nat, stale: byte, img: seq<byte>, d: seq<byte>)
    requires p > 0 && |img| % 2 == 0 && |img| < 0x10000 && |d| < 256 && |d| % 2 == 1
    ensures var r: Record := Record(|img|, DATA, d);
            Ascending(p, |img|, [r]) && Image(p, stale, img, [r]) == img + ([stale] + d)
  {
    hide Base;
    assert Extended(img, |img|, [stale] + d) == img + ([stale] + d);
  }

  /** Printing a file that ends with an odd record leaves the outcome of the shifted image. */
  lemma OddFileLoads(boot: nat, f: Flash, chunks: seq<seq<byte>>, d: seq<byte>, a: nat, stream: string)
    requires BufferBlank(f) && Aligned(f.Page(), boot) && boot <= |f.mem| < U32 - 2
    requires OddFile(chunks, d, a, stream) && |Flatten(chunks)| + |d| <= boot
    ensures var even := Flatten(chunks);
            && RoundUp(f.Page(), |Shifted(even, d)|) <= boot
            && var t := FeedAll(boot, Reset(f), stream);
            !t.run && t.flash == Outcome(f, Shifted(even, d), a)
  {
    hide FeedAll, AscendingFile, Strip, Texts, Image, Outcome, RoundUp, Aligned, Flatten, Base;
    OddLength(chunks, d, a, stream);
    RoomForShifted(f.Page(), Flatten(chunks), d, boot);
    OddAscends(boot, f.Page(), chunks, d, a, stream);
    AscendingFileLoads(boot, f, DataRecords(0, chunks) + [Record(|Flatten(chunks)|, DATA, d)], a, stream);
  }

  /** How many bytes of the shifted image the end record leaves in flash. */
  function Kept(p: nat, n: nat, a: nat): nat
    requires p > 0
  {
    if Aligned(p, n) || Base(p, a) != Base(p, n) then n else Base(p, n)
  }

  /**
   The bytes for which the shift does not show: if all of the image reaches flash, a stale
   0xFF and odd data of 0xFF only; otherwise odd data that repeats the stale byte as far as
   it reaches flash and is 0xFF from there on, as is what was lost of the even data.
   */
  predicate ShiftHarmless(p: nat, even: seq<byte>, d: seq<byte>, a: nat)
    requires p > 0
  {
    var n := |even| + 1 + |d|;
    var kept := Kept(p, n, a);
    && (kept == n ==> Stale(0, even) == 255)
    && (forall i :: kept <= i < |even| ==> even[i] == 255)
    && (forall i :: 0 <= i < |d| ==> d[i] == if |even| + i < kept then Stale(0, even) else 255)
  }

  /** The outcome of an image, byte by byte. */
  lemma OutcomeAt(f: Flash, img: seq<byte>, a: nat, i: nat)
    requires RoundUp(f.Page(), |img|) <= |f.mem| && i < |f.mem|
    ensures var kept := Kept(f.Page(), |img|, a);
            Outcome(f, img, a).mem[i] ==
            if i < kept then img[i] else if i < RoundUp(f.Page(), |img|) then 255 else f.mem[i]
  {
    var p := f.Page();
    var b := Base(p, |img|);
    if b != |img| && Base(p, a) == b {
      BaseAligned(p, |img|);
      assert RoundUp(p, b) == b;
    }
  }

  /** One byte of the shifted outcome against the image that was meant. */
  predicate AgreesAt(p: nat, even: seq<byte>, d: seq<byte>, a: nat, i: nat)
    requires p > 0 && i <= |even| + |d|
  {
    var kept := Kept(p, |even| + 1 + |d|, a);
    var meant := even + d + [255];
    meant[i] == if i < kept then Shifted(even, d)[i] else 255
  }

  /** The condition on the bytes, from the comparison byte by byte. */
  lemma AgreesIff(p: nat, even: seq<byte>, d: seq<byte>, a: nat)
    requires p > 0 && d != []
    ensures (forall i :: 0 <= i <= |even| + |d| ==> AgreesAt(p, even, d, a, i)) <==> ShiftHarmless(p, even, d, a)
  {
    if ShiftHarmless(p, even, d, a) {
      forall i | 0 <= i <= |even| + |d|
        ensures AgreesAt(p, even, d, a, i)
      {
        HarmlessAgrees(p, even, d, a, i);
      }
    }
    if forall i :: 0 <= i <= |even| + |d| ==> AgreesAt(p, even, d, a, i) {
      AgreeingHarmless(p, even, d, a);
    }
  }

  lemma HarmlessAgrees(p: nat, even: seq<byte>, d: seq<byte>, a: nat, i: nat)
    requires p > 0 && d != [] && i <= |even| + |d| && ShiftHarmless(p, even, d, a)
    ensures AgreesAt(p, even, d, a, i)
  {
    hide Base, Aligned;
    var kept := Kept(p, |even| + 1 + |d|, a);
    if |even| < i < kept {
      assert Shifted(even, d)[i] == d[i - |even| - 1] == Stale(0, even);
    }
  }

  lemma AgreeingHarmless(p: nat, even: seq<byte>, d: seq<byte>, a: nat)
    requires p > 0 && d != [] && forall i :: 0 <= i <= |even| + |d| ==> AgreesAt(p, even, d, a, i)
    ensures ShiftHarmless(p, even, d, a)
  {
    hide Base, Aligned;
    var n := |even| + 1 + |d|;
    var kept := Kept(p, n, a);
    forall i | kept <= i < |even|
      ensures even[i] == 255
    {
      assert AgreesAt(p, even, d, a, i);
    }
    forall i | 0 <= i < |d|
      ensures d[i] == if |even| + i < kept then Stale(0, even) else 255
    {
      Repeats(p, even, d, a, i);
    }
    if kept == n {
      assert AgreesAt(p, even, d, a, |even| + |d|);
      assert Shifted(even, d)[|even| + |d|] == d[|d| - 1];
    }
  }

  lemma {:induction false} Repeats(p: nat, even: seq<byte>, d: seq<byte>, a: nat, i: nat)
    requires p > 0 && i < |d| && forall j :: 0 <= j <= |even| + |d| ==> AgreesAt(p, even, d, a, j)
    ensures d[i] == if |even| + i < Kept(p, |even| + 1 + |d|, a) then Stale(0, even) else 255
  {
    hide Base, Aligned;
    assert AgreesAt(p, even, d, a, |even| + i);
    if i > 0 {
      Repeats(p, even, d, a, i - 1);
      assert Shifted(even, d)[|even| + i] == d[i - 1];
    } else {
      assert Shifted(even, d)[|even|] == Stale(0, even);
    }
  }

  /**
   A file that ends with an odd record is in flash as it was meant, padded with 0xFF, if
   and only if its bytes hide the shift.
   */
  lemma OddFileIff(boot: nat, f: Flash, chunks: seq<seq<byte>>, d: seq<byte>, a: nat, stream: string)
    requires BufferBlank(f) && Aligned(f.Page(), boot) && boot <= |f.mem| < U32 - 2
    requires OddFile(chunks, d, a, stream) && |Flatten(chunks)| + |d| <= boot
    ensures FeedAll(boot, Reset(f), stream).flash.mem == Loaded(f.Page(), f.mem, 0, Flatten(chunks) + d) <==>
            ShiftHarmless(f.Page(), Flatten(chunks), d, a)
  {
    hide FeedAll, OddFile;
    OddFileLoads(boot, f, chunks, d, a, stream);
    OddLength(chunks, d, a, stream);
    OddOutcomeIff(boot, f, Flatten(chunks), d, a);
  }

  lemma OddLength(chunks: seq<seq<byte>>, d: seq<byte>, a: nat, stream: string)
    requires OddFile(chunks, d, a, stream)
    ensures |d| % 2 == 1 && |Flatten(chunks)| % 2 == 0
  {
    hide Strip, Texts;
    EvenFlatten(chunks);
  }

  lemma OddOutcomeIff(boot: nat, f: Flash, even: seq<byte>, d: seq<byte>, a: nat)
    requires Aligned(f.Page(), boot) && |even| % 2 == 0 && |d| % 2 == 1 && |even| + |d| <= boot <= |f.mem|
    requires RoundUp(f.Page(), |Shifted(even, d)|) <= |f.mem|
    ensures Outcome(f, Shifted(even, d), a).mem == Loaded(f.Page(), f.mem, 0, even + d) <==>
            ShiftHarmless(f.Page(), even, d, a)
  {
    hide Outcome, Loaded, ShiftHarmless;
    var p, img := f.Page(), Shifted(even, d);
    RoomForOne(p, |even| + |d|, boot);
    var got, want := Outcome(f, img, a).mem, Loaded(p, f.mem, 0, even + d);
    forall i | 0 <= i < |f.mem|
      ensures got[i] == want[i] <==> (i <= |even| + |d| ==> AgreesAt(p, even, d, a, i))
    {
      OutcomeAt(f, img, a, i);
      LoadedAt(p, f.mem, even + d, i);
      KeptBound(p, |img|, a);
    }
    AgreesIff(p, even, d, a);
    if got == want {
      forall i | 0 <= i <= |even| + |d|
        ensures AgreesAt(p, even, d, a, i)
      {
        assert got[i] == want[i];
      }
    }
  }

  lemma KeptBound(p: nat, n: nat, a: nat)
    requires p > 0
    ensures Kept(p, n, a) <= n
  {
  }

  /** In particular an odd record on its own, once flushed, lies behind a zero byte. */
  lemma OddRecordMisplaced(boot: nat, f: Flash, d: seq<byte>, a: nat, stream: string)
    requires BufferBlank(f) && Aligned(f.Page(), boot) && boot <= |f.mem| < U32 - 2
    requires OddFile([], d, a, stream) && |d| <= boot && Kept(f.Page(), |d| + 1, a) == |d| + 1
    ensures var m := FeedAll(boot, Reset(f), stream).flash.mem;
            |m| == |f.mem| > |d| && m[..|d| + 1] == [0] + d
  {
    hide FeedAll, OddFile, Outcome, Kept;
    OddFileLoads(boot, f, [], d, a, stream);
    OddLength([], d, a, stream);
    RoomForOne(f.Page(), |d|, boot);
    var img := Shifted([], d);
    assert img == [0] + d;
    forall i | 0 <= i < |d| + 1
      ensures Outcome(f, img, a).mem[i] == img[i]
    {
      OutcomeAt(f, img, a, i);
    }
  }

  // ---- Files with an odd record inside ----------------------------------------

  /** The last word of the image replaced. */
  function Replacing(img: seq<byte>, w: seq<byte>): (r: seq<byte>)
    requires |img| >= 2
    ensures |r| == |img| - 2 + |w|
  {
    img[..|img| - 2] + w
  }

  /** `x` is one below the end of an image of `n` bytes, and both words there are even. */
  predicate OneBelow(n: nat, x: nat) {
    n == x + 1 && Even(x) == x - 1 && Even(x + 2) == n
  }

  lemma OddBelow(n: nat)
    requires n % 2 == 0 && n > 0
    ensures OneBelow(n, n - 1)
  {
  }

  /** A word addressed one below the end of the image replaces the last word of an open page. */
  lemma StepReplaces(p: nat, mem: seq<byte>, img: seq<byte>, x: nat, lo: byte, hi: byte)
    requires (p == 128 || p == 256) && Aligned(p, |mem|) && 2 <= |img| <= |mem| && OneBelow(|img|, x)
    requires !Aligned(p, |img|)
    ensures Step(p, PagesOf(p, mem, img), x, lo, hi) == PagesOf(p, mem, Replacing(img, [lo, hi]))
  {
    hide Base, Aligned, Overlay, Even, LastPage, Overwritten, Replacing, Crossed;
    var b := Base(p, |img|);
    EvenPages(p, |img|);
    BaseAligned(p, |img|);
    AlignedGap(p, b, |mem|);
    NotThere(p, img, b);
    EvenBelow(b, x);
    InPage(p, b, x);
    InPage(p, b, x + 2);
    OverlayPlace(LastPage(p, img, b), x, lo, hi);
    PageReplaced(p, img, b, lo, hi);
    PrefixReplaced(mem, img, b, lo, hi);
    CrossedExtended(p, mem, Replacing(img, [lo, hi]), b, x + 2);
  }

  lemma NotThere(p: nat, img: seq<byte>, b: nat)
    requires p > 0 && b == Base(p, |img|) && !Aligned(p, |img|)
    ensures b < |img|
  {
  }

  lemma PrefixReplaced(mem: seq<byte>, img: seq<byte>, b: nat, lo: byte, hi: byte)
    requires b + 2 <= |img| && b <= |mem|
    ensures Overwritten(mem, Replacing(img, [lo, hi]), b) == Overwritten(mem, img, b)
  {
  }

  lemma PageReplaced(p: nat, img: seq<byte>, b: nat, lo: byte, hi: byte)
    requires b + 2 <= |img| <= b + p
    ensures LastPage(p, img, b)[|img| - 2 - b := lo][|img| - 1 - b := hi] == LastPage(p, Replacing(img, [lo, hi]), b)
  {
    var page, more := LastPage(p, img, b), LastPage(p, Replacing(img, [lo, hi]), b);
    assert forall i :: 0 <= i < p ==> page[|img| - 2 - b := lo][|img| - 1 - b := hi][i] == more[i];
  }

  /** Words addressed one too high extend the image all the same. */
  lemma WordsGoOn(p: nat, mem: seq<byte>, img: seq<byte>, x: nat, rest: seq<byte>)
    requires (p == 128 || p == 256) && Aligned(p, |mem|) && Even(x) == |img|
    requires |rest| % 2 == 0 && |img| + |rest| <= |mem|
    ensures Words(p, PagesOf(p, mem, img), x, rest) == PagesOf(p, mem, img + rest)
  {
    hide Base, Aligned, PagesOf, Valid, Words, Even;
    if rest == [] {
      NoWords(p, PagesOf(p, mem, img), x);
      assert img + rest == img;
    } else {
      WordsExtend(p, mem, img, x, rest);
      assert Extended(img, |img|, rest) == img + rest;
    }
  }

  lemma WordsReplaceFrom(p: nat, mem: seq<byte>, img: seq<byte>, x: nat, lo: byte, hi: byte, rest: seq<byte>)
    requires (p == 128 || p == 256) && Aligned(p, |mem|) && 2 <= |img| && OneBelow(|img|, x)
    requires !Aligned(p, |img|) && |rest| % 2 == 0 && |img| + |rest| <= |mem|
    ensures Words(p, PagesOf(p, mem, img), x, [lo, hi] + rest) ==
            PagesOf(p, mem, Replacing(img, [lo, hi] + rest))
  {
    hide Base, Aligned, PagesOf, Step, Valid, Words, Replacing, Even, Stale;
    EvenSum(2, |rest|);
    StepReplaces(p, mem, img, x, lo, hi);
    FirstWord(p, PagesOf(p, mem, img), x, lo, hi, rest);
    WordsGoOn(p, mem, Replacing(img, [lo, hi]), x + 2, rest);
    ReplacingAppend(img, [lo, hi], rest);
  }

  /** A record addressed one below the end of the image lands one address too low. */
  lemma WordsReplace(p: nat, mem: seq<byte>, img: seq<byte>, x: nat, w: seq<byte>)
    requires (p == 128 || p == 256) && Aligned(p, |mem|) && 2 <= |img| && OneBelow(|img|, x)
    requires !Aligned(p, |img|) && w != [] && |w| % 2 == 0 && |img| - 2 + |w| <= |mem|
    ensures Words(p, PagesOf(p, mem, img), x, w) == PagesOf(p, mem, Replacing(img, w))
  {
    hide Base, Aligned, PagesOf, Valid, Words, Replacing, OneBelow;
    EvenAtLeast(|w|);
    assert w == [w[0], w[1]] + w[2..];
    WordsReplaceFrom(p, mem, img, x, w[0], w[1], w[2..]);
  }

  lemma NoWords(p: nat, m: Pages, x: nat)
    requires Valid(p, m)
    ensures Words(p, m, x, []) == m
  {
  }

  /** Even records from address 0 on, an odd one, and even ones again, each where the last one ends. */
  predicate InnerOddFile(before: seq<seq<byte>>, d: seq<byte>, c: seq<byte>, after: seq<seq<byte>>,
                         a: nat, stream: string)
  {
    var n := |Flatten(before)| + |d|;
    && n + |c| + |Flatten(after)| <= 0x10000 && a < 0x10000 && |d| < 256 && |d| % 2 == 1
    && (forall e :: e in before + [c] + after ==> 0 < |e| < 256 && |e| % 2 == 0)
    && Strip(stream) == Flatten(Texts(InnerRecords(before, d, c, after) + [Record(a, END_OF_FILE, [])]))
  }

  function InnerRecords(before: seq<seq<byte>>, d: seq<byte>, c: seq<byte>, after: seq<seq<byte>>): seq<Record>
    requires |Flatten(before)| + |d| + |c| + |Flatten(after)| <= 0x10000 && 0 < |d| < 256 && 0 < |c|
    requires forall e :: e in before + [c] + after ==> 0 < |e| < 256
  {
    var n := |Flatten(before)|;
    (DataRecords(0, before) + [Record(n, DATA, d)]) +
    ([Record(n + |d|, DATA, c)] + DataRecords(n + |d| + |c|, after))
  }

  /** What the parser takes the image for: the shifted image without its last word, and then the rest. */
  function Squeezed(even: seq<byte>, d: seq<byte>, rest: seq<byte>): seq<byte>
    requires |d| % 2 == 1
  {
    Replacing(Shifted(even, d), rest)
  }

  lemma FirstTaken(p: nat, boot: nat, mem: seq<byte>, before: seq<seq<byte>>, d: seq<byte>)
    requires (p == 128 || p == 256) && Aligned(p, |mem|) && |d| % 2 == 1 && |d| < 256
    requires |Flatten(before)| + |d| < 0x10000 && |Flatten(before)| + |d| < boot <= |mem|
    requires forall e :: e in before ==> 0 < |e| < 256 && |e| % 2 == 0
    ensures var even := Flatten(before);
            var first: seq<Record> := DataRecords(0, before) + [Record(|even|, DATA, d)];
            && |Shifted(even, d)| <= |mem|
            && TakeRecords(p, boot, Load(Pages(mem, 0, Blank(p), false), 0, 0), first) ==
               Load(PagesOf(p, mem, Shifted(even, d)), Leftover(0, first), 0)
  {
    hide Base, Aligned, PagesOf, Image, Ascending, Flatten, DataRecords, TakeRecords, Leftover;
    NoImage(p, mem);
    OddImage(p, before, d);
    FirstEnds(p, before, d, boot);
    RecordsExtend(p, boot, mem, 0, [], DataRecords(0, before) + [Record(|Flatten(before)|, DATA, d)]);
  }

  lemma NextTaken(p: nat, boot: nat, mem: seq<byte>, img: seq<byte>, n: nat, stale: byte, c: seq<byte>)
    requires (p == 128 || p == 256) && Aligned(p, |mem|) && 2 <= |img| && OneBelow(|img|, n) && n < 0x10000
    requires !Aligned(p, |img|) && 0 < |c| < 256 && |c| % 2 == 0 && |img| - 2 + |c| <= |mem| && |img| <= |mem|
    requires n + |c| <= boot
    ensures TakeRecords(p, boot, Load(PagesOf(p, mem, img), stale, 0), [Record(n, DATA, c)]) ==
            Load(PagesOf(p, mem, Replacing(img, c)), Stale(stale, c), 0)
  {
    hide Base, Aligned, PagesOf, Words, TakeRecords, TakeRecord, Even, Replacing, OneBelow;
    WordsReplace(p, mem, img, n, c);
    BelowTaken(p, boot, Load(PagesOf(p, mem, img), stale, 0), Record(n, DATA, c));
    OneRecord(p, boot, Load(PagesOf(p, mem, img), stale, 0), Record(n, DATA, c));
  }

  lemma RestTaken(p: nat, boot: nat, mem: seq<byte>, img: seq<byte>, n: nat, stale: byte, c: seq<byte>,
                  after: seq<seq<byte>>)
    requires (p == 128 || p == 256) && Aligned(p, |mem|) && 2 <= |img| <= |mem| && OneBelow(|img|, n)
    requires !Aligned(p, |img|) && 0 < |c| < 256 && |c| % 2 == 0 && Even(n + |c|) == |img| - 2 + |c|
    requires forall e :: e in after ==> 0 < |e| < 256 && |e| % 2 == 0
    requires n + |c| + |Flatten(after)| <= 0x10000 && n + |c| + |Flatten(after)| <= boot <= |mem|
    ensures var rs: seq<Record> := [Record(n, DATA, c)] + DataRecords(n + |c|, after);
            TakeRecords(p, boot, Load(PagesOf(p, mem, img), stale, 0), rs).pages ==
            PagesOf(p, mem, Replacing(img, c + Flatten(after)))
  {
    hide Base, Aligned, PagesOf, Image, Ascending, Flatten, DataRecords, TakeRecords, Leftover, Even, Replacing,
         Valid, End, Below, TakeRecord, OneBelow;
    var last := DataRecords(n + |c|, after);
    TakeRecordsAppend(p, boot, Load(PagesOf(p, mem, img), stale, 0), [Record(n, DATA, c)], last);
    NextTaken(p, boot, mem, img, n, stale, c);
    ContiguousImage(p, Stale(stale, c), Replacing(img, c), n + |c|, after);
    ContiguousBelow(n + |c|, after, boot, |mem|);
    RecordsExtend(p, boot, mem, Stale(stale, c), Replacing(img, c), last);
    ReplacingAppend(img, c, Flatten(after));
  }

  lemma ReplacingAppend(img: seq<byte>, c: seq<byte>, rest: seq<byte>)
    requires |img| >= 2
    ensures Replacing(img, c) + rest == Replacing(img, c + rest)
  {
    Assoc(img[..|img| - 2], c, rest);
  }

  lemma InnerTaken(p: nat, boot: nat, mem: seq<byte>, before: seq<seq<byte>>, d: seq<byte>, c: seq<byte>,
                   after: seq<seq<byte>>)
    requires (p == 128 || p == 256) && Aligned(p, |mem|) && |d| % 2 == 1 && |d| < 256
    requires |Flatten(before)| + |d| + |c| + |Flatten(after)| <= 0x10000
    requires |Flatten(before)| + |d| + |c| + |Flatten(after)| < boot <= |mem|
    requires forall e :: e in before + [c] + after ==> 0 < |e| < 256 && |e| % 2 == 0
    requires !Aligned(p, |Flatten(before)| + |d| + 1)
    ensures var img := Squeezed(Flatten(before), d, c + Flatten(after));
            && |img| <= |mem|
            && var l := Load(Pages(mem, 0, Blank(p), false), 0, 0);
            && Valid(p, l.pages)
            && TakeRecords(p, boot, l, InnerRecords(before, d, c, after)).pages == PagesOf(p, mem, img)
  {
    hide Base, Aligned, PagesOf, Flatten, DataRecords, TakeRecords, Leftover, Replacing, OneBelow, Even;
    var even := Flatten(before);
    var n := |even| + |d|;
    var first: seq<Record> := DataRecords(0, before) + [Record(|even|, DATA, d)];
    var rest: seq<Record> := [Record(n, DATA, c)] + DataRecords(n + |c|, after);
    var img := Shifted(even, d);
    assert c in before + [c] + after;
    EvenFlatten(before);
    OddRest(|even|, |d|);
    assert |img| == n + 1;
    StartValid(p, mem);
    FirstTaken(p, boot, mem, before, d);
    TakeRecordsAppend(p, boot, Load(Pages(mem, 0, Blank(p), false), 0, 0), first, rest);
    OddBelow(|img|);
    OddStart(|img|, |c|);
    RestTaken(p, boot, mem, img, n, Leftover(0, first), c, after);
  }

  lemma OddRest(n: nat, k: nat)
    requires n % 2 == 0 && k % 2 == 1
    ensures (n + k + 1) % 2 == 0
  {
  }

  lemma StartValid(p: nat, mem: seq<byte>)
    requires (p == 128 || p == 256) && Aligned(p, |mem|)
    ensures Valid(p, Pages(mem, 0, Blank(p), false))
  {
  }

  lemma OddStart(n: nat, k: nat)
    requires n >= 2 && n % 2 == 0 && k % 2 == 0
    ensures Even(n - 1 + k) == n - 2 + k
  {
  }

  lemma FirstEnds(p: nat, before: seq<seq<byte>>, d: seq<byte>, bound: nat)
    requires |Flatten(before)| + |d| < 0x10000 && |Flatten(before)| + |d| < bound && |d| < 256 && |d| % 2 == 1
    requires forall e :: e in before ==> 0 < |e| < 256 && |e| % 2 == 0
    ensures forall r :: r in DataRecords(0, before) + [Record(|Flatten(before)|, DATA, d)] ==>
              r.kind == DATA && r.addr + |r.data| < bound && End(r) <= bound
  {
    hide Flatten, DataRecords;
    ContiguousRecords(0, before);
    EvenFlatten(before);
  }

  /**
   Printing such a file: the odd record lands one address too high, all that follows one too low,
   over its last two bytes. The exception is an odd record that completes a page.
   */
  lemma InnerOddFileLoads(boot: nat, f: Flash, before: seq<seq<byte>>, d: seq<byte>, c: seq<byte>,
                          after: seq<seq<byte>>, a: nat, stream: string)
    requires BufferBlank(f) && Aligned(f.Page(), boot) && boot <= |f.mem| < U32 - 2
    requires InnerOddFile(before, d, c, after, a, stream)
    requires |Flatten(before)| + |d| + |c| + |Flatten(after)| <= boot
    requires !Aligned(f.Page(), |Flatten(before)| + |d| + 1)
    ensures var img := Squeezed(Flatten(before), d, c + Flatten(after));
            && RoundUp(f.Page(), |img|) <= |f.mem|
            && var t := FeedAll(boot, Reset(f), stream);
            !t.run && t.flash == Outcome(f, img, a)
  {
    hide FeedAll, Strip, Texts, Outcome, RoundUp, Aligned, Flatten, Base, DataRecords, TakeRecords, PagesOf, Crossed,
         FlashOf, Valid;
    var p := f.Page();
    InnerBelow(boot, p, before, d, c, after);
    DataFileTaken(boot, f, InnerRecords(before, d, c, after), a, stream);
    InnerTaken(p, boot, f.mem, before, d, c, after);
    EndOutcome(f, Squeezed(Flatten(before), d, c + Flatten(after)), a);
  }

  lemma InnerBelow(boot: nat, p: nat, before: seq<seq<byte>>, d: seq<byte>, c: seq<byte>, after: seq<seq<byte>>)
    requires (p == 128 || p == 256) && Aligned(p, boot) && |d| % 2 == 1 && |d| < 256
    requires |Flatten(before)| + |d| + |c| + |Flatten(after)| <= boot
    requires |Flatten(before)| + |d| + |c| + |Flatten(after)| <= 0x10000
    requires forall e :: e in before + [c] + after ==> 0 < |e| < 256 && |e| % 2 == 0
    ensures |Flatten(before)| + |d| + |c| + |Flatten(after)| < boot
    ensures forall r :: r in InnerRecords(before, d, c, after) ==> r.kind == DATA && r.addr + |r.data| <= boot
  {
    hide Flatten, DataRecords, Base, Aligned;
    var n := |Flatten(before)| + |d|;
    EvenFlatten(before);
    EvenFlatten(after);
    EvenBoundary(p, boot);
    ContiguousRecords(0, before);
    ContiguousRecords(n + |c|, after);
  }

  lemma EvenBoundary(p: nat, boot: nat)
    requires (p == 128 || p == 256) && Aligned(p, boot)
    ensures boot % 2 == 0
  {
    EvenPages(p, boot);
  }
}
