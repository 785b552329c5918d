/**
 AVR self-programming: flash memory, the one-page temporary buffer and the three
 SPM operations the bootloaders are built on.

 Hardware assumptions, stated once here:
 - `Erase(a)` sets the page that contains `a` to 0xFF;
 - `Fill(a, w)` puts the word `w`, little-endian, into the temporary buffer at the
   word position of `a` within its page;
 - `Write(a)` clears in the page that contains `a` every bit that is clear in the
   temporary buffer (flash bits only go from one to zero), then blanks the buffer;
 - an operation that addresses a page beyond the end of flash has no effect, and a
   read there yields 0xFF.
 */
module Avr {
  import opened Basics
  import opened Bits

  // ---- Pages ------------------------------------------------------------------

  /** Start address of the `p`-byte page that contains `a`. */
  function Base(p: nat, a: nat): (b: nat)
    requires p > 0
    ensures b <= a < b + p
  {
    if a < p then 0 else p + Base(p, a - p)
  }

  predicate Aligned(p: nat, a: nat)
    requires p > 0
  {
    Base(p, a) == a
  }

  /** First page boundary at or above `a`. */
  function RoundUp(p: nat, a: nat): (r: nat)
    requires p > 0
    ensures a <= r < a + p
  {
    if Aligned(p, a) then a else Base(p, a) + p
  }

  lemma {:induction false} BaseOfPage(p: nat, b: nat, a: nat)
    requires p > 0 && Aligned(p, b) && b <= a < b + p
    ensures Base(p, a) == b
  {
    if b >= p {
      BaseOfPage(p, b - p, a - p);
    }
  }

  lemma {:induction false} BaseAligned(p: nat, a: nat)
    requires p > 0
    ensures Aligned(p, Base(p, a))
  {
    if a >= p {
      BaseAligned(p, a - p);
    }
  }

  lemma {:induction false} AlignedGap(p: nat, b: nat, c: nat)
    requires p > 0 && Aligned(p, b) && Aligned(p, c) && b < c
    ensures b + p <= c
  {
    if c < b + p {
      BaseOfPage(p, b, c);
    }
  }

  lemma RoundUpBelow(p: nat, a: nat, c: nat)
    requires p > 0 && a <= c && Aligned(p, c)
    ensures RoundUp(p, a) <= c
  {
    if !Aligned(p, a) {
      BaseAligned(p, a);
      AlignedGap(p, Base(p, a), c);
    }
  }

  lemma {:induction false} AlignedSum(p: nat, b: nat, c: nat)
    requires p > 0 && Aligned(p, b) && Aligned(p, c)
    ensures Aligned(p, b + c)
  {
    if b >= p {
      AlignedSum(p, b - p, c);
      assert b + c - p == (b - p) + c;
    }
  }

  lemma {:induction false} BaseMonotone(p: nat, a: nat, c: nat)
    requires p > 0 && a <= c
    ensures Base(p, a) <= Base(p, c)
  {
    if a >= p {
      BaseMonotone(p, a - p, c - p);
    }
  }

  lemma {:induction false} BaseRemainder(p: nat, a: nat)
    requires p > 0
    ensures Base(p, a) == a - a % p
  {
    if a >= p {
      BaseRemainder(p, a - p);
      ModStep(p, a);
    }
  }

  lemma {:induction false} EvenPages(p: nat, a: nat)
    requires p > 0 && p % 2 == 0
    ensures Base(p, a) % 2 == 0
  {
    if a >= p {
      EvenPages(p, a - p);
      EvenSum(p, Base(p, a - p));
    }
  }

  /** The code's `a & ~(p - 1)`, for a page size that is a power of two, is the start of the page. */
  lemma BaseIsMask(k: nat, width: nat, a: nat)
    requires k <= width && a <= Ones(width)
    ensures Base(Ones(k) + 1, a) == BitAnd(a, HighOnes(k, width))
  {
    hide BitAnd, Ones, HighOnes, Base;
    AndHigh(k, width, a);
    BaseRemainder(Ones(k) + 1, a);
  }

  // ---- Flash ------------------------------------------------------------------

  /** `n` erased bytes. */
  function Blank(n: nat): (s: seq<byte>)
    ensures |s| == n && forall i :: 0 <= i < n ==> s[i] == 255
  {
    seq(n, i => 255)
  }

  datatype FlashCells = Flash(mem: seq<byte>, buf: seq<byte>) {
    /** SPM_PAGESIZE. */
    function Page(): nat { |buf| }
  }

  /** The page sizes of the supported parts; flash is a whole number of pages. */
  predicate FlashShape(f: FlashCells) {
    && (f.Page() == 128 || f.Page() == 256)
    && Aligned(f.Page(), |f.mem|)
  }

  type Flash = f: FlashCells | FlashShape(f) witness Flash([], Blank(128))

  predicate BufferBlank(f: Flash) {
    f.buf == Blank(f.Page())
  }

  /** Flash contents with the bytes from `b` on replaced by `d`. */
  function Put(mem: seq<byte>, b: nat, d: seq<byte>): (m: seq<byte>)
    requires b + |d| <= |mem|
    ensures |m| == |mem|
    ensures forall i :: 0 <= i < |mem| ==> m[i] == if b <= i < b + |d| then d[i - b] else mem[i]
  {
    seq(|mem|, i requires 0 <= i < |mem| => if b <= i < b + |d| then d[i - b] else mem[i])
  }

  lemma PutPut(mem: seq<byte>, b: nat, d: seq<byte>, e: seq<byte>)
    requires b + |d| + |e| <= |mem|
    ensures Put(Put(mem, b, d), b + |d|, e) == Put(mem, b, d + e)
  {
  }

  predicate InFlash(f: Flash, a: nat) {
    Base(f.Page(), a) + f.Page() <= |f.mem|
  }

  /** The page of `a` lies inside flash and starts and ends on even addresses. */
  lemma PageBounds(f: Flash, a: nat)
    requires a < |f.mem|
    ensures var b := Base(f.Page(), a);
            Aligned(f.Page(), b) && b % 2 == 0 && b + f.Page() <= |f.mem|
    ensures f.Page() % 2 == 0
  {
    BaseAligned(f.Page(), a);
    AlignedGap(f.Page(), Base(f.Page(), a), |f.mem|);
    EvenPages(f.Page(), a);
  }

  lemma RoomForWord(n: nat, end: nat)
    requires n % 2 == 0 && end % 2 == 0 && n < end
    ensures n + 2 <= end
  {
  }

  lemma InFlashBelow(f: Flash, a: nat)
    requires a < |f.mem|
    ensures InFlash(f, a)
  {
    PageBounds(f, a);
  }

  function Erase(f: Flash, a: nat): (g: Flash)
    ensures g.buf == f.buf && |g.mem| == |f.mem|
  {
    if InFlash(f, a) then f.(mem := Put(f.mem, Base(f.Page(), a), Blank(f.Page()))) else f
  }

  function Fill(f: Flash, a: nat, w: nat): (g: Flash)
    ensures g.mem == f.mem && |g.buf| == |f.buf|
  {
    var o := a - Base(f.Page(), a);
    var e := o - o % 2;
    f.(buf := f.buf[e := Lo(w)][e + 1 := Hi(w)])
  }

  /** The page `was` after programming it with the buffer `d`. */
  function Programmed(was: seq<byte>, d: seq<byte>): (m: seq<byte>)
    requires |was| == |d|
    ensures |m| == |d|
  {
    seq(|d|, i requires 0 <= i < |d| => BitAnd(was[i], d[i]))
  }

  function Write(f: Flash, a: nat): (g: Flash)
    ensures BufferBlank(g) && g.Page() == f.Page() && |g.mem| == |f.mem|
  {
    var p := f.Page();
    var b := Base(p, a);
    if InFlash(f, a) then
      Flash(Put(f.mem, b, Programmed(f.mem[b..b + p], f.buf)), Blank(p))
    else
      f.(buf := Blank(p))
  }

  /** pgm_read_byte. */
  function ReadByte(f: Flash, a: nat): byte {
    if a < |f.mem| then f.mem[a] else 255
  }

  /** pgm_read_word. */
  function ReadWord(f: Flash, a: nat): nat {
    Word(ReadByte(f, a), ReadByte(f, a + 1))
  }

  // ---- Programming contiguous data --------------------------------------------

  /**
   Flash after programming `data` from the page boundary `start`: the data, then
   0xFF up to the next page boundary, then what was there before.
   */
  function Loaded(p: nat, mem: seq<byte>, start: nat, data: seq<byte>): (m: seq<byte>)
    requires p > 0
    ensures |m| == |mem|
  {
    var end := start + |data|;
    if RoundUp(p, end) <= |mem| then Put(mem, start, data + Blank(RoundUp(p, end) - end)) else mem
  }

  /**
   `g` is `f` with the page at `b` erased and `data` waiting at the start of the
   temporary buffer.
   */
  predicate Filling(f: Flash, g: Flash, b: nat, data: seq<byte>) {
    && g.Page() == f.Page()
    && Aligned(f.Page(), b) && b + f.Page() <= |f.mem|
    && |data| <= f.Page() && |data| % 2 == 0
    && g.mem == Put(f.mem, b, Blank(f.Page()))
    && g.buf == data + Blank(f.Page() - |data|)
  }

  /** Erasing a page with a blank buffer starts the filling of that page. */
  lemma StartFilling(f: Flash, b: nat)
    requires BufferBlank(f) && Aligned(f.Page(), b) && b < |f.mem|
    ensures Filling(f, Erase(f, b), b, [])
  {
    InFlashBelow(f, b);
    assert [] + Blank(f.Page()) == Blank(f.Page());
  }

  lemma BlankStep(data: seq<byte>, n: nat, lo: byte, hi: byte)
    requires n >= 2
    ensures (data + Blank(n))[|data| := lo][|data| + 1 := hi] == data + [lo, hi] + Blank(n - 2)
  {
  }

  lemma FillStep(f: Flash, g: Flash, b: nat, data: seq<byte>, lo: byte, hi: byte)
    requires Filling(f, g, b, data) && |data| < f.Page()
    ensures Filling(f, Fill(g, b + |data|, Word(lo, hi)), b, data + [lo, hi])
  {
    hide Put, Lo, Hi, Word, Blank;
    BaseOfPage(f.Page(), b, b + |data|);
    WordParts(lo, hi);
    BlankStep(data, f.Page() - |data|, lo, hi);
  }

  /** Writing the page after filling it leaves exactly the data, padded with 0xFF. */
  lemma CommitPage(f: Flash, g: Flash, b: nat, data: seq<byte>)
    requires Filling(f, g, b, data)
    ensures Write(g, b) == Flash(Put(f.mem, b, data + Blank(f.Page() - |data|)), Blank(f.Page()))
  {
    var p := f.Page();
    BaseOfPage(p, b, b);
    var d := g.buf;
    var done := Programmed(g.mem[b..b + p], d);
    forall i | 0 <= i < p ensures done[i] == d[i] {
      AndBlank(d[i]);
    }
    assert done == d;
    assert Put(g.mem, b, d) == Put(f.mem, b, d);
  }

  /** Programming more data from a page boundary continues a load. */
  lemma LoadedAppend(p: nat, mem: seq<byte>, start: nat, d: seq<byte>, e: seq<byte>)
    requires p > 0 && Aligned(p, start + |d|) && RoundUp(p, start + |d| + |e|) <= |mem|
    ensures Loaded(p, Loaded(p, mem, start, d), start + |d|, e) == Loaded(p, mem, start, d + e)
  {
    hide Loaded, Put, Blank, RoundUp, Aligned;
    var end := start + |d| + |e|;
    var pad := Blank(RoundUp(p, end) - end);
    LoadedAligned(p, mem, start, d);
    LoadedIs(p, Put(mem, start, d), start + |d|, e, end);
    LoadedIs(p, mem, start, d + e, end);
    Assoc(d, e, pad);
    PutPut(mem, start, d, e + pad);
  }

  lemma LoadedIs(p: nat, mem: seq<byte>, start: nat, data: seq<byte>, end: nat)
    requires p > 0 && end == start + |data| && RoundUp(p, end) <= |mem|
    ensures Loaded(p, mem, start, data) == Put(mem, start, data + Blank(RoundUp(p, end) - end))
  {
    hide Put, Blank, RoundUp;
  }

  lemma LoadedAligned(p: nat, mem: seq<byte>, start: nat, d: seq<byte>)
    requires p > 0 && Aligned(p, start + |d|) && start + |d| <= |mem|
    ensures Loaded(p, mem, start, d) == Put(mem, start, d)
  {
    assert d + Blank(0) == d;
  }

  /** One page of a load, as `CommitPage` leaves it. */
  lemma LoadedPage(p: nat, mem: seq<byte>, b: nat, data: seq<byte>)
    requires p > 0 && Aligned(p, b) && b + p <= |mem| && 0 < |data| <= p
    ensures RoundUp(p, b + |data|) == b + p
    ensures Loaded(p, mem, b, data) == Put(mem, b, data + Blank(p - |data|))
  {
    if |data| == p {
      AlignedSum(p, b, p);
    } else {
      BaseOfPage(p, b, b + |data|);
    }
  }

  lemma LoadedNothing(p: nat, mem: seq<byte>, start: nat)
    requires p > 0 && Aligned(p, start) && start <= |mem|
    ensures Loaded(p, mem, start, []) == mem
  {
    assert [] + Blank(0) == Blank(0);
  }

  /** Flash with `data` programmed from `start` and nothing pending. */
  function Committed(f: Flash, start: nat, data: seq<byte>): Flash {
    f.(mem := Loaded(f.Page(), f.mem, start, data), buf := Blank(f.Page()))
  }

  /** One more word of a load whose page at `start + c` is open. */
  lemma FillOn(f: Flash, g: Flash, start: nat, c: nat, data: seq<byte>, lo: byte, hi: byte)
    requires c <= |data| < c + f.Page()
    requires Filling(Committed(f, start, data[..c]), g, start + c, data[c..])
    ensures var data' := data + [lo, hi];
            Filling(Committed(f, start, data'[..c]), Fill(g, start + |data|, Word(lo, hi)), start + c, data'[c..])
  {
    var prefix := Committed(f, start, data[..c]);
    assert prefix.Page() == f.Page();
    hide Filling, Fill, Word, Committed;
    FillStep(prefix, g, start + c, data[c..], lo, hi);
    SplitAppend(data, c, [lo, hi]);
  }

  /** Opening the next page of a load that ends on a page boundary. */
  lemma OpenPage(f: Flash, start: nat, data: seq<byte>)
    requires Aligned(f.Page(), start + |data|) && start + |data| < |f.mem|
    ensures Filling(Committed(f, start, data[..|data|]), Erase(Committed(f, start, data), start + |data|),
                    start + |data|, data[|data|..])
  {
    hide Filling, Erase, Loaded, Base;
    assert data[..|data|] == data && data[|data|..] == [];
    StartFilling(Committed(f, start, data), start + |data|);
  }

  /** Writing the last, possibly part-filled page of a load commits the whole load. */
  lemma PageDone(f: Flash, g: Flash, start: nat, c: nat, data: seq<byte>)
    requires Aligned(f.Page(), start + c) && start + c + f.Page() <= |f.mem|
    requires c < |data| <= c + f.Page()
    requires Filling(Committed(f, start, data[..c]), g, start + c, data[c..])
    ensures RoundUp(f.Page(), start + |data|) == start + c + f.Page()
    ensures Write(g, start + c) == Committed(f, start, data)
  {
    hide Put, Write, Programmed, Loaded, RoundUp;
    var p := f.Page();
    var prefix := Committed(f, start, data[..c]);
    CommitPage(prefix, g, start + c, data[c..]);
    LoadedPage(p, prefix.mem, start + c, data[c..]);
    LoadedAppend(p, f.mem, start, data[..c], data[c..]);
    assert data[..c] + data[c..] == data;
  }

  lemma CommittedHolds(f: Flash, a: nat, payload: seq<byte>)
    requires Aligned(f.Page(), a) && a + |payload| <= |f.mem|
    ensures Committed(f, a, payload).mem[a..a + |payload|] == payload
  {
    RoundUpBelow(f.Page(), a + |payload|, |f.mem|);
  }

  // ---- Filling from the middle of a page --------------------------------------

  /** Which byte of the data lands at offset `j` when filling starts at offset `e`. */
  function Source(p: nat, e: nat, j: nat): nat
    requires e < p
  {
    if j >= e then j - e else j + p - e
  }

  /** A page with `d` put in from offset `e` on, going on at its start, and 0xFF elsewhere. */
  function Wrapped(p: nat, e: nat, d: seq<byte>): (page: seq<byte>)
    requires e < p
    ensures |page| == p
  {
    seq<byte>(p, j requires 0 <= j < p => if Source(p, e, j) < |d| then d[Source(p, e, j)] else 255)
  }

  lemma WrappedStep(p: nat, e: nat, d: seq<byte>, s: nat, lo: byte, hi: byte)
    requires e < p && e % 2 == 0 && p % 2 == 0 && |d| < p && |d| % 2 == 0
    requires s == if e + |d| < p then e + |d| else e + |d| - p
    ensures s + 1 < p && Wrapped(p, e, d)[s := lo][s + 1 := hi] == Wrapped(p, e, d + [lo, hi])
  {
  }

  lemma WrappedNothing(p: nat, e: nat)
    requires e < p
    ensures Wrapped(p, e, []) == Blank(p)
  {
  }

  // ---- Chip erase -------------------------------------------------------------

  /** Erase the application section page by page from `a` on. */
  function EraseFrom(f: Flash, boot: nat, a: nat): (g: Flash)
    ensures g.Page() == f.Page() && |g.mem| == |f.mem|
    decreases boot - a
  {
    if a >= boot then f else EraseFrom(Write(Erase(f, a), a), boot, a + f.Page())
  }

  /** The erase loop of the DFU and CDC bootloaders. */
  method EraseSection(f: Flash, boot: nat) returns (g: Flash)
    ensures g == EraseFrom(f, boot, 0)
  {
    hide Erase, Write;
    g := f;
    var a: nat := 0;
    while a < boot
      invariant g.Page() == f.Page() && EraseFrom(g, boot, a) == EraseFrom(f, boot, 0)
      decreases boot - a
    {
      g := Erase(g, a);
      g := Write(g, a);
      a := a + g.Page();
    }
  }

  /** Erasing and writing back a blank buffer leaves the page erased. */
  lemma ErasePage(f: Flash, a: nat)
    requires BufferBlank(f) && Aligned(f.Page(), a) && a < |f.mem|
    ensures a + f.Page() <= |f.mem|
    ensures Write(Erase(f, a), a) == f.(mem := Put(f.mem, a, Blank(f.Page())))
  {
    hide Put, Erase, Write;
    AlignedGap(f.Page(), a, |f.mem|);
    StartFilling(f, a);
    CommitPage(f, Erase(f, a), a, []);
    assert [] + Blank(f.Page()) == Blank(f.Page());
  }

  /** Chip erase blanks everything from `a` to BOOT_START_ADDR and nothing else. */
  lemma {:induction false} EraseAll(f: Flash, boot: nat, a: nat)
    requires BufferBlank(f) && Aligned(f.Page(), a) && Aligned(f.Page(), boot) && boot <= |f.mem|
    ensures var g := EraseFrom(f, boot, a);
            && BufferBlank(g)
            && forall i :: 0 <= i < |f.mem| ==> g.mem[i] == if a <= i < boot then 255 else f.mem[i]
    decreases boot - a
  {
    if a < boot {
      hide Write, Erase;
      ErasePage(f, a);
      AlignedSum(f.Page(), a, f.Page());
      AlignedGap(f.Page(), a, boot);
      EraseAll(Write(Erase(f, a), a), boot, a + f.Page());
    }
  }

  // ---- EEPROM -----------------------------------------------------------------

  /** eeprom_read_byte; addresses beyond the end read as 0xFF and store nothing. */
  function EepromByte(e: seq<byte>, a: nat): byte {
    if a < |e| then e[a] else 255
  }

  /** eeprom_update_byte. */
  function StoreEeprom(e: seq<byte>, a: nat, b: byte): (r: seq<byte>)
    ensures |r| == |e|
  {
    if a < |e| then e[a := b] else e
  }
}
