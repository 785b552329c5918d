/**
 Programming over DFU from an address inside a page. Words are counted from the start
 address, so what is written at a time is a page's worth of payload that begins in the
 middle of a page, and the part beyond the end of that page goes to its start.
 */
module DfuOffset {
  import opened Avr
  import opened Basics
  import opened Bits
  import opened Dfu
  import opened DfuProgram
  import opened Usb

  // ---- What the loop leaves ---------------------------------------------------

  /** Each page from `b` on with a page's worth of the payload put in from offset `o` on. */
  function Revolved(p: nat, mem: seq<byte>, b: nat, o: nat, payload: seq<byte>): (m: seq<byte>)
    requires o < p
    ensures |m| == |mem|
    decreases |payload|
  {
    if payload == [] || b + p > |mem| then mem
    else if |payload| <= p then Put(mem, b, Wrapped(p, o, payload))
    else Revolved(p, Put(mem, b, Wrapped(p, o, payload[..p])), b + p, o, payload[p..])
  }

  lemma RevolvedPage(p: nat, mem: seq<byte>, b: nat, o: nat, part: seq<byte>, rest: seq<byte>)
    requires o < p == |part| && b + p <= |mem| && rest != []
    ensures Revolved(p, mem, b, o, part + rest) == Revolved(p, Put(mem, b, Wrapped(p, o, part)), b + p, o, rest)
  {
    hide Wrapped, Put;
    assert (part + rest)[..p] == part && (part + rest)[p..] == rest;
  }

  /** The page at `b` is erased, and `part` is in the buffer from offset `o` on. */
  predicate Wrapping(g: Flash, mem: seq<byte>, b: nat, o: nat, part: seq<byte>) {
    var p := g.Page();
    && Aligned(p, b) && Aligned(p, |mem|) && b + p <= |mem| && o < p && o % 2 == 0
    && g.mem == Put(mem, b, Blank(p)) && g.buf == Wrapped(p, o, part)
  }

  lemma WrappingStep(g: Flash, mem: seq<byte>, b: nat, o: nat, part: seq<byte>, lo: byte, hi: byte)
    requires Wrapping(g, mem, b, o, part) && |part| < g.Page() && |part| % 2 == 0
    ensures Wrapping(Fill(g, b + o + |part|, Word(lo, hi)), mem, b, o, part + [lo, hi])
  {
    hide Base, Wrapped, Put, Lo, Hi, Word, Blank;
    var p, x := g.Page(), b + o + |part|;
    var s := if o + |part| < p then o + |part| else o + |part| - p;
    WordParts(lo, hi);
    OffsetOf(p, b, o + |part|);
    EvenOffset(o, |part|, p);
    WrappedStep(p, o, part, s, lo, hi);
  }

  lemma OffsetOf(p: nat, b: nat, n: nat)
    requires (p == 128 || p == 256) && Aligned(p, b) && n < 2 * p
    ensures b + n - Base(p, b + n) == if n < p then n else n - p
  {
    if n < p {
      BaseOfPage(p, b, b + n);
    } else {
      AlignedSum(p, b, p);
      BaseOfPage(p, b + p, b + n);
    }
  }

  lemma EvenOffset(o: nat, n: nat, p: nat)
    requires o % 2 == 0 && n % 2 == 0 && (p == 128 || p == 256)
    ensures (o + n) % 2 == 0 && (o + n >= p ==> (o + n - p) % 2 == 0)
  {
  }

  lemma WrappingWritten(g: Flash, mem: seq<byte>, b: nat, o: nat, part: seq<byte>)
    requires Wrapping(g, mem, b, o, part)
    ensures Write(g, b + o) == Flash(Put(mem, b, Wrapped(g.Page(), o, part)), Blank(g.Page()))
  {
    hide Base, Wrapped, Put, Programmed;
    var p := g.Page();
    BaseOfPage(p, b, b + o);
    var page := Wrapped(p, o, part);
    assert page + Blank(0) == page;
    CommitPage(Flash(mem, Blank(p)), g, b, page);
    assert Write(g, b + o) == Write(g, b);
  }

  lemma WrappingNext(f: Flash, b: nat, o: nat)
    requires BufferBlank(f) && Aligned(f.Page(), b) && o < f.Page() && o % 2 == 0 && b + o < |f.mem|
    ensures Wrapping(Erase(f, b + o), f.mem, b, o, [])
  {
    hide Base, Put;
    var p := f.Page();
    BaseOfPage(p, b, b + o);
    AlignedGap(p, b, |f.mem|);
    WrappedNothing(p, o);
  }

  /** The programming loop, from any point on. */
  lemma {:induction false} ProgramWordsWraps(g: Flash, q: OutPipe, mem: seq<byte>, b: nat, o: nat, part: seq<byte>,
                                             rest: seq<byte>, extra: seq<byte>)
    requires Wrapping(g, mem, b, o, part) && |part| < g.Page() && |part| % 2 == 0
    requires rest != [] && |rest| % 2 == 0 && b + o + |part| + |rest| <= |mem|
    requires EvenPackets(q) && Stream(q) == rest + extra
    ensures Aligned(g.Page(), |mem|)
    ensures ProgramWords(g, q, |rest| / 2, b + o + |part|, b + o, |part| / 2) ==
            (true, Flash(Revolved(g.Page(), mem, b, o, part + rest), Blank(g.Page())))
    decreases |rest|
  {
    hide Fill, Write, Erase, Stream, EvenPackets, ProgramWords, Wrapping, Refill, Peek16, Drop16, Revolved, Wrapped,
         Blank;
    var p := g.Page();
    var lo, hi, rest' := rest[0], rest[1], rest[2..];
    var part' := part + [lo, hi];
    assert rest + extra == [lo, hi] + (rest' + extra);
    WordRead(q, lo, hi, rest' + extra);
    var r := Refill(q).value;
    var x := b + o + |part|;
    WrappingBounds(g, mem, b, o, part);
    HalfCounts(|part|, |rest|, p);
    ProgramWordsStep(g, q, |rest| / 2, x, b + o, |part| / 2, r);
    WrappingStep(g, mem, b, o, part, lo, hi);
    var h := Fill(g, x, Word(lo, hi));
    Assoc(part, [lo, hi], rest');
    assert rest == [lo, hi] + rest';
    if rest' == [] {
      assert part' + rest' == part';
      WrappingWritten(h, mem, b, o, part');
      RevolvedLast(p, mem, b, o, part');
    } else if |part'| == p {
      WrappingWritten(h, mem, b, o, part');
      var f := Flash(Put(mem, b, Wrapped(p, o, part')), Blank(p));
      NextBase(p, b);
      WrappingNext(f, b + p, o);
      RevolvedPage(p, mem, b, o, part', rest');
      ProgramWordsWraps(Erase(f, b + p + o), Drop16(r), f.mem, b + p, o, [], rest', extra);
      assert [] + rest' == rest';
    } else {
      ProgramWordsWraps(h, Drop16(r), mem, b, o, part', rest', extra);
    }
  }

  lemma NextBase(p: nat, b: nat)
    requires p > 0 && Aligned(p, b)
    ensures Aligned(p, b + p)
  {
    AlignedSum(p, b, p);
  }

  lemma RevolvedLast(p: nat, mem: seq<byte>, b: nat, o: nat, part: seq<byte>)
    requires o < p && 0 < |part| <= p && b + p <= |mem|
    ensures Revolved(p, mem, b, o, part) == Put(mem, b, Wrapped(p, o, part))
  {
    hide Wrapped, Put;
  }

  lemma WrappingBounds(g: Flash, mem: seq<byte>, b: nat, o: nat, part: seq<byte>)
    requires Wrapping(g, mem, b, o, part)
    ensures var p := g.Page();
            Aligned(p, b) && Aligned(p, |mem|) && b + p <= |mem| && o < p && o % 2 == 0 && p % 2 == 0
  {
  }

  lemma HalfCounts(n: nat, k: nat, p: nat)
    requires n % 2 == 0 && k % 2 == 0 && k > 0 && p % 2 == 0 && n < p
    ensures (n + 2) / 2 == n / 2 + 1 && (k - 2) / 2 == k / 2 - 1 && (n + 2) % 2 == 0 && (k - 2) % 2 == 0
    ensures n / 2 < p / 2 && (n / 2 + 1 == p / 2 <==> n + 2 == p) && (k / 2 == 1 <==> k == 2) && n + 2 <= p && k >= 2
  {
  }

  // ---- The request ------------------------------------------------------------

  lemma OffsetReceived(d: Device, e: Device, b: nat, o: nat, payload: seq<byte>, filler: seq<byte>, packets: Packets,
                       suffix: seq<byte>)
    requires BufferBlank(d.flash) && |filler| == FILLER_BYTES_SIZE
    requires payload != [] && |payload| % 2 == 0 && e.startAddr + |payload| - 1 == e.endAddr && |payload| < U16
    requires e.data[0] == 0 && e.startAddr % ENDPOINT_SIZE == 0
    requires FlashAddress(e, e.startAddr) == b + o && e.flash == Erase(d.flash, b + o)
    requires Aligned(d.flash.Page(), b) && o < d.flash.Page() && o % 2 == 0 && b + o + |payload| <= |d.flash.mem|
    requires EvenPackets(OutPipe([], packets)) && Flatten(packets) == payload + suffix
    ensures ReceiveFirmware(e, OutPipe(filler, packets)) ==
            e.(flash := Flash(Revolved(d.flash.Page(), d.flash.mem, b, o, payload), Blank(d.flash.Page())),
               startAddr := e.endAddr)
  {
    hide ProgramWords, Erase, Discard, Revolved, Wrapping, Base;
    var p := OutPipe([], packets);
    DiscardBank(OutPipe(filler, packets));
    DiscardNothing(p);
    assert Stream(p) == payload + suffix;
    WrappingNext(d.flash, b, o);
    ErasedPage(d.flash, b + o);
    ProgramWordsWraps(e.flash, p, d.flash.mem, b, o, [], payload, suffix);
    assert [] + payload == payload;
    assert BytesRemaining(e) == |payload|;
  }

  lemma ErasedPage(f: Flash, a: nat)
    ensures Erase(f, a).Page() == f.Page()
  {
  }

  /** The place of an address in its page. */
  function Offset(p: nat, a: nat): (o: nat)
    requires p > 0
    ensures o < p && Base(p, a) + o == a
  {
    a - Base(p, a)
  }

  lemma StartOffset(p: nat, page64: nat, start: nat)
    requires (p == 128 || p == 256) && start % ENDPOINT_SIZE == 0
    ensures Offset(p, page64 * 0x10000 + start) % 2 == 0
  {
    hide Base;
    var a := page64 * 0x10000 + start;
    EvenPages(p, a);
    EvenBank(page64);
    EvenStart(start);
    EvenSum(page64 * 0x10000, start);
    EvenDifference(Base(p, a), a);
  }

  lemma EvenBank(page64: nat)
    ensures page64 * 0x10000 % 2 == 0
  {
  }

  lemma EvenStart(start: nat)
    requires start % 32 == 0
    ensures start % 2 == 0
  {
    assert start == 2 * (16 * (start / 32));
    DivModUnique(2, start, 16 * (start / 32), 0);
  }

  /** A payload sent to a device that is ready for it, from a start that is a multiple of the packet size. */
  predicate Offered(d: Device, start: nat, payload: seq<byte>, filler: seq<byte>, packets: Packets,
                    suffix: seq<byte>, wLength: nat)
  {
    && Ready(d) && payload != [] && |payload| % 2 == 0 && |payload| < U16 && start + |payload| <= U16
    && start % ENDPOINT_SIZE == 0 && FlashAddress(d, start) + |payload| <= |d.flash.mem|
    && |filler| == FILLER_BYTES_SIZE && 6 < wLength < U16
    && EvenPackets(OutPipe([], packets)) && Flatten(packets) == payload + suffix
  }

  /** The device afterwards. */
  function Revolving(d: Device, start: nat, payload: seq<byte>, wLength: nat): Device
    requires payload != [] && start + |payload| <= U16 && 6 < wLength
  {
    var end, p, a := start + |payload| - 1, d.flash.Page(), FlashAddress(d, start);
    d.(dataSize := wLength - 6, command := COMMAND_PROG_START, data := Range(0, start, end),
       startAddr := end, endAddr := end, state := DnloadIdle,
       flash := Flash(Revolved(p, d.flash.mem, Base(p, a), Offset(p, a), payload), Blank(p)))
  }

  /**
   Programming from any start that is a multiple of the packet size, any even payload, any even
   packets: every page from that of the start on holds its share of the payload, turned by the
   offset of the start, with 0xFF where the payload has ended; nothing else changes.
   */
  lemma OffsetPrograms(part: Part, d: Device, start: nat, payload: seq<byte>, filler: seq<byte>, packets: Packets,
                       suffix: seq<byte>, wLength: nat)
    requires Offered(d, start, payload, filler, packets, suffix, wLength)
    ensures Handle(part, d, ProgramRequest(0, start, start + |payload| - 1, filler, packets, wLength)) ==
            (Revolving(d, start, payload, wLength), [])
  {
    hide Erase, Revolved, ReceiveFirmware, Handle, Base, Offset, Range, Blank;
    var end, p, a := start + |payload| - 1, d.flash.Page(), FlashAddress(d, start);
    ProgramHeader(part, d, start, end, filler, packets, wLength);
    BaseAligned(p, a);
    StartOffset(p, d.page64, start);
    assert Range(0, start, end)[0] == 0 by { FirstParameter(start, end); }
    var e := d.(dataSize := wLength - 6, command := COMMAND_PROG_START, data := Range(0, start, end),
                startAddr := start, endAddr := end, state := DnloadIdle, flash := Erase(d.flash, a));
    OffsetReceived(d, e, Base(p, a), Offset(p, a), payload, filler, packets, suffix);
  }

  lemma FirstParameter(start: nat, end: nat)
    ensures Range(0, start, end)[0] == 0
  {
  }

  // ---- When the payload is in its place ---------------------------------------

  lemma {:induction false} RevolvedBelow(p: nat, mem: seq<byte>, b: nat, o: nat, payload: seq<byte>, x: nat)
    requires o < p && x < |mem| && x < b
    ensures Revolved(p, mem, b, o, payload)[x] == mem[x]
    decreases |payload|
  {
    hide Wrapped;
    if payload != [] && b + p <= |mem| && |payload| > p {
      RevolvedBelow(p, Put(mem, b, Wrapped(p, o, payload[..p])), b + p, o, payload[p..], x);
    }
  }

  /** The first page. */
  lemma RevolvedFirst(p: nat, mem: seq<byte>, b: nat, o: nat, payload: seq<byte>, j: nat)
    requires o < p && payload != [] && b + p <= |mem| && j < p
    ensures Revolved(p, mem, b, o, payload)[b + j] ==
            if Source(p, o, j) < |payload| then payload[Source(p, o, j)] else 255
  {
    if |payload| > p {
      RevolvedBelow(p, Put(mem, b, Wrapped(p, o, payload[..p])), b + p, o, payload[p..], b + j);
    }
  }

  /** What is found where the payload's byte `i` belongs, if that byte went to the start of its page. */
  function Instead(p: nat, mem: seq<byte>, a: nat, payload: seq<byte>, i: nat): byte
    requires p > 0 && i < |payload| && a + |payload| <= |mem|
  {
    if i + p < |payload| then payload[i + p]
    else if i / p * p + p < |payload| then 255
    else mem[a + i]
  }

  lemma InsteadFirst(p: nat, mem: seq<byte>, a: nat, payload: seq<byte>, i: nat)
    requires (p == 128 || p == 256) && i < |payload| && a + |payload| <= |mem| && i < p
    ensures Instead(p, mem, a, payload, i) ==
            if i + p < |payload| then payload[i + p] else if p < |payload| then 255 else mem[a + i]
    ensures i % p == i
  {
  }

  lemma InsteadLater(p: nat, mem: seq<byte>, mem': seq<byte>, a: nat, payload: seq<byte>, i: nat)
    requires (p == 128 || p == 256) && p <= i < |payload|
    requires a + |payload| <= |mem| == |mem'| && mem'[a + i] == mem[a + i]
    ensures Instead(p, mem', a + p, payload[p..], i - p) == Instead(p, mem, a, payload, i)
    ensures (i - p) % p == i % p
  {
    PageLater(p, i);
  }

  lemma {:induction false} RevolvedAt(p: nat, mem: seq<byte>, b: nat, o: nat, payload: seq<byte>, i: nat)
    requires (p == 128 || p == 256) && o < p && i < |payload| && b + o + |payload| <= |mem|
    requires Aligned(p, b) && Aligned(p, |mem|)
    ensures Revolved(p, mem, b, o, payload)[b + o + i] ==
            if o + i % p < p then payload[i] else Instead(p, mem, b + o, payload, i)
    decreases |payload|
  {
    hide Base, Revolved, Wrapped, Instead;
    AlignedGap(p, b, |mem|);
    if i >= p {
      var first, rest := payload[..p], payload[p..];
      assert payload == first + rest;
      RevolvedPage(p, mem, b, o, first, rest);
      NextBase(p, b);
      var mem' := Put(mem, b, Wrapped(p, o, first));
      RevolvedAt(p, mem', b + p, o, rest, i - p);
      InsteadLater(p, mem, mem', b + o, payload, i);
    } else {
      InsteadFirst(p, mem, b + o, payload, i);
      if o + i < p {
        RevolvedFirst(p, mem, b, o, payload, o + i);
      } else {
        RevolvedSecond(p, mem, b, o, payload, i);
      }
    }
  }

  lemma RevolvedSecond(p: nat, mem: seq<byte>, b: nat, o: nat, payload: seq<byte>, i: nat)
    requires (p == 128 || p == 256) && o < p && i < |payload| && b + o + |payload| <= |mem|
    requires Aligned(p, b) && Aligned(p, |mem|) && i < p <= o + i
    ensures Revolved(p, mem, b, o, payload)[b + o + i] ==
            if i + p < |payload| then payload[i + p] else if p < |payload| then 255 else mem[b + o + i]
  {
    hide Base, Revolved, Wrapped;
    AlignedGap(p, b, |mem|);
    if |payload| <= p {
      RevolvedLast(p, mem, b, o, payload);
    } else {
      var first, rest := payload[..p], payload[p..];
      assert payload == first + rest;
      RevolvedPage(p, mem, b, o, first, rest);
      NextBase(p, b);
      AlignedGap(p, b + p, |mem|);
      RevolvedFirst(p, Put(mem, b, Wrapped(p, o, first)), b + p, o, rest, o + i - p);
    }
  }

  lemma PageLater(p: nat, i: nat)
    requires (p == 128 || p == 256) && i >= p
    ensures (i - p) % p == i % p && (i - p) / p == i / p - 1
  {
  }

  /** The bytes that went to the start of their page are found where they belong all the same. */
  predicate TurnHarmless(p: nat, mem: seq<byte>, a: nat, o: nat, payload: seq<byte>)
    requires p > 0 && a + |payload| <= |mem|
  {
    forall i :: 0 <= i < |payload| && o + i % p >= p ==> payload[i] == Instead(p, mem, a, payload, i)
  }

  lemma InPlaceIff(p: nat, mem: seq<byte>, b: nat, o: nat, payload: seq<byte>)
    requires (p == 128 || p == 256) && o < p && b + o + |payload| <= |mem|
    requires Aligned(p, b) && Aligned(p, |mem|)
    ensures var a := b + o;
            Revolved(p, mem, b, o, payload)[a..a + |payload|] == payload <==> TurnHarmless(p, mem, a, o, payload)
  {
    hide Revolved, Instead, Aligned;
    var a, n := b + o, |payload|;
    var m := Revolved(p, mem, b, o, payload);
    forall i | 0 <= i < n
      ensures m[a..a + n][i] == if o + i % p < p then payload[i] else Instead(p, mem, a, payload, i)
    {
      RevolvedAt(p, mem, b, o, payload, i);
    }
    if TurnHarmless(p, mem, a, o, payload) {
      assert forall i :: 0 <= i < n ==> m[a..a + n][i] == payload[i];
    }
  }

  /** A payload that ends inside the page it starts in is in its place, with 0xFF around it. */
  lemma FitsPage(p: nat, mem: seq<byte>, b: nat, o: nat, payload: seq<byte>)
    requires (p == 128 || p == 256) && payload != [] && o + |payload| <= p && b + p <= |mem|
    requires Aligned(p, b) && Aligned(p, |mem|)
    ensures Revolved(p, mem, b, o, payload) ==
            Put(mem, b, Blank(o) + payload + Blank(p - o - |payload|))
  {
    hide Base;
    RevolvedLast(p, mem, b, o, payload);
    assert Wrapped(p, o, payload) == Blank(o) + payload + Blank(p - o - |payload|);
  }

  /** One that goes on beyond the page it ends in leaves its last byte out, whatever was there. */
  lemma LastByteMissed(p: nat, mem: seq<byte>, b: nat, o: nat, payload: seq<byte>)
    requires (p == 128 || p == 256) && o < p && payload != [] && b + o + |payload| <= |mem|
    requires Aligned(p, b) && Aligned(p, |mem|) && o + (|payload| - 1) % p >= p
    ensures var last := b + o + |payload| - 1; Revolved(p, mem, b, o, payload)[last] == mem[last]
  {
    hide Revolved, Base;
    RevolvedAt(p, mem, b, o, payload, |payload| - 1);
    PageEnd(p, |payload| - 1);
  }

  lemma PageEnd(p: nat, i: nat)
    requires p == 128 || p == 256
    ensures i / p * p + p >= i + 1
  {
  }

  /**
   After programming from a packet boundary the payload is where it belongs if and only if the
   turn is harmless: in particular if it ends inside the page it starts in.
   */
  lemma OffsetInPlaceIff(part: Part, d: Device, start: nat, payload: seq<byte>, filler: seq<byte>, packets: Packets,
                         suffix: seq<byte>, wLength: nat)
    returns (m: seq<byte>)
    requires Offered(d, start, payload, filler, packets, suffix, wLength)
    ensures m == Handle(part, d, ProgramRequest(0, start, start + |payload| - 1, filler, packets, wLength)).0.flash.mem
    ensures |m| == |d.flash.mem|
    ensures var p, a, n := d.flash.Page(), FlashAddress(d, start), |payload|;
            && (m[a..a + n] == payload <==> TurnHarmless(p, d.flash.mem, a, Offset(p, a), payload))
            && (Offset(p, a) + n <= p ==> m[a..a + n] == payload)
  {
    hide Handle, Revolved, Base, TurnHarmless, Offset;
    var p, a := d.flash.Page(), FlashAddress(d, start);
    OffsetPrograms(part, d, start, payload, filler, packets, suffix, wLength);
    m := Revolving(d, start, payload, wLength).flash.mem;
    BaseAligned(p, a);
    InPlaceIff(p, d.flash.mem, Base(p, a), Offset(p, a), payload);
    if Offset(p, a) + |payload| <= p {
      NoTurn(p, d.flash.mem, a, Offset(p, a), payload);
    }
  }

  lemma NoTurn(p: nat, mem: seq<byte>, a: nat, o: nat, payload: seq<byte>)
    requires p > 0 && o + |payload| <= p && a + |payload| <= |mem|
    ensures TurnHarmless(p, mem, a, o, payload)
  {
    hide Instead;
    forall i | 0 <= i < |payload|
      ensures i % p == i
    {
      SmallMod(p, i);
    }
  }

  lemma SmallMod(p: nat, i: nat)
    requires i < p
    ensures i % p == i
  {
    DivModUnique(p, i, 0, i);
  }
}
