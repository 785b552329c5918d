/**
 hid_bootloader_cli's reader and programming loop over its fixed-size arrays,
 proved against the functions of HidHost.
 */
module HidHostProgram {
  import opened Basics
  import opened Bits
  import opened IntelHex
  import opened HidHost

  function Contents(image: seq<byte>, mask: seq<byte>): Cells
    requires |image| == |mask|
  {
    map a: nat | a < |image| && mask[a] != 0 :: image[a]
  }

  lemma ContentsUpdate(image: seq<byte>, mask: seq<byte>, i: nat, b: byte)
    requires |image| == |mask| && i < |image|
    ensures Contents(image[i := b], mask[i := 1]) == Contents(image, mask)[i := b]
  {
  }

  lemma PlaceSnoc(m: Cells, at: nat, bytes: seq<byte>, b: byte)
    ensures (m + Place(at, bytes))[at + |bytes| := b] == m + Place(at, bytes + [b])
  {
  }

  /** `done` has been read from column 9 on, and the rest of the data follows. */
  predicate Scanned(line: string, len: nat, done: seq<byte>) {
    && |done| <= len
    && ScanBytes(line, 9, len) == done + ScanBytes(line, 9 + 2 * |done|, len - |done|)
  }

  lemma ScannedStep(line: string, len: nat, done: seq<byte>, b: byte)
    requires Scanned(line, len, done) && |done| < len && Scan2(line, 9 + 2 * |done|) == Some(b)
    ensures Scanned(line, len, done + [b])
  {
    var rest := ScanBytes(line, 9 + 2 * |done| + 2, len - |done| - 1);
    assert ScanBytes(line, 9 + 2 * |done|, len - |done|) == [b] + rest;
    Assoc(done, [b], rest);
  }

  lemma ScannedEnd(line: string, len: nat, done: seq<byte>)
    requires Scanned(line, len, done) && (|done| == len || Scan2(line, 9 + 2 * |done|).None?)
    ensures ScanBytes(line, 9, len) == done
  {
    assert done + [] == done;
  }

  lemma NothingPlaced(m: Cells, at: nat)
    ensures m + Place(at, []) == m
  {
  }

  lemma ReportsNext(m: Cells, code: nat, block: nat, addr: nat, reboot: bool)
    requires 0 < block && addr < code
    ensures var rest := Reports(m, code, block, addr + block, reboot);
            Reports(m, code, block, addr, reboot) ==
            if Sent(m, addr, block) then [PageName(code, addr) + Block(m, addr, block)] + rest else rest
  {
    hide Block, PageName, Sent;
  }

  lemma ReportsEnd(m: Cells, code: nat, block: nat, addr: nat, reboot: bool)
    requires 0 < block && addr >= code
    ensures Reports(m, code, block, addr, reboot) == if reboot then [BootReport(block)] else []
  {
    hide BootReport;
  }

  class Loader {
    const image: array<byte>
    const mask: array<byte>
    var endRecordSeen: bool
    var byteCount: nat
    var extendedAddr: nat

    ghost predicate Valid()
      reads this, image, mask
    {
      && image != mask && image.Length == mask.Length == MAX_MEMORY_SIZE
      && extendedAddr <= TOP_EXTENSION
      && forall i :: 0 <= i < MAX_MEMORY_SIZE ==> mask[i] == 0 ==> image[i] == 255
    }

    ghost function View(): Host
      requires Valid()
      reads this, image, mask
    {
      Host(Contents(image[..], mask[..]), endRecordSeen, byteCount, extendedAddr)
    }

    constructor ()
      ensures Valid() && fresh(image) && fresh(mask) && View() == EMPTY_HOST
    {
      image := new byte[MAX_MEMORY_SIZE](i => 255);
      mask := new byte[MAX_MEMORY_SIZE](i => 0);
      endRecordSeen, byteCount, extendedAddr := false, 0, 0;
      new;
      assert Contents(image[..], mask[..]) == map[];
    }

    method PutByte(index: nat, b: byte)
      requires Valid() && index < MAX_MEMORY_SIZE
      modifies image, mask
      ensures Valid() && View() == old(View()).(cells := old(View()).cells[index := b])
    {
      ContentsUpdate(image[..], mask[..], index, b);
      image[index] := b;
      mask[index] := 1;
      assert image[..] == old(image[..])[index := b] && mask[..] == old(mask[..])[index := 1];
    }

    /** The data loop of parse_hex_line: how many bytes it stored, and their sum. */
    method StoreBytes(line: string, len: nat, addr: nat) returns (over: bool, num: nat, sum: nat)
      requires Valid() && len < 256 && addr < 0x10000
      requires (addr + extendedAddr + len) % U32 < MAX_MEMORY_SIZE
      modifies image, mask
      ensures Valid()
      ensures var at, bytes, h := (addr + extendedAddr) % U32, ScanBytes(line, 9, len), old(View());
              && over == Overruns(at, bytes)
              && (over ==> View() == h)
              && (!over ==> View() == h.(cells := h.cells + Place(at, bytes)) && num == |bytes| && sum == Sum(bytes))
    {
      hide Scan2, ScanBytes, Sum, Place, Contents;
      over, num, sum := false, 0, 0;
      ghost var at, cells, done := addr + extendedAddr, old(View()).cells, [];
      DataRange(at, len, len);
      NothingPlaced(cells, at);
      SumEmpty();
      assert [] + ScanBytes(line, 9, len) == ScanBytes(line, 9, len);
      while num != len
        invariant num == |done| <= len && Valid() && Scanned(line, len, done) && sum == Sum(done)
        invariant View() == old(View()).(cells := cells + Place(at, done))
        invariant done != [] ==> at + len < MAX_MEMORY_SIZE
        decreases len - num
      {
        var i := Scan2(line, 9 + 2 * num);
        if i.None? {
          break;
        }
        var b: byte := i.value;
        var index := (addr + extendedAddr + num) % U32;
        ScannedStep(line, len, done, b);
        if index >= MAX_MEMORY_SIZE {
          over := true;
          return;
        }
        PlaceSnoc(cells, at, done, b);
        SumSnoc(done, b);
        PutByte(index, b);
        done := done + [b];
        sum := sum + b;
        num := num + 1;
      }
      ScannedEnd(line, len, done);
    }

    /** The data part of parse_hex_line. */
    method StoreData(line: string, len: nat, addr: nat, head: nat) returns (v: Verdict)
      requires Valid() && len < 256 && addr < 0x10000
      requires (addr + extendedAddr + len) % U32 < MAX_MEMORY_SIZE
      modifies image, mask
      ensures Valid()
      ensures var d := DecodeData(extendedAddr, line, len, addr, head);
              var h := old(View());
              if Overruns(d.at, d.bytes) then View() == h && v == Overrun
              else View() == h.(cells := h.cells + Place(d.at, d.bytes)) && v == if d.good then Accepted else Refused
    {
      hide Scan2, ScanBytes, Sum, Place, Contents, Overruns;
      var over, num, sum := StoreBytes(line, len, addr);
      if over {
        return Overrun;
      }
      if num < len {
        return Refused;
      }
      var c := Scan2(line, 9 + 2 * len);
      if c.None? || (head + sum + c.value) % 256 != 0 {
        return Refused;
      }
      return Accepted;
    }

    method ParseHexLine(line: string) returns (v: Verdict)
      requires Valid()
      modifies this, image, mask
      ensures Valid() && (View(), v) == TakeLine(old(View()), line)
    {
      hide Scan2, Scan4, ScanBytes, HeaderSum, Sum, Contents, Place, Overruns;
      if |line| < 11 || line[0] != ':' {
        return Refused;
      }
      var len := Scan2(line, 1);
      if len.None? || |line| < 11 + 2 * len.value {
        return Refused;
      }
      var addr := Scan4(line, 3);
      if addr.None? {
        return Refused;
      }
      var code := Scan2(line, 7);
      if code.None? || (addr.value + extendedAddr + len.value) % U32 >= MAX_MEMORY_SIZE {
        return Refused;
      }
      var sum := HeaderSum(len.value, addr.value, code.value);
      if code.value == DATA {
        byteCount := byteCount + len.value;
        v := StoreData(line, len.value, addr.value, sum);
        return;
      }
      if code.value == END_OF_FILE {
        endRecordSeen := true;
      } else if code.value == EXTENDED_SEGMENT && len.value == 2 {
        var i := ExtendedWord(line, sum);
        if i.Some? {
          extendedAddr := i.value * 16;
        }
      } else if code.value == EXTENDED_LINEAR && len.value == 2 {
        var i := ExtendedWord(line, sum);
        if i.Some? {
          extendedAddr := i.value * 0x10000;
        }
      }
      return Accepted;
    }

    method ReadIntelHex(lines: seq<string>) returns (v: Verdict)
      requires Valid()
      modifies this, image, mask
      ensures Valid() && (View(), v) == TakeLines(EMPTY_HOST, lines)
    {
      byteCount, endRecordSeen, extendedAddr := 0, false, 0;
      var i := 0;
      while i < MAX_MEMORY_SIZE
        invariant 0 <= i <= MAX_MEMORY_SIZE
        invariant forall k :: 0 <= k < i ==> image[k] == 255 && mask[k] == 0
        modifies image, mask
      {
        image[i], mask[i] := 255, 0;
        i := i + 1;
      }
      assert Contents(image[..], mask[..]) == map[];
      var n := 0;
      while n < |lines|
        invariant 0 <= n <= |lines| && Valid() && !endRecordSeen
        invariant TakeLines(View(), lines[n..]) == TakeLines(EMPTY_HOST, lines)
      {
        if lines[n] != [] {
          v := ParseHexLine(lines[n]);
          if v != Accepted || endRecordSeen {
            return;
          }
        }
        n := n + 1;
      }
      return Accepted;
    }

    method BytesWithinRange(begin: int, end: int) returns (found: bool)
      requires Valid()
      ensures found == Within(View().cells, begin, end)
    {
      if begin < 0 || begin >= MAX_MEMORY_SIZE || end < 0 || end >= MAX_MEMORY_SIZE {
        return false;
      }
      var i := begin;
      while i <= end
        invariant begin <= i
        invariant forall a :: begin <= a < i && a <= end ==> a !in View().cells
      {
        if mask[i] != 0 {
          assert i in View().cells;
          return true;
        }
        i := i + 1;
      }
      return false;
    }

    /** Copies a block of the image into `buf`, behind the two bytes of the page name. */
    method GetData(addr: nat, len: nat, buf: array<byte>)
      requires Valid() && buf != image && buf != mask && 2 + len <= buf.Length
      modifies buf
      ensures buf[..2] == old(buf[..2]) && buf[2..2 + len] == Block(View().cells, addr, len)
    {
      hide Contents;
      var i := 0;
      if addr + len >= MAX_MEMORY_SIZE {
        while i < len
          invariant 0 <= i <= len && buf[..2] == old(buf[..2])
          invariant forall k :: 2 <= k < 2 + i ==> buf[k] == 255
        {
          buf[2 + i] := 255;
          i := i + 1;
        }
        return;
      }
      ghost var cells := View().cells;
      while i < len
        invariant 0 <= i <= len && buf[..2] == old(buf[..2])
        invariant forall k :: 2 <= k < 2 + i ==> buf[k] == ImageByte(cells, addr + k - 2)
      {
        CellInArrays(addr + i);
        buf[2 + i] := if mask[addr + i] != 0 then image[addr + i] else 255;
        i := i + 1;
      }
    }

    lemma CellInArrays(a: nat)
      requires Valid() && a < MAX_MEMORY_SIZE
      ensures ImageByte(View().cells, a) == if mask[a] != 0 then image[a] else 255
    {
    }

    /** One report: the page name and the block. */
    method MakeReport(codeSize: nat, blockSize: nat, addr: nat, buf: array<byte>) returns (report: seq<byte>)
      requires Valid() && buf != image && buf != mask && 2 + blockSize <= buf.Length
      modifies buf
      ensures report == PageName(codeSize, addr) + Block(View().cells, addr, blockSize)
    {
      hide Contents, Block;
      if codeSize < 0x10000 {
        buf[0], buf[1] := addr % 256, addr / 256 % 256;
      } else {
        buf[0], buf[1] := addr / 256 % 256, addr / 65536 % 256;
      }
      assert buf[..2] == PageName(codeSize, addr);
      GetData(addr, blockSize, buf);
      report := buf[..2 + blockSize];
      assert report == buf[..2] + buf[2..2 + blockSize];
    }

    /** The programming loop of main: the reports in the order they are written. */
    method Program(codeSize: nat, blockSize: nat, rebootAfterProgramming: bool) returns (reports: seq<seq<byte>>)
      requires Valid() && 0 < blockSize <= 256
      ensures reports == Reports(View().cells, codeSize, blockSize, 0, rebootAfterProgramming)
    {
      hide Contents, Block, Within, PageName, Reports, BootReport;
      var buf := new byte[260](i => 0);
      ghost var m := View().cells;
      var addr: nat := 0;
      reports := [];
      ghost var want := Reports(m, codeSize, blockSize, 0, rebootAfterProgramming);
      assert [] + want == want;
      while addr < codeSize
        invariant Valid() && View().cells == m
        invariant reports + Reports(m, codeSize, blockSize, addr, rebootAfterProgramming) == want
      {
        var used := true;
        if addr > 0 {
          used := BytesWithinRange(addr, addr + blockSize - 1);
        }
        ReportsNext(m, codeSize, blockSize, addr, rebootAfterProgramming);
        if used {
          var report := MakeReport(codeSize, blockSize, addr, buf);
          Assoc(reports, [report], Reports(m, codeSize, blockSize, addr + blockSize, rebootAfterProgramming));
          reports := reports + [report];
        }
        addr := addr + blockSize;
      }
      ReportsEnd(m, codeSize, blockSize, addr, rebootAfterProgramming);
      if rebootAfterProgramming {
        reports := reports + [BootReport(blockSize)];
      } else {
        assert reports + [] == reports;
      }
    }
  }
}
