/**
 Records of the Intel Hexadecimal Object File Format (Rev. A, "General Record
 Format", "Data Record" and "End of File Record") as text.
 */
module IntelHex {
  import opened Basics

  const DATA: byte := 0
  const END_OF_FILE: byte := 1
  const EXTENDED_SEGMENT: byte := 2
  const EXTENDED_LINEAR: byte := 4

  /** Upper-case hexadecimal digit for a nibble. */
  function HexDigit(n: nat): char
    requires n < 16
  {
    if n < 10 then ('0' as int + n) as char else ('A' as int + n - 10) as char
  }

  function HexByte(b: byte): (t: string)
    ensures |t| == 2
  {
    [HexDigit(b / 16), HexDigit(b % 16)]
  }

  function HexBytes(bs: seq<byte>): (t: string)
    ensures |t| == 2 * |bs|
  {
    if bs == [] then [] else HexByte(bs[0]) + HexBytes(bs[1..])
  }

  lemma {:induction false} HexBytesAppend(xs: seq<byte>, ys: seq<byte>)
    ensures HexBytes(xs + ys) == HexBytes(xs) + HexBytes(ys)
  {
    if xs == [] {
      assert xs + ys == ys;
    } else {
      assert (xs + ys)[1..] == xs[1..] + ys;
      HexBytesAppend(xs[1..], ys);
    }
  }

  function Sum(bs: seq<byte>): nat {
    if bs == [] then 0 else Sum(bs[..|bs| - 1]) + bs[|bs| - 1]
  }

  lemma SumEmpty()
    ensures Sum([]) == 0
  {
  }

  lemma SumSnoc(bs: seq<byte>, b: byte)
    ensures Sum(bs + [b]) == Sum(bs) + b
  {
    assert (bs + [b])[..|bs|] == bs;
  }

  lemma {:induction false} SumAppend(xs: seq<byte>, ys: seq<byte>)
    ensures Sum(xs + ys) == Sum(xs) + Sum(ys)
  {
    if ys == [] {
      assert xs + ys == xs;
    } else {
      assert (xs + ys)[..|xs + ys| - 1] == xs + ys[..|ys| - 1];
      SumAppend(xs, ys[..|ys| - 1]);
    }
  }

  /** The byte that makes a record sum to zero modulo 256. */
  function CheckByte(bs: seq<byte>): (c: byte)
    ensures (Sum(bs) + c) % 256 == 0
  {
    (256 - Sum(bs) % 256) % 256
  }

  datatype RecordFields = Record(addr: nat, kind: byte, data: seq<byte>)

  type Record = r: RecordFields | r.addr < 0x10000 && |r.data| < 256 witness Record(0, 0, [])

  function Fields(r: Record): (bs: seq<byte>)
    ensures |bs| == 4 + |r.data|
  {
    [|r.data|, r.addr / 256, r.addr % 256, r.kind] + r.data
  }

  /** A record as it stands in a file, without its line ending. */
  function Text(r: Record): string {
    [':'] + HexBytes(Fields(r) + [CheckByte(Fields(r))])
  }

  function Texts(rs: seq<Record>): seq<string> {
    if rs == [] then [] else [Text(rs[0])] + Texts(rs[1..])
  }

  /** Data records that hold `chunks` one after the other from address `at` on. */
  function DataRecords(at: nat, chunks: seq<seq<byte>>): (rs: seq<Record>)
    requires at + |Flatten(chunks)| <= 0x10000
    requires forall d :: d in chunks ==> 0 < |d| < 256
    ensures |rs| == |chunks|
    decreases chunks
  {
    if chunks == [] then []
    else
      assert Flatten(chunks) == chunks[0] + Flatten(chunks[1..]);
      [Record(at, DATA, chunks[0])] + DataRecords(at + |chunks[0]|, chunks[1..])
  }
}
