/** The semantic accessors: `write6` (six masked set-points), `read6`
    (six raw values or three registers split into bytes) and `read96` (the
    80-register tactile block). What `read6` prints is its result here. */
module Accessors {
  import opened Registers
  import opened Modbus

  /** Python's `None` or a value. */
  datatype Option<T> = None | Some(value: T)

  /** `x & 0xFFFF` on an unbounded integer: the low 16 bits, which is the
      remainder modulo 2^16 (negative values wrap, so -1 becomes 0xFFFF). */
  function Low16(x: int): (w: int)
    ensures 0 <= w < 0x1_0000
    ensures (x - w) % 0x1_0000 == 0
  {
    x % 0x1_0000
  }

  /** `x & 0xFF`: the low byte, the remainder modulo 256. */
  function LowByte(x: int): (b: int)
    ensures 0 <= b < 0x100
    ensures (x - b) % 0x100 == 0
  {
    x % 0x100
  }

  /** `(x >> 8) & 0xFF`: the second byte; the shift is floor division by
      256, which Dafny's `/` computes for a positive divisor. */
  function HighByte(x: int): (b: int)
    ensures 0 <= b < 0x100
    ensures LowByte(x) + 0x100 * b == Low16(x)
  {
    var q := x / 0x100;
    var k := q / 0x100;
    assert x == 0x1_0000 * k + (0x100 * (q % 0x100) + x % 0x100);
    q % 0x100
  }

  /** Reading a 16-bit word as two's complement: the inverse of `Low16` on
      the signed 16-bit range. */
  function Signed16(w: int): (x: int)
    requires 0 <= w < 0x1_0000
    ensures -0x8000 <= x < 0x8000
    ensures Low16(x) == w
  {
    if w < 0x8000 then w else w - 0x1_0000
  }

  /** Masking loses nothing a caller can mean: a set-point in the 16-bit
      range is sent unchanged, and any value in the signed 16-bit range,
      the placeholder -1 among them, is recovered from its wire word. */
  lemma Low16RoundTrip(x: int)
    ensures 0 <= x < 0x1_0000 ==> Low16(x) == x
    ensures -0x8000 <= x < 0x8000 ==> Signed16(Low16(x)) == x
    ensures Low16(-1) == 0xFFFF
  {
  }

  /** The byte split of a 16-bit word is lossless: the low byte plus 256
      times the high byte gives the word back. */
  lemma ByteSplitRoundTrip(x: int)
    requires 0 <= x < 0x1_0000
    ensures LowByte(x) + 0x100 * HighByte(x) == x
  {
    assert x / 0x100 < 0x100;
  }

  // ---------------------------------------------------------------- write6

  /** What `write6` does: send one "Write Multiple Registers" request, print
      its usage message for a name it does not accept, or raise an index
      error when fewer than six values are given. */
  datatype WriteOutcome = Sent(request: WriteRequest) | UnknownWriteName | IndexError

  /** `write_register`: the request that goes to the transport. */
  function WriteRegister(address: nat, values: seq<int>): (req: WriteRequest)
    ensures req.address == address && req.values == values
  {
    WriteMultipleRegisters(address, values)
  }

  /** `write6`: for a set-point name, the first six values masked to 16 bits
      and written, in order, at the name's base address. */
  method Write6(name: string, val: seq<int>) returns (out: WriteOutcome)
    ensures out.UnknownWriteName? <==> name !in WriteNames
    ensures out.IndexError? <==> name in WriteNames && |val| < VectorCount
    ensures out.Sent? ==> name in WriteNames && out.request.address == RegDict[name]
    ensures out.Sent? ==> (|out.request.values| == VectorCount &&
              forall i :: 0 <= i < VectorCount ==> out.request.values[i] == Low16(val[i]))
    ensures out.Sent? ==> ValidWrite(out.request)
  {
    if name in WriteNames {
      var valReg: seq<int> := [];
      for i := 0 to VectorCount
        invariant i <= |val|
        invariant |valReg| == i
        invariant forall k :: 0 <= k < i ==> valReg[k] == Low16(val[k])
      {
        if i >= |val| {
          return IndexError;
        }
        valReg := valReg + [Low16(val[i])];
      }
      out := Sent(WriteRegister(RegDict[name], valReg));
    } else {
      out := UnknownWriteName;
    }
  }

  // ----------------------------------------------------------------- read6

  /** What `read6` yields: the values it prints, "no data" after a short
      read, or its usage message for a name it does not accept. */
  datatype ReadOutcome = Values(values: seq<int>) | NoData | UnknownReadName

  /** The status decoding: each register contributes its low byte and then
      its high byte, in register order. */
  function SplitBytes(regs: seq<int>): (bytes: seq<int>)
    ensures |bytes| == 2 * |regs|
  {
    if regs == [] then []
    else
      var last := regs[|regs| - 1];
      SplitBytes(regs[..|regs| - 1]) + [LowByte(last), HighByte(last)]
  }

  /** Byte `2i` of the decoding is the low byte of register `i`, byte
      `2i+1` its high byte. */
  lemma {:induction false} SplitBytesAt(regs: seq<int>, i: nat)
    requires i < |regs|
    ensures SplitBytes(regs)[2 * i] == LowByte(regs[i])
    ensures SplitBytes(regs)[2 * i + 1] == HighByte(regs[i])
  {
    if i < |regs| - 1 {
      SplitBytesAt(regs[..|regs| - 1], i);
    }
  }

  /** Every decoded value is a byte. */
  lemma SplitBytesAreBytes(regs: seq<int>)
    ensures forall k :: 0 <= k < |SplitBytes(regs)| ==> 0 <= SplitBytes(regs)[k] < 0x100
  {
    forall k | 0 <= k < |SplitBytes(regs)|
      ensures 0 <= SplitBytes(regs)[k] < 0x100
    {
      SplitBytesAt(regs, k / 2);
    }
  }

  /** Reassembling words from (low, high) byte pairs: the inverse of the
      status decoding. */
  function JoinBytes(bytes: seq<int>): (regs: seq<int>)
    requires |bytes| % 2 == 0
    ensures |regs| == |bytes| / 2
  {
    if bytes == [] then []
    else JoinBytes(bytes[..|bytes| - 2]) + [bytes[|bytes| - 2] + 0x100 * bytes[|bytes| - 1]]
  }

  /** The status decoding loses nothing: for registers holding 16-bit words,
      joining the bytes gives the registers back. */
  lemma {:induction false} JoinSplitBytes(regs: seq<int>)
    requires forall k :: 0 <= k < |regs| ==> 0 <= regs[k] < 0x1_0000
    ensures JoinBytes(SplitBytes(regs)) == regs
  {
    if regs != [] {
      var init := regs[..|regs| - 1];
      var last := regs[|regs| - 1];
      var front, pair := SplitBytes(init), [LowByte(last), HighByte(last)];
      var bytes := front + pair;
      assert bytes == SplitBytes(regs);
      assert bytes[..|bytes| - 2] == front;
      assert bytes[|bytes| - 2] == LowByte(last) && bytes[|bytes| - 1] == HighByte(last);
      ByteSplitRoundTrip(last);
      calc {
        JoinBytes(bytes);
        JoinBytes(front) + [LowByte(last) + 0x100 * HighByte(last)];
        { JoinSplitBytes(init); }
        init + [last];
        regs;
      }
    }
  }

  /** `read6`: for a vector name, the six registers read, unchanged; for a
      status name, the three registers read split into low and high bytes;
      "no data" when the transport gave fewer registers than asked for. */
  method Read6(client: Client, name: string) returns (out: ReadOutcome)
    ensures name in VectorNames ==>
              var regs := ReadRegister(client, RegDict[name], VectorCount);
              out == if |regs| < VectorCount then NoData else Values(regs)
    ensures name in StatusNames ==>
              var regs := ReadRegister(client, RegDict[name], StatusCount);
              out == if |regs| < StatusCount then NoData else Values(SplitBytes(regs))
    ensures out.UnknownReadName? <==> name !in VectorNames && name !in StatusNames
  {
    if name in VectorNames {
      var val := ReadRegister(client, RegDict[name], VectorCount);
      if |val| < VectorCount {
        return NoData;
      }
      out := Values(val);
    } else if name in StatusNames {
      var valAct := ReadRegister(client, RegDict[name], StatusCount);
      if |valAct| < StatusCount {
        return NoData;
      }
      var results: seq<int> := [];
      for i := 0 to |valAct|
        invariant results == SplitBytes(valAct[..i])
      {
        var lowByte := LowByte(valAct[i]);
        var highByte := HighByte(valAct[i]);
        assert valAct[..i + 1][..i] == valAct[..i];
        results := results + [lowByte, highByte];
      }
      assert valAct[..|valAct|] == valAct;
      out := Values(results);
    } else {
      out := UnknownReadName;
    }
  }

  /** A status read that succeeds reports, for each register, its low byte
      and then its high byte, all in [0, 255], and each pair recombines to
      the register's 16-bit value. */
  lemma StatusReadDecodes(regs: seq<int>, i: nat)
    requires i < |regs|
    requires 0 <= regs[i] < 0x1_0000
    ensures 0 <= SplitBytes(regs)[2 * i] < 0x100 && 0 <= SplitBytes(regs)[2 * i + 1] < 0x100
    ensures SplitBytes(regs)[2 * i] + 0x100 * SplitBytes(regs)[2 * i + 1] == regs[i]
  {
    SplitBytesAt(regs, i);
    ByteSplitRoundTrip(regs[i]);
  }

  // ---------------------------------------------------------------- read96

  /** `read96`: the 80 registers of the tactile block at `index`, or
      nothing (Python's `None`) for any other name. */
  function Read96(client: Client, name: string): (r: Option<seq<int>>)
    ensures r.Some? <==> name == GridName
    ensures r.Some? ==> r.value == ReadRegister(client, 4320, 80)
  {
    if name == GridName then Some(ReadRegister(client, RegDict[name], GridCount)) else None
  }

  /** Every read the accessors issue is one the protocol admits. */
  lemma AccessorReadsValid(name: string)
    requires name in VectorNames + StatusNames + {GridName}
    ensures ValidRead(ReadHoldingRegisters(RegDict[name], BlockSize(name)))
  {
  }
}
