/** adreno_pm4types.h: the packets of the A3xx command stream, how they are laid out in 32-bit words, and how the
    command processor reads them back. */
module Pm4 {
  import opened FstTypes

  type Word = w: nat | w < 0x1_0000_0000

  const CP_NOP := 0x10
  const CP_WAIT_FOR_ME := 0x13
  const CP_REG_RMW := 0x21
  const CP_WAIT_FOR_IDLE := 0x26
  const CP_SET_CONSTANT := 0x2d
  const CP_INVALIDATE_STATE := 0x3b
  const CP_MEM_WRITE := 0x3d
  const CP_INDIRECT_BUFFER_PFE := 0x3F
  const CP_EVENT_WRITE := 0x46
  const CP_WAIT_REG_EQ := 0x52
  const CP_SET_PROTECTED_MODE := 0x5f
  const CP_REG_WR_NO_CTXT := 0x78

  function Lower32(x: nat): Word {
    x % 0x1_0000_0000
  }

  function Upper32(x: nat): Word {
    x / 0x1_0000_0000 % 0x1_0000_0000
  }

  lemma {:induction false} HalvesOf64Bits(x: nat)
    requires x < 0x1_0000_0000_0000_0000
    ensures Lower32(x) + Upper32(x) * 0x1_0000_0000 == x
  {
    assert x / 0x1_0000_0000 < 0x1_0000_0000;
  }

  /** cp_type3_packet. The fields do not overlap, so that the source's `|` is `+`. */
  function Type3(opcode: nat, cnt: nat): Word
    requires opcode < 0x100 && 1 <= cnt <= 0x4000
  {
    0xC000_0000 + (cnt - 1) * 0x1_0000 + opcode * 0x100
  }

  /** cp_type0_packet */
  function Type0(reg: nat, cnt: nat): Word
    requires reg < 0x8000 && 1 <= cnt <= 0x4000
  {
    (cnt - 1) * 0x1_0000 + reg
  }

  /** `Pkt0` writes consecutive registers from `reg` on; `Pkt3` is a command with its operands. */
  datatype RawPacket = Pkt0(reg: nat, data: seq<Word>) | Pkt3(opcode: nat, data: seq<Word>) {
    predicate Valid() {
      1 <= |data| <= 0x4000 && if Pkt0? then reg < 0x8000 else opcode < 0x100
    }
  }

  /** The packets that fit a header. */
  type Packet = p: RawPacket | p.Valid() witness Pkt3(0x10, [0])

  ghost function Encode(p: Packet): (ws: seq<Word>)
    ensures |ws| == 1 + |p.data|
  {
    [if p.Pkt0? then Type0(p.reg, |p.data|) else Type3(p.opcode, |p.data|)] + p.data
  }

  ghost function EncodeAll(ps: seq<Packet>): seq<Word> {
    if ps == [] then [] else Encode(ps[0]) + EncodeAll(ps[1..])
  }

  // ---------------------------------------------------------------- reading a stream back

  function Kind(w: Word): nat { w / 0x4000_0000 }
  function Count(w: Word): nat { w / 0x1_0000 % 0x4000 + 1 }
  function Opcode(w: Word): nat { w / 0x100 % 0x100 }
  function Reg(w: Word): nat { w % 0x8000 }

  /** The packets of a stream, or None when it holds a header of another type or ends inside a packet. */
  function Decode(ws: seq<Word>): Option<seq<Packet>> {
    if ws == [] then Some([])
    else
      var n := Count(ws[0]);
      if n >= |ws| || (Kind(ws[0]) != 0 && Kind(ws[0]) != 3) then None
      else
        var rest := Decode(ws[n + 1..]);
        var data := ws[1..n + 1];
        if rest.None? then None
        else Some([if Kind(ws[0]) == 0 then Pkt0(Reg(ws[0]), data) else Pkt3(Opcode(ws[0]), data)] + rest.value)
  }

  function Append(a: Option<seq<Packet>>, b: Option<seq<Packet>>): Option<seq<Packet>> {
    if a.Some? && b.Some? then Some(a.value + b.value) else None
  }

  lemma {:induction false} HighBits(q: nat, r: nat)
    requires r < 0x1_0000
    ensures (q * 0x1_0000 + r) / 0x1_0000 == q
  {
  }

  lemma {:induction false} LowByte(q: nat, r: nat)
    requires r < 0x100
    ensures (q * 0x100 + r) % 0x100 == r && (q * 0x100 + r) / 0x100 == q
  {
  }

  lemma {:induction false} CountField(k: nat, n: nat)
    requires n < 0x4000
    ensures (k * 0x4000 + n) % 0x4000 == n
  {
  }

  lemma {:induction false} RegField(k: nat, n: nat)
    requires n < 0x8000
    ensures (k * 0x8000 + n) % 0x8000 == n
  {
  }

  lemma {:induction false} Type3Fields(op: nat, cnt: nat)
    requires op < 0x100 && 1 <= cnt <= 0x4000
    ensures Kind(Type3(op, cnt)) == 3 && Count(Type3(op, cnt)) == cnt && Opcode(Type3(op, cnt)) == op
  {
    HighBits(0xC000 + (cnt - 1), op * 0x100);
    CountField(3, cnt - 1);
    LowByte(0xC0_0000 + (cnt - 1) * 0x100 + op, 0);
    LowByte(0xC000 + (cnt - 1), op);
  }

  lemma {:induction false} Type0Fields(reg: nat, cnt: nat)
    requires reg < 0x8000 && 1 <= cnt <= 0x4000
    ensures Kind(Type0(reg, cnt)) == 0 && Count(Type0(reg, cnt)) == cnt && Reg(Type0(reg, cnt)) == reg
  {
    HighBits(cnt - 1, reg);
    CountField(0, cnt - 1);
    RegField(2 * (cnt - 1), reg);
  }

  lemma {:induction false} HeaderFields(op: nat, reg: nat, cnt: nat)
    requires op < 0x100 && reg < 0x8000 && 1 <= cnt <= 0x4000
    ensures Kind(Type3(op, cnt)) == 3 && Count(Type3(op, cnt)) == cnt && Opcode(Type3(op, cnt)) == op
    ensures Kind(Type0(reg, cnt)) == 0 && Count(Type0(reg, cnt)) == cnt && Reg(Type0(reg, cnt)) == reg
  {
    hide Kind, Count, Opcode, Reg, Type3, Type0;
    Type3Fields(op, cnt);
    Type0Fields(reg, cnt);
  }

  lemma {:induction false} Associative<T>(a: seq<T>, b: seq<T>, c: seq<T>)
    ensures (a + b) + c == a + (b + c)
  {
  }

  lemma {:induction false} AppendAssociative(a: Option<seq<Packet>>, b: Option<seq<Packet>>, c: Option<seq<Packet>>)
    ensures Append(Append(a, b), c) == Append(a, Append(b, c))
    ensures Append(Some([]), c) == c
  {
    if a.Some? && b.Some? && c.Some? {
      Associative(a.value, b.value, c.value);
    }
    if c.Some? {
      assert [] + c.value == c.value;
    }
  }

  /** One packet at the head of a stream is read as itself. */
  lemma {:induction false} DecodeHead(p: Packet, rest: seq<Word>)
    ensures Decode(Encode(p) + rest) == Append(Some([p]), Decode(rest))
  {
    var ws := Encode(p) + rest;
    var n := |p.data|;
    HeaderFields(if p.Pkt3? then p.opcode else 0, if p.Pkt0? then p.reg else 0, n);
    assert ws[1..n + 1] == p.data && ws[n + 1..] == rest;
  }

  /** What is emitted is read back, and whatever follows it as if it stood alone. */
  lemma {:induction false} DecodeEncodeAll(ps: seq<Packet>, rest: seq<Word>)
    ensures Decode(EncodeAll(ps) + rest) == Append(Some(ps), Decode(rest))
    decreases |ps|
  {
    hide Encode;
    if ps == [] {
      assert EncodeAll(ps) + rest == rest;
      AppendAssociative(None, None, Decode(rest));
    } else {
      DecodeEncodeAll(ps[1..], rest);
      DecodeHead(ps[0], EncodeAll(ps[1..]) + rest);
      Associative(Encode(ps[0]), EncodeAll(ps[1..]), rest);
      AppendAssociative(Some([ps[0]]), Some(ps[1..]), Decode(rest));
      assert [ps[0]] + ps[1..] == ps;
    }
  }

  /** Well-formed streams can be read piece by piece. */
  lemma {:induction false} DecodeConcat(a: seq<Word>, b: seq<Word>)
    requires Decode(a).Some?
    ensures Decode(a + b) == Append(Decode(a), Decode(b))
    decreases |a|
  {
    if a == [] {
      assert a + b == b;
      AppendAssociative(None, None, Decode(b));
    } else {
      var n := Count(a[0]);
      assert (a + b)[1..n + 1] == a[1..n + 1];
      assert (a + b)[n + 1..] == a[n + 1..] + b;
      DecodeConcat(a[n + 1..], b);
      var p := if Kind(a[0]) == 0 then Pkt0(Reg(a[0]), a[1..n + 1]) else Pkt3(Opcode(a[0]), a[1..n + 1]);
      AppendAssociative(Some([p]), Decode(a[n + 1..]), Decode(b));
    }
  }

  lemma {:induction false} EncodeSnoc(ps: seq<Packet>, p: Packet)
    ensures EncodeAll(ps + [p]) == EncodeAll(ps) + Encode(p)
  {
    EncodeConcat(ps, [p]);
    assert EncodeAll([p]) == Encode(p);
  }

  lemma {:induction false} EncodeConcat(a: seq<Packet>, b: seq<Packet>)
    ensures EncodeAll(a + b) == EncodeAll(a) + EncodeAll(b)
    decreases |a|
  {
    hide Encode;
    if a == [] {
      assert a + b == b;
    } else {
      assert (a + b)[1..] == a[1..] + b;
      EncodeConcat(a[1..], b);
      Associative(Encode(a[0]), EncodeAll(a[1..]), EncodeAll(b));
    }
  }

  /** The words a list of packets takes. */
  function Size(ps: seq<Packet>): nat {
    if ps == [] then 0 else 1 + |ps[0].data| + Size(ps[1..])
  }

  lemma {:induction false} SizeIsLength(ps: seq<Packet>)
    ensures Size(ps) == |EncodeAll(ps)|
    decreases |ps|
  {
    if ps != [] {
      SizeIsLength(ps[1..]);
    }
  }

  lemma {:induction false} SizeConcat(a: seq<Packet>, b: seq<Packet>)
    ensures Size(a + b) == Size(a) + Size(b)
  {
    SizeIsLength(a);
    SizeIsLength(b);
    SizeIsLength(a + b);
    EncodeConcat(a, b);
  }

  lemma {:induction false} SizeOfTwo(a: Packet, b: Packet)
    ensures Size([a]) == 1 + |a.data| && Size([a, b]) == 2 + |a.data| + |b.data|
  {
    SizeOfMore(a, []);
    SizeOfMore(b, []);
    SizeOfMore(a, [b]);
    assert [a] + [] == [a] && [b] + [] == [b] && [a] + [b] == [a, b];
  }

  lemma {:induction false} SizeOfMore(p: Packet, rest: seq<Packet>)
    ensures Size([p] + rest) == 1 + |p.data| + Size(rest)
  {
    assert ([p] + rest)[1..] == rest;
  }
}
