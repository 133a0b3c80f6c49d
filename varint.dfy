/** The archive's integer codec: an unsigned 32-bit value is written in
    7-bit groups, least significant group first, with the continuation
    bit 0x80 set on every byte but the last (the scheme of unsigned LEB128,
    section 7.6 of the DWARF version 4 standard).  Streams are byte
    sequences; a reader works at a position in its input. */
module Varint {
  import opened Outcomes

  type byte = x: int | 0 <= x < 0x100
  type u32 = x: int | 0 <= x < 0x1_0000_0000

  const Mod32: int := 0x1_0000_0000

  /** The bytes `e` occur in the stream `s` starting at position `pos`. */
  predicate At(s: seq<byte>, pos: nat, e: seq<byte>)
  {
    pos + |e| <= |s| && s[pos..pos + |e|] == e
  }

  lemma AtSplit(s: seq<byte>, pos: nat, a: seq<byte>, b: seq<byte>)
    requires At(s, pos, a + b)
    ensures At(s, pos, a) && At(s, pos + |a|, b)
  {
    assert s[pos..pos + |a|] == (a + b)[..|a|];
    assert s[pos + |a|..pos + |a| + |b|] == (a + b)[|a|..];
  }

  /** `x << n` on unbounded integers. */
  function ShiftLeft(x: nat, n: nat): nat
  {
    if n == 0 then x else 2 * ShiftLeft(x, n - 1)
  }

  function Pow128(k: nat): (r: nat)
    ensures r >= 1
  {
    if k == 0 then 1 else 128 * Pow128(k - 1)
  }

  /** The bytes `write_unsigned` emits for `v`. */
  function Encode(v: u32): (r: seq<byte>)
    ensures |r| >= 1
    decreases v
  {
    if v < 0x80 then [v] else [v % 0x80 + 0x80] + Encode(v / 0x80)
  }

  /** The contribution of one byte read at bit offset `shift`: its low seven
      bits moved up by `shift`, truncated to 32 bits.  C++ leaves a shift by
      32 or more undefined; here such a group contributes nothing. */
  function Group(b: byte, shift: nat): (r: u32)
  {
    if shift < 32 then ShiftLeft(b % 0x80, shift) % Mod32 else 0
  }

  /** What `read_unsigned` computes when it has accumulated `acc` and the
      next byte is `s[pos]`, to be placed at bit offset `shift`: the value
      and the position after its last byte.  The groups occupy disjoint
      bits, so the source's bitwise or is an addition here. */
  function DecodeAt(s: seq<byte>, pos: nat, shift: nat, acc: u32): (r: Result<(u32, nat)>)
    ensures r.Ok? ==> pos < r.value.1 <= |s|
    ensures r.Ok? ==> s[r.value.1 - 1] < 0x80
    ensures r.Err? ==> r.error == EndOfStream
    decreases |s| - pos
  {
    if pos >= |s| then Err(EndOfStream)
    else
      var acc' := (acc + Group(s[pos], shift)) % Mod32;
      if s[pos] < 0x80 then Ok((acc', pos + 1))
      else DecodeAt(s, pos + 1, shift + 7, acc')
  }

  /** `read_unsigned` at position `pos`. */
  function Decode(s: seq<byte>, pos: nat): (r: Result<(u32, nat)>)
    ensures r.Ok? ==> pos < r.value.1 <= |s|
  {
    DecodeAt(s, pos, 0, 0)
  }

  /** `write_unsigned(os, val)`: the loop emits low groups with the
      continuation bit while the value is at least 0x80, then the rest. */
  method WriteUnsigned(os: seq<byte>, val: u32) returns (os': seq<byte>)
    ensures os' == os + Encode(val)
  {
    var v := val;
    os' := os;
    while v >= 0x80
      invariant os' + Encode(v) == os + Encode(val)
      decreases v
    {
      os' := os' + [v % 0x80 + 0x80];
      v := v / 0x80;
    }
    os' := os' + [v];
  }

  /** `read_unsigned` reading from position `pos` of the stream `s`. */
  method ReadUnsigned(s: seq<byte>, pos: nat) returns (r: Result<(u32, nat)>)
    ensures r == Decode(s, pos)
  {
    var ret: u32 := 0;
    var shift: nat := 0;
    var p := pos;
    var more := true;
    while more
      invariant more ==> DecodeAt(s, p, shift, ret) == Decode(s, pos)
      invariant !more ==> Decode(s, pos) == Ok((ret, p))
      decreases |s| - p, more
    {
      if p >= |s| {
        return Err(EndOfStream);
      }
      var b := s[p];
      ret := (ret + Group(b, shift)) % Mod32;
      shift := shift + 7;
      p := p + 1;
      more := b >= 0x80;
    }
    r := Ok((ret, p));
  }

  lemma {:induction false} ShiftLeftAdd(x: nat, y: nat, n: nat)
    ensures ShiftLeft(x + y, n) == ShiftLeft(x, n) + ShiftLeft(y, n)
  {
    if n > 0 {
      ShiftLeftAdd(x, y, n - 1);
    }
  }

  lemma {:induction false} ShiftLeftMono(x: nat, y: nat, n: nat)
    requires x <= y
    ensures ShiftLeft(x, n) <= ShiftLeft(y, n)
  {
    if n > 0 {
      ShiftLeftMono(x, y, n - 1);
    }
  }

  lemma {:induction false} ShiftLeftDouble(x: nat, n: nat)
    ensures ShiftLeft(x, n + 1) == ShiftLeft(2 * x, n)
  {
    if n > 0 {
      ShiftLeftDouble(x, n - 1);
    }
  }

  /** Shifting by seven more bits is multiplying the operand by 128. */
  lemma ShiftLeftSeven(x: nat, n: nat)
    ensures ShiftLeft(x, n + 7) == ShiftLeft(128 * x, n)
  {
    ShiftLeftDouble(x, n + 6);
    ShiftLeftDouble(2 * x, n + 5);
    ShiftLeftDouble(4 * x, n + 4);
    ShiftLeftDouble(8 * x, n + 3);
    ShiftLeftDouble(16 * x, n + 2);
    ShiftLeftDouble(32 * x, n + 1);
    ShiftLeftDouble(64 * x, n);
  }

  lemma {:induction false} ShiftLeftLarge(x: nat, n: nat)
    requires x >= 1 && n >= 32
    ensures ShiftLeft(x, n) >= Mod32
  {
    if n == 32 {
      ShiftLeftMono(1, x, 32);
      ShiftLeftSeven(1, 21);
      ShiftLeftSeven(128, 14);
      ShiftLeftSeven(128 * 128, 7);
      ShiftLeftSeven(128 * 128 * 128, 0);
      assert ShiftLeft(1, 28) == 0x1000_0000;
      calc {
        ShiftLeft(1, 32);
        2 * ShiftLeft(1, 31);
        4 * ShiftLeft(1, 30);
        8 * ShiftLeft(1, 29);
        16 * ShiftLeft(1, 28);
      }
    } else {
      ShiftLeftLarge(x, n - 1);
    }
  }

  /** The arithmetic of one decoding step: with `g` the low group of `v`
      and `q` the rest, adding `g << shift` keeps the accumulator below the
      next group's weight and leaves `q << (shift + 7)` to be added. */
  lemma StepArithmetic(v: nat, shift: nat, acc: nat)
    requires acc < ShiftLeft(1, shift)
    ensures ShiftLeft(v % 0x80, shift) <= ShiftLeft(v, shift)
    ensures acc + ShiftLeft(v % 0x80, shift) < ShiftLeft(1, shift + 7)
    ensures acc + ShiftLeft(v % 0x80, shift) + ShiftLeft(v / 0x80, shift + 7) == acc + ShiftLeft(v, shift)
  {
    var g, q := v % 0x80, v / 0x80;
    ShiftLeftMono(g, v, shift);
    ShiftLeftMono(g, 127, shift);
    ShiftLeftAdd(127, 1, shift);
    ShiftLeftSeven(1, shift);
    ShiftLeftSeven(q, shift);
    ShiftLeftAdd(128 * q, g, shift);
  }

  /** A group whose shifted value fits in 32 bits is not truncated. */
  lemma GroupFits(b: byte, shift: nat, v: nat, acc: nat)
    requires b % 0x80 == v % 0x80 && acc < ShiftLeft(1, shift) && acc + ShiftLeft(v, shift) < Mod32
    ensures Group(b, shift) == ShiftLeft(v % 0x80, shift)
    ensures (acc + Group(b, shift)) % Mod32 == acc + ShiftLeft(v % 0x80, shift)
  {
    StepArithmetic(v, shift, acc);
    if v > 0 && shift >= 32 {
      ShiftLeftLarge(v, shift);
      assert false;
    }
    if v == 0 {
      ShiftLeftAdd(0, 0, shift);
    }
    var g := ShiftLeft(v % 0x80, shift);
    SmallMod(g);
    assert Group(b, shift) == g;
    SmallMod(acc + g);
  }

  lemma SmallMod(x: nat)
    requires x < Mod32
    ensures x % Mod32 == x
  {
  }

  /** Reading the encoding of `v`, placed at `pos`, after `acc` has been
      accumulated below bit `shift`, adds `v << shift`. */
  lemma {:induction false} DecodeEncodeAt(s: seq<byte>, pos: nat, v: u32, shift: nat, acc: u32)
    requires pos + |Encode(v)| <= |s| && s[pos..pos + |Encode(v)|] == Encode(v)
    requires acc < ShiftLeft(1, shift) && acc + ShiftLeft(v, shift) < Mod32
    ensures DecodeAt(s, pos, shift, acc) == Ok((acc + ShiftLeft(v, shift), pos + |Encode(v)|))
    decreases v, 1
  {
    if v >= 0x80 {
      DecodeEncodeLong(s, pos, v, shift, acc);
    } else {
      var e := Encode(v);
      assert s[pos] == e[0] == v && |e| == 1;
      GroupFits(s[pos], shift, v, acc);
      assert v % 0x80 == v;
      assert DecodeAt(s, pos, shift, acc) == Ok((acc + ShiftLeft(v, shift), pos + 1));
    }
  }

  /** `DecodeEncodeAt` for a value of more than one group: the first byte
      contributes the low group and the rest is the encoding of `v / 0x80`. */
  lemma {:induction false} DecodeEncodeLong(s: seq<byte>, pos: nat, v: u32, shift: nat, acc: u32)
    requires v >= 0x80
    requires pos + |Encode(v)| <= |s| && s[pos..pos + |Encode(v)|] == Encode(v)
    requires acc < ShiftLeft(1, shift) && acc + ShiftLeft(v, shift) < Mod32
    ensures DecodeAt(s, pos, shift, acc) == Ok((acc + ShiftLeft(v, shift), pos + |Encode(v)|))
    decreases v, 0
  {
    var q := v / 0x80;
    var acc' := FirstGroup(s, pos, v, shift, acc);
    DecodeEncodeAt(s, pos + 1, q, shift + 7, acc');
  }

  /** The first byte of the encoding of a value of more than one group: it
      adds the low group to the accumulator, and the encoding of the rest
      follows it. */
  lemma FirstGroup(s: seq<byte>, pos: nat, v: u32, shift: nat, acc: u32) returns (acc': u32)
    requires v >= 0x80
    requires pos + |Encode(v)| <= |s| && s[pos..pos + |Encode(v)|] == Encode(v)
    requires acc < ShiftLeft(1, shift) && acc + ShiftLeft(v, shift) < Mod32
    ensures DecodeAt(s, pos, shift, acc) == DecodeAt(s, pos + 1, shift + 7, acc')
    ensures |Encode(v)| == |Encode(v / 0x80)| + 1
    ensures pos + 1 + |Encode(v / 0x80)| <= |s| && s[pos + 1..pos + 1 + |Encode(v / 0x80)|] == Encode(v / 0x80)
    ensures acc' < ShiftLeft(1, shift + 7) && acc' + ShiftLeft(v / 0x80, shift + 7) == acc + ShiftLeft(v, shift)
  {
    var e := Encode(v);
    var rest := Encode(v / 0x80);
    assert e == [v % 0x80 + 0x80] + rest;
    assert s[pos] == e[0];
    GroupFits(s[pos], shift, v, acc);
    acc' := acc + ShiftLeft(v % 0x80, shift);
    assert s[pos + 1..pos + 1 + |rest|] == rest by {
      assert s[pos + 1..pos + 1 + |rest|] == s[pos..pos + |e|][1..];
    }
    StepArithmetic(v, shift, acc);
    assert s[pos] >= 0x80;
  }

  /** `read_unsigned` gives back what `write_unsigned` wrote, whatever
      precedes or follows it in the stream, and stops right after it. */
  lemma RoundTrip(s: seq<byte>, pos: nat, v: u32)
    requires At(s, pos, Encode(v))
    ensures Decode(s, pos) == Ok((v, pos + |Encode(v)|))
  {
    DecodeEncodeAt(s, pos, v, 0, 0);
  }

  /** Every byte of an encoding but the last carries the continuation bit
      and the last does not; a value below 0x80 is one byte equal to
      itself, and a larger one takes more than one byte. */
  lemma {:induction false} EncodeContinuationBits(v: u32)
    ensures var r := Encode(v);
      && r[|r| - 1] < 0x80
      && (forall i :: 0 <= i < |r| - 1 ==> r[i] >= 0x80)
      && (v < 0x80 ==> r == [v])
      && (v >= 0x80 ==> |r| > 1)
    decreases v
  {
    if v >= 0x80 {
      EncodeContinuationBits(v / 0x80);
      var r, rest := Encode(v), Encode(v / 0x80);
      assert r == [v % 0x80 + 0x80] + rest;
      forall i | 0 <= i < |r| - 1
        ensures r[i] >= 0x80
      {
        if i > 0 {
          assert r[i] == rest[i - 1];
        }
      }
    }
  }

  /** The encoding of a 32-bit value takes at most five bytes. */
  lemma {:induction false} EncodeLength(v: u32, k: nat)
    requires k >= 1 && v < Pow128(k)
    ensures |Encode(v)| <= k
    decreases k
  {
    if v >= 0x80 {
      assert k >= 2;
      EncodeLength(v / 0x80, k - 1);
    }
  }

  lemma EncodeAtMostFiveBytes(v: u32)
    ensures |Encode(v)| <= 5
  {
    EncodeLength(v, 5);
  }

  /** The worked examples of the archive format's description. */
  lemma FormatExamples()
    ensures Encode(0x00) == [0x00] && Encode(0x7f) == [0x7f]
    ensures Encode(0x80) == [0x80, 0x01] && Encode(0xff) == [0xff, 0x01]
    ensures Encode(0x100) == [0x80, 0x02] && Encode(0x17f) == [0xff, 0x02]
    ensures Encode(0x180) == [0x80, 0x03] && Encode(0x3fff) == [0xff, 0x7f]
    ensures Encode(0x4000) == [0x80, 0x80, 0x01]
  {
    assert Encode(0x80) == [0x80] + Encode(0x01);
    assert Encode(0xff) == [0xff] + Encode(0x01);
    assert Encode(0x100) == [0x80] + Encode(0x02);
    assert Encode(0x17f) == [0xff] + Encode(0x02);
    assert Encode(0x180) == [0x80] + Encode(0x03);
    assert Encode(0x3fff) == [0xff] + Encode(0x7f);
    assert Encode(0x4000) == [0x80] + Encode(0x80);
  }

  /** Reading the examples' byte strings gives back their values. */
  lemma DecodeExamples()
    ensures Decode([0x80, 0x80, 0x01], 0) == Ok((0x4000, 3))
    ensures Decode([0xff, 0x7f], 0) == Ok((0x3fff, 2))
    ensures Decode([0x80, 0x01], 0) == Ok((0x80, 2))
  {
    FormatExamples();
    RoundTrip([0x80, 0x80, 0x01], 0, 0x4000);
    RoundTrip([0xff, 0x7f], 0, 0x3fff);
    RoundTrip([0x80, 0x01], 0, 0x80);
  }
}
