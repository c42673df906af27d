/** The byte buffer of the compiler: emission, insertion and patching, and what they do to a buffer
    that ends in the bytes of some code. */
module CodeBuffer {
  import opened Bytecode
  import opened Encoding
  import opened Image

  lemma {:induction false} BytesOne(i: Instr)
    ensures Bytes([i]) == Emit(i)
  {
    assert Bytes([i][1..]) == [];
  }

  lemma {:induction false} BytesTwo(i: Instr, code: seq<Instr>)
    ensures Bytes([i] + code) == Emit(i) + Bytes(code)
  {
    BytesConcat([i], code);
    BytesOne(i);
  }

  /** A gap of n bytes opened at pos: the bytes in the gap are whatever was there. */
  predicate Gapped(before: seq<Byte>, after: seq<Byte>, pos: nat, n: nat) {
    && pos <= |before| && |after| == |before| + n
    && after[..pos] == before[..pos] && after[pos + n..] == before[pos..]
  }

  /** The bytes of b stored at pos. */
  function Stored(s: seq<Byte>, pos: nat, b: seq<Byte>): (r: seq<Byte>)
    requires pos + |b| <= |s|
    ensures |r| == |s|
  {
    s[..pos] + b + s[pos + |b|..]
  }

  /** Filling the gap before some code puts the new bytes in front of it. */
  lemma {:induction false} FillGap(base: seq<Byte>, code: seq<Byte>, after: seq<Byte>, b: seq<Byte>)
    requires Gapped(base + code, after, |base|, |b|)
    ensures Stored(after, |base|, b) == base + (b + code)
  {
    var s := base + code;
    assert s[..|base|] == base && s[|base|..] == code;
  }

  lemma {:induction false} StoreTwice(s: seq<Byte>, pos: nat, a: seq<Byte>, b: seq<Byte>)
    requires pos + |a| + |b| <= |s|
    ensures Stored(Stored(s, pos, a), pos + |a|, b) == Stored(s, pos, a + b)
  {
  }

  lemma {:induction false} Patch(front: seq<Byte>, old_: seq<Byte>, new_: seq<Byte>, back: seq<Byte>)
    requires |old_| == |new_|
    ensures Stored(front + old_ + back, |front|, new_) == front + new_ + back
  {
  }

  lemma {:induction false} RotateUp(a: seq<Byte>, b: seq<Byte>, c: seq<Byte>, grown: seq<Byte>)
    requires |grown| == |a| + |b| + 2 * |c| && grown[..|a| + |b| + |c|] == a + b + c
    ensures var end := |a| + |b| + |c|;
      var moved := Stored(grown, |a| + |c|, grown[|a|..end]);
      && moved[end..end + |c|] == c
      && Stored(moved, |a|, moved[end..end + |c|])[..end] == a + c + b
  {
    var end := |a| + |b| + |c|;
    assert grown[|a|..end] == (a + b + c)[|a|..] == b + c;
    var moved := Stored(grown, |a| + |c|, grown[|a|..end]);
    assert moved == grown[..|a| + |c|] + (b + c);
    assert moved[end..end + |c|] == c;
    assert moved[..|a|] == (a + b + c)[..|a|] == a;
    assert moved[|a| + |c|..] == b + c;
    assert Stored(moved, |a|, c) == a + c + (b + c);
    assert a + c + (b + c) == (a + c + b) + c;
  }

  class Buffer {
    var bytes: seq<Byte>

    constructor ()
      ensures bytes == []
    {
      bytes := [];
    }

    /** dbuf_putc */
    method PutC(v: int)
      modifies this
      ensures bytes == old(bytes) + [v % 256]
    {
      bytes := bytes + [v % 256];
    }

    /** dbuf_put_u16 */
    method PutU16(v: int)
      modifies this
      ensures bytes == old(bytes) + Encoding.PutU16(v)
    {
      PutC(v);
      PutC(v / 256);
    }

    /** dbuf_put_u32 */
    method PutU32(v: int)
      modifies this
      ensures bytes == old(bytes) + Encoding.PutU32(v)
    {
      PutC(v);
      PutC(v / 256);
      PutC(v / 256 / 256);
      PutC(v / 256 / 256 / 256);
    }

    /** dbuf_insert: the tail moves up by len bytes. */
    method Insert(pos: nat, len: nat)
      requires pos <= |bytes|
      modifies this
      ensures Gapped(old(bytes), bytes, pos, len)
    {
      var tail := bytes[pos..];
      var grown := bytes + seq(len, _ => 0);
      bytes := Stored(grown, pos + len, tail);
    }

    /** buf[pos] = v */
    method SetByte(pos: nat, v: int)
      requires pos < |bytes|
      modifies this
      ensures bytes == Stored(old(bytes), pos, [v % 256])
    {
      bytes := bytes[pos := v % 256];
    }

    /** put_u32 */
    method SetU32(pos: nat, v: int)
      requires pos + 4 <= |bytes|
      modifies this
      ensures bytes == Stored(old(bytes), pos, Encoding.PutU32(v))
    {
      bytes := Stored(bytes, pos, Encoding.PutU32(v));
    }

    /** re_emit_op_u8 */
    method EmitOpU8(op: int, v: int)
      modifies this
      ensures bytes == old(bytes) + [op % 256, v % 256]
    {
      PutC(op);
      PutC(v);
    }

    /** re_emit_op_u16 */
    method EmitOpU16(op: int, v: int)
      modifies this
      ensures bytes == old(bytes) + ([op % 256] + Encoding.PutU16(v))
    {
      PutC(op);
      PutU16(v);
    }

    /** re_emit_op_u32: the position of the operand is returned, to be patched. */
    method EmitOpU32(op: int, v: int) returns (pos: nat)
      modifies this
      ensures bytes == old(bytes) + ([op % 256] + Encoding.PutU32(v)) && pos == |old(bytes)| + 1
    {
      PutC(op);
      pos := |bytes|;
      PutU32(v);
    }

    /** re_emit_goto: a jump to the absolute position val. */
    method EmitGoto(op: int, val: int)
      modifies this
      ensures bytes == old(bytes) + ([op % 256] + Encoding.PutU32(val - (|old(bytes)| + 5)))
    {
      PutC(op);
      PutU32(val - (|bytes| + 4));
    }

    /** re_emit_goto_u8 */
    method EmitGotoU8(op: int, arg: int, val: int)
      modifies this
      ensures bytes == old(bytes) + ([op % 256, arg % 256] + Encoding.PutU32(val - (|old(bytes)| + 6)))
    {
      PutC(op);
      PutC(arg);
      PutU32(val - (|bytes| + 4));
    }

    /** re_emit_goto_u8_u32 */
    method EmitGotoU8U32(op: int, arg0: int, arg1: int, val: int)
      modifies this
      ensures bytes == old(bytes)
                       + ([op % 256, arg0 % 256] + Encoding.PutU32(arg1) + Encoding.PutU32(val - (|old(bytes)| + 10)))
    {
      PutC(op);
      PutC(arg0);
      PutU32(arg1);
      PutU32(val - (|bytes| + 4));
    }

    /** The move that puts the last term of a backward alternative in front of the others: the block
        [start, end) goes up by the size of the term, whose copy then comes down to start. */
    method Rotate(start: nat, termStart: nat)
      requires start <= termStart <= |bytes|
      modifies this
      ensures bytes == old(bytes)[..start] + old(bytes)[termStart..] + old(bytes)[start..termStart]
    {
      ghost var a, b, c := bytes[..start], bytes[start..termStart], bytes[termStart..];
      assert bytes == a + b + c;
      var end := |bytes|;
      var termSize := end - termStart;
      var grown := bytes + seq(termSize, _ => 0);
      RotateUp(a, b, c, grown);
      grown := Stored(grown, start + termSize, grown[start..end]);
      grown := Stored(grown, start, grown[end..end + termSize]);
      bytes := grown[..end];
    }
  }
}
