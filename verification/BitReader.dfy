/** The bit reader (src/compress/bitread.c): an accumulator over whole prefetched bytes.
    `buf` holds bits that have been loaded and not yet consumed, so `|=` into the free high
    part is an addition, masking with 2^n - 1 is `% 2^n` and shifting right is `/ 2^n`. */
module BitReader {
  import opened Arith
  import opened Bits

  class Reader {
    const data: seq<Byte>
    var pos: nat
    var buf: nat
    var bits: nat

    /** At most 23 bits are ever held, so a 64-bit accumulator cannot overflow. */
    ghost predicate Valid()
      reads this
    {
      && pos <= |data|
      && bits <= 8 * pos && bits <= 23
      && buf == Value(Stream(data), 8 * pos - bits, bits)
    }

    /** The index of the next unread bit, however many bytes have been prefetched. */
    ghost function Pos(): nat
      reads this
      requires Valid()
    {
      8 * pos - bits
    }

    constructor (data: seq<Byte>)
      ensures Valid() && this.data == data && Pos() == 0
    {
      this.data := data;
      pos, buf, bits := 0, 0, 0;
    }

    method Need(n: nat) returns (ok: bool)
      requires Valid() && n <= 16
      modifies this
      ensures Valid() && Pos() == old(Pos())
      ensures ok <==> Pos() + n <= 8 * |data|
      ensures ok ==> n <= bits
    {
      ghost var p := Pos();
      while bits < n
        invariant pos <= |data| && bits <= 23 && 8 * pos == p + bits
        invariant buf == Value(Stream(data), p, bits)
        decreases |data| - pos
      {
        if pos >= |data| {
          return false;
        }
        LoadByte(data, pos, bits, 8);
        buf := buf + Pow2(bits) * data[pos];
        pos := pos + 1;
        bits := bits + 8;
      }
      return true;
    }

    method Peek(n: nat) returns (v: int)
      requires Valid() && n <= 16
      modifies this
      ensures Valid() && Pos() == old(Pos())
      ensures Pos() + n <= 8 * |data| ==> n <= bits && v == Value(Stream(data), Pos(), n)
      ensures Pos() + n > 8 * |data| ==> v == -1
    {
      var ok := Need(n);
      if !ok {
        return -1;
      }
      LowHigh(n);
      v := buf % Pow2(n);
    }

    method Drop(n: nat)
      requires Valid() && n <= bits
      modifies this
      ensures Valid() && Pos() == old(Pos()) + n
    {
      LowHigh(n);
      buf := buf / Pow2(n);
      bits := bits - n;
    }

    /** Either the next n bits are consumed and returned, or nothing is lost. */
    method ReadBits(n: nat) returns (v: int)
      requires Valid() && n <= 16
      modifies this
      ensures Valid()
      ensures old(Pos()) + n <= 8 * |data| ==> v == Value(Stream(data), old(Pos()), n) && Pos() == old(Pos()) + n
      ensures old(Pos()) + n > 8 * |data| ==> v == -1 && Pos() == old(Pos())
      ensures Res(v, Pos()) == GetBits(Stream(data), old(Pos()), n)
    {
      v := Peek(n);
      if v < 0 {
        return -1;
      }
      Drop(n);
    }

    /** Moves to the next byte boundary of the input. */
    method Align()
      requires Valid()
      modifies this
      ensures Valid() && Pos() == (old(Pos()) + 7) / 8 * 8
    {
      var skip := bits % 8;
      NextBoundary(pos, bits);
      if skip > 0 {
        Drop(skip);
      }
    }

    lemma LowHigh(n: nat)
      requires Valid() && n <= bits
      ensures buf % Pow2(n) == Value(Stream(data), Pos(), n)
      ensures buf / Pow2(n) == Value(Stream(data), Pos() + n, bits - n)
    {
      var s, p := Stream(data), Pos();
      ValueSplit(s, p, n, bits - n);
      ValueBound(s, p, n);
      DivMod(Value(s, p, n), Value(s, p + n, bits - n), Pow2(n));
    }
  }

  lemma LoadByte(data: seq<Byte>, pos: nat, bits: nat, n: nat)
    requires pos < |data| && bits <= 8 * pos && n == 8
    ensures Value(Stream(data), 8 * pos - bits, bits + n)
         == Value(Stream(data), 8 * pos - bits, bits) + Pow2(bits) * data[pos]
  {
    StreamByte(data, pos, n);
    ValueSplit(Stream(data), 8 * pos - bits, bits, n);
  }

  lemma NextBoundary(pos: nat, bits: nat)
    requires bits <= 8 * pos
    ensures (8 * pos - bits + 7) / 8 * 8 == 8 * pos - bits + bits % 8
  {
    var q := pos - bits / 8;
    assert 8 * pos - bits == 8 * q - bits % 8;
  }
}
