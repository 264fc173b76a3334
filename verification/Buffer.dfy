/** The growing output buffer `buf_t` (src/util/mem.c). */
module Buffer {
  import opened Bits

  class Buf {
    var data: array<Byte>
    var len: nat

    ghost predicate Valid()
      reads this
    {
      len <= data.Length
    }

    ghost function Contents(): seq<Byte>
      reads this, data
      requires Valid()
    {
      data[..len]
    }

    constructor ()
      ensures Valid() && Contents() == [] && fresh(data)
    {
      data := new Byte[0];
      len := 0;
    }

    /** Makes room for `need` more bytes; the capacity at least doubles and is a multiple of 64. */
    method Grow(need: nat)
      requires Valid()
      modifies this
      ensures Valid() && len == old(len) && Contents() == old(Contents())
      ensures len + need <= data.Length
      ensures data == old(data) || fresh(data)
    {
      if len + need <= data.Length {
        return;
      }
      var cap := data.Length;
      var step := if cap >= 64 then cap else 64;
      var newCap := cap + if step >= len + need - cap then step else len + need - cap;
      newCap := (newCap + 63) / 64 * 64;
      var newData := new Byte[newCap](_ => 0);
      for i := 0 to len
        invariant data == old(data) && len == old(len)
        invariant newData[..i] == data[..i]
      {
        newData[i] := data[i];
      }
      data := newData;
    }

    method AppendByte(c: Byte)
      requires Valid()
      modifies this, data
      ensures Valid() && Contents() == old(Contents()) + [c]
      ensures data == old(data) || fresh(data)
    {
      Grow(1);
      data[len] := c;
      len := len + 1;
    }
  }
}
