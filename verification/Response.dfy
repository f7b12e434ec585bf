/** The response builder: two bytes are always kept in reserve for the status word. */
module Response {
  import opened Bytes
  import opened StatusWords

  /** Response data so far, and whether any append was refused. */
  datatype Rsp = Rsp(data: seq<byte>, overflow: bool)

  const Empty := Rsp([], false)

  function Room(cap: nat): nat {
    if cap >= 2 then cap - 2 else 0
  }

  function Put(r: Rsp, cap: nat, src: seq<byte>): (bool, Rsp) {
    if src == [] then (true, r)
    else if |r.data| + |src| > Room(cap) then (false, r.(overflow := true))
    else (true, r.(data := r.data + src))
  }

  /** Payload and status word; an overflowed payload is dropped and answered 6F00. */
  ghost function Finish(r: Rsp, sw: u16): (out: seq<byte>)
    ensures |out| >= 2
  {
    if r.overflow then Be16(SW_NO_DIAGNOSIS) else r.data + Be16(sw)
  }

  class Builder {
    const buf: array<byte>
    var len: nat
    var overflow: bool

    ghost predicate Valid()
      reads this
    {
      buf.Length < 0x1_0000 && len <= Room(buf.Length)
    }

    ghost function Abs(): Rsp
      requires Valid()
      reads this, buf
    {
      Rsp(buf[..len], overflow)
    }

    constructor (buf: array<byte>)
      requires buf.Length < 0x1_0000
      ensures this.buf == buf && Valid() && Abs() == Empty
    {
      this.buf, len, overflow := buf, 0, false;
    }

    method Append(src: seq<byte>) returns (ok: bool)
      requires Valid()
      modifies this, buf
      ensures Valid() && (ok, Abs()) == Put(old(Abs()), buf.Length, src)
    {
      if |src| == 0 {
        return true;
      }
      var available := if buf.Length >= 2 then buf.Length - 2 else 0;
      if len + |src| > available {
        overflow := true;
        return false;
      }
      CopyInto(buf, len, src);
      len := len + |src|;
      return true;
    }

    /** Returns the total length written, at least two and at most the capacity. */
    method Close(sw: u16) returns (n: nat)
      requires Valid() && buf.Length >= 2
      modifies this, buf
      ensures 2 <= n <= buf.Length && buf[..n] == Finish(old(Abs()), sw)
    {
      var status := sw;
      if overflow {
        len, status := 0, SW_NO_DIAGNOSIS;
      }
      Be16Bytes(status);
      ghost var before := buf[..len];
      buf[len] := status / 0x100;
      buf[len + 1] := status % 0x100;
      assert buf[..len] == before;
      assert buf[..len + 2] == before + Be16(status);
      return len + 2;
    }
  }
}
