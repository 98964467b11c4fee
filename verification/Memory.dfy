/** memmove and memcpy on octet buffers, as splices of the buffer's contents. */
module Memory {
  import opened Bytes

  function Splice(s: seq<Byte>, at: nat, t: seq<Byte>): seq<Byte>
    requires at + |t| <= |s|
  {
    s[..at] + t + s[at + |t|..]
  }

  /** memmove, or memcpy through a scratch buffer */
  method Move(buf: array<Byte>, dst: nat, src: nat, n: nat)
    requires dst + n <= buf.Length && src + n <= buf.Length
    modifies buf
    ensures buf[..] == Splice(old(buf[..]), dst, old(buf[src..src + n]))
  {
    forall i | 0 <= i < n {
      buf[dst + i] := buf[src + i];
    }
  }

  /** memcpy from elsewhere */
  method Store(buf: array<Byte>, at: nat, t: seq<Byte>)
    requires at + |t| <= buf.Length
    modifies buf
    ensures buf[..] == Splice(old(buf[..]), at, t)
  {
    forall i | 0 <= i < |t| {
      buf[at + i] := t[i];
    }
  }

  function Zeros(n: nat): seq<Byte> {
    seq(n, _ => 0)
  }
}
