/** Fixed-width unsigned integers and the two small datatypes the other modules share. */
module Bytes {

  type byte = x: int | 0 <= x < 0x100
  type u16 = x: int | 0 <= x < 0x1_0000
  type u32 = x: int | 0 <= x < 0x1_0000_0000

  /** An IPv4 address as its four bytes in network order. */
  type Ip4 = s: seq<byte> | |s| == 4 witness [0, 0, 0, 0]

  datatype Option<+T> = None | Some(value: T)

  /** A slice, element by element. */
  lemma SliceIff(a: seq<byte>, lo: nat, s: seq<byte>)
    requires lo + |s| <= |a|
    ensures a[lo..lo + |s|] == s <==> forall p {:trigger a[p]} :: lo <= p < lo + |s| ==> a[p] == s[p - lo]
  {
    var slice := a[lo..lo + |s|];
    if slice == s {
      forall p | lo <= p < lo + |s|
        ensures a[p] == s[p - lo]
      {
        assert slice[p - lo] == a[p];
      }
    }
    if forall p {:trigger a[p]} :: lo <= p < lo + |s| ==> a[p] == s[p - lo] {
      assert forall i :: 0 <= i < |s| ==> slice[i] == a[lo + i];
    }
  }

  // ---------- Datagrams copied into a buffer ----------

  /** What of a datagram is copied, given the room there is. */
  function Taken(datagram: seq<byte>, room: nat): seq<byte> {
    if |datagram| < room then datagram else datagram[..room]
  }

  /** The buffer after the datagram was copied over whatever it held before. */
  function Overlaid(stale: seq<byte>, datagram: seq<byte>, room: nat): (buffer: seq<byte>)
    requires room <= |stale|
    ensures |buffer| == |stale|
  {
    Taken(datagram, room) + stale[|Taken(datagram, room)|..]
  }

  method CopyIn(datagram: seq<byte>, buffer: array<byte>, room: nat)
    requires room <= buffer.Length
    modifies buffer
    ensures buffer[..] == Overlaid(old(buffer[..]), datagram, room)
  {
    forall i | 0 <= i < |Taken(datagram, room)| {
      buffer[i] := datagram[i];
    }
  }
}
