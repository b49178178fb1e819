/** The 16-byte datagram header of src/modes/udp.rs. */
module Datagram {
  import opened Bytes

  const HEADER_LEN: nat := 16

  /** The header of a datagram: sequence number, then send stamp, little-endian. */
  function Header(seqNo: u64, sendNs: u64): (h: seq<byte>)
    ensures |h| == HEADER_LEN
  {
    ToLe(seqNo, 8) + ToLe(sendNs, 8)
  }

  /** Bytes 0 to 7 are the sequence number and bytes 8 to 15 the stamp, least significant
      byte first. */
  lemma HeaderBytes(seqNo: u64, sendNs: u64, i: nat)
    requires i < 8
    ensures Header(seqNo, sendNs)[i] == seqNo / Pow256(i) % 256
    ensures Header(seqNo, sendNs)[8 + i] == sendNs / Pow256(i) % 256
  {
    LeByte(seqNo, 8, i);
    LeByte(sendNs, 8, i);
  }

  /** Rewrites the header in place; the slices panic on a shorter buffer. */
  method Stamp(buf: array<byte>, seqNo: u64, sendNs: u64)
    requires buf.Length >= HEADER_LEN
    modifies buf
    ensures buf[..] == Header(seqNo, sendNs) + old(buf[16..])
  {
    var a, b := ToLe(seqNo, 8), ToLe(sendNs, 8);
    forall k | 0 <= k < 8 {
      buf[k] := a[k];
    }
    forall k | 0 <= k < 8 {
      buf[8 + k] := b[k];
    }
  }

  function Unstamp(buf: seq<byte>): (r: Option<(u64, u64)>)
    ensures r.None? <==> |buf| < HEADER_LEN
  {
    if |buf| < HEADER_LEN then None
    else
      Pow256Values();
      LeBytesRoundTrip(buf[0..8]);
      LeBytesRoundTrip(buf[8..16]);
      Some((FromLe(buf[0..8]), FromLe(buf[8..16])))
  }

  /** Whatever follows the header, unstamping reads back what was stamped. */
  lemma UnstampOfStamped(seqNo: u64, sendNs: u64, padding: seq<byte>)
    ensures Unstamp(Header(seqNo, sendNs) + padding) == Some((seqNo, sendNs))
  {
    Pow256Values();
    LeRoundTrip(seqNo, 8);
    LeRoundTrip(sendNs, 8);
    var d := Header(seqNo, sendNs) + padding;
    assert d[0..8] == ToLe(seqNo, 8);
    assert d[8..16] == ToLe(sendNs, 8);
  }

  /** Every long enough datagram is the stamp of what it unstamps to. */
  lemma StampOfUnstamped(buf: seq<byte>)
    requires |buf| >= HEADER_LEN
    ensures Unstamp(buf).Some?
    ensures buf == Header(Unstamp(buf).value.0, Unstamp(buf).value.1) + buf[16..]
  {
    LeBytesRoundTrip(buf[0..8]);
    LeBytesRoundTrip(buf[8..16]);
    assert buf == buf[0..8] + buf[8..16] + buf[16..];
  }
}
