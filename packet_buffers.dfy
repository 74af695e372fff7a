// The packet builders on both ends allocate a zero-filled buffer of the
// packet's size and fill the packed header in place through a
// `PacketHeader*`: "RT", version 1, the packet type, the buffer size as the
// length, sequence 0. This module holds that shared step and what it means for
// the bytes a receiver decodes.
module PacketBuffers {
  import opened Common
  import opened Packets

  /** Stores the standard header for `packetType` in the first eight bytes of `a`, length = `a.Length`. */
  method WriteHeader(a: array<byte>, packetType: byte)
    requires a.Length >= HEADER_SIZE
    modifies a
    ensures a[..HEADER_SIZE] == EncodeHeader(StandardHeader(packetType, LengthField(a.Length)))
    ensures a[HEADER_SIZE..] == old(a[HEADER_SIZE..])
  {
    var length := LengthField(a.Length);
    a[0] := MAGIC_R;
    a[1] := MAGIC_T;
    a[2] := PROTOCOL_VERSION;
    a[3] := packetType;
    a[4] := length % 256;
    a[5] := length / 256;
    a[6] := 0;
    a[7] := 0;
    assert LittleEndian(length, 2) == [length % 256, length / 256 % 256];
  }

  /** Decoding a datagram's header looks only at its first eight bytes. */
  lemma DecodeHeaderOfPrefix(s: seq<byte>)
    requires |s| >= HEADER_SIZE
    ensures DecodeHeader(s) == DecodeHeader(s[..HEADER_SIZE])
  {
    assert s[..HEADER_SIZE][4..6] == s[4..6] && s[..HEADER_SIZE][6..8] == s[6..8];
  }

  /** A datagram whose first eight bytes are an encoded header decodes to that header. */
  lemma HeaderOfPacket(s: seq<byte>, h: Header)
    requires h.Fits() && |s| >= HEADER_SIZE && s[..HEADER_SIZE] == EncodeHeader(h)
    ensures DecodeHeader(s) == Some(h)
  {
    DecodeHeaderOfPrefix(s);
    HeaderRoundTrip(h);
  }
}
