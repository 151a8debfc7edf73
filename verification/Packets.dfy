/**
 The bytes on the wire (machine/network.h, network/post.h): a packet header, a mail header and the
 data, padded with whatever the buffer held.
 */
module Packets {
  import opened Words
  import T = Translation

  type Byte = T.Byte

  const HeaderSize: nat := 12              // sizeof(PacketHeader) and sizeof(MailHeader)
  const MaxWireSize: nat := 64
  const MaxPacketSize: nat := MaxWireSize - HeaderSize
  const MaxMailSize: nat := MaxPacketSize - HeaderSize

  /** Both headers have this layout: two ints and an unsigned. */
  datatype Header = Header(to: Word, from: Word, length: Word)

  function Bytes4(w: Word): seq<Byte> {
    [T.ByteOf(w, 0), T.ByteOf(w, 1), T.ByteOf(w, 2), T.ByteOf(w, 3)]
  }

  function Word4At(s: seq<Byte>, i: nat): Word
    requires i + 4 <= |s|
  {
    T.Word4(s[i], s[i + 1], s[i + 2], s[i + 3])
  }

  function Encode(h: Header): (s: seq<Byte>)
    ensures |s| == HeaderSize
  {
    Bytes4(h.to) + Bytes4(h.from) + Bytes4(h.length)
  }

  function Decode(s: seq<Byte>): Header
    requires |s| >= HeaderSize
  {
    Header(Word4At(s, 0), Word4At(s, 4), Word4At(s, 8))
  }

  lemma DecodeEncode(h: Header, rest: seq<Byte>)
    ensures Decode(Encode(h) + rest) == h
  {
    T.BytesOfWord(h.to);
    T.BytesOfWord(h.from);
    T.BytesOfWord(h.length);
  }

  // ---------------------------------------------------------------- letters

  datatype Letter = Letter(to: Word, from: Word, toBox: Word, fromBox: Word, data: seq<Byte>)

  predicate LetterOk(l: Letter, numBoxes: nat) {
    |l.data| <= MaxMailSize && 0 <= l.toBox < numBoxes
  }

  /** What PostOffice::Send hands to the network: the mail header before the data. */
  function Payload(l: Letter): (s: seq<Byte>)
    requires |l.data| <= MaxMailSize
    ensures |s| == HeaderSize + |l.data|
  {
    Encode(Header(l.toBox, l.fromBox, |l.data|)) + l.data
  }

  /** What Network::Send puts into the socket. */
  function Wire(l: Letter, padding: seq<Byte>): seq<Byte>
    requires |l.data| <= MaxMailSize
  {
    Encode(Header(l.to, l.from, HeaderSize + |l.data|)) + Payload(l) + padding
  }

  /** The letter that PostalDelivery makes of a packet header and the bytes that came with it. */
  function Letters(h: Header, payload: seq<Byte>): Letter
    requires |payload| >= HeaderSize && 0 <= Decode(payload).length <= |payload| - HeaderSize
  {
    var m := Decode(payload);
    Letter(h.to, h.from, m.to, m.from, payload[HeaderSize..HeaderSize + m.length])
  }

  /** The bytes say what was sent, whatever the padding. */
  lemma WireRoundTrip(l: Letter, padding: seq<Byte>)
    requires |l.data| <= MaxMailSize
    ensures var w := Wire(l, padding);
            && |w| == 2 * HeaderSize + |l.data| + |padding|
            && Decode(w) == Header(l.to, l.from, HeaderSize + |l.data|)
            && w[HeaderSize..HeaderSize + Decode(w).length] == Payload(l)
  {
    var h := Header(l.to, l.from, HeaderSize + |l.data|);
    DecodeEncode(h, Payload(l) + padding);
    assert Wire(l, padding) == Encode(h) + (Payload(l) + padding);
  }

  lemma PayloadRoundTrip(l: Letter)
    requires |l.data| <= MaxMailSize
    ensures Decode(Payload(l)) == Header(l.toBox, l.fromBox, |l.data|)
    ensures Letters(Header(l.to, l.from, HeaderSize + |l.data|), Payload(l)) == l
  {
    DecodeEncode(Header(l.toBox, l.fromBox, |l.data|), l.data);
    AfterHeader(Encode(Header(l.toBox, l.fromBox, |l.data|)), l.data);
  }

  lemma AfterHeader(header: seq<Byte>, data: seq<Byte>)
    ensures (header + data)[|header|..|header| + |data|] == data
  {}
}
