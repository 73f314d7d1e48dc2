/** The five-byte packet of the inexio serial touchscreen, on values: which
    bytes start a packet, how a run of received bytes falls apart into
    packets and a left-over tail, and how a packet's coordinates decode. */
module InexioPacket {

  /** One byte as received from the serial line (`unsigned char`). */
  type Byte = b: int | 0 <= b < 0x100

  /** INEXIO_BODY_LEN: bytes in one packet, the status byte included. */
  const BODY_LEN: nat := 5
  /** INEXIO_BUFFER_LEN: capacity of the receive buffer. */
  const BUFFER_LEN: nat := 256
  /** Declared size of the record's `body` array, of which a packet uses the first five bytes. */
  const BODY_SIZE: nat := 16
  /** INEXIO_BUTTON_UP; the framer also uses it as the mask of the status bit. */
  const BUTTON_UP: Byte := 0x80
  /** INEXIO_BUTTON_DOWN. */
  const BUTTON_DOWN: Byte := 0x81
  /** INEXIO_MAX_X and INEXIO_MAX_Y: the largest coordinate a device sends. */
  const MAX_COORD: int := 0x3FFF

  /** The framer's test `c & INEXIO_BUTTON_UP`: only the top bit is looked
      at, which for an unsigned byte means every byte from 0x80 to 0xFF
      starts a packet. */
  predicate IsStatus(b: Byte) {
    b >= BUTTON_UP
  }

  /** The status test is the source's mask on the 8-bit value: the top bit
      of the byte is set. */
  lemma StatusIsTopBit(b: Byte)
    ensures IsStatus(b) <==> (b as bv8) & (BUTTON_UP as bv8) != 0
  {
  }

  /** A well-formed frame: five bytes led by a status byte. */
  predicate IsPacket(p: seq<Byte>) {
    |p| == BODY_LEN && IsStatus(p[0])
  }

  function Last<T>(s: seq<T>): (x: T)
    requires s != []
  {
    s[|s| - 1]
  }

  /** The index of the first status byte in s, or |s| when there is none. */
  function FirstStatus(s: seq<Byte>): (i: nat)
    ensures i <= |s|
    ensures forall j :: 0 <= j < i ==> !IsStatus(s[j])
    ensures i < |s| ==> IsStatus(s[i])
  {
    if s == [] then 0
    else if IsStatus(s[0]) then 0
    else 1 + FirstStatus(s[1..])
  }

  /** Reference framing of a run of bytes: skip bytes that are not status
      bytes; a status byte with at least BODY_LEN bytes from it onward
      starts a packet, which is taken whole; a status byte with fewer is
      the start of the tail that waits for more input. The result is the
      packets in arrival order and that tail. */
  function Split(s: seq<Byte>): (r: (seq<seq<Byte>>, seq<Byte>))
    ensures forall k :: 0 <= k < |r.0| ==> IsPacket(r.0[k])
    ensures r.1 == [] || (|r.1| < BODY_LEN && IsStatus(r.1[0]))
    ensures |r.1| <= |s|
    decreases |s|
  {
    if s == [] then ([], [])
    else if !IsStatus(s[0]) then Split(s[1..])
    else if |s| >= BODY_LEN then
      var rest := Split(s[BODY_LEN..]);
      ([s[..BODY_LEN]] + rest.0, rest.1)
    else ([], s)
  }

  /** The first step of the framing, stated through the first status byte:
      there is a packet exactly when that byte has BODY_LEN bytes from it
      onward, the first packet is those bytes, and otherwise the tail is
      everything from that byte on (nothing at all for an all-noise run). */
  lemma {:induction false} SplitFirst(s: seq<Byte>)
    ensures var i := FirstStatus(s);
      && (Split(s).0 != [] <==> i + BODY_LEN <= |s|)
      && (Split(s).0 != [] ==> Split(s).0[0] == s[i..i + BODY_LEN])
      && (Split(s).0 == [] ==> Split(s).1 == s[i..])
    decreases |s|
  {
    if s == [] {
    } else if IsStatus(s[0]) {
      assert FirstStatus(s) == 0;
      if |s| >= BODY_LEN {
        var rest := Split(s[BODY_LEN..]);
        assert Split(s) == ([s[..BODY_LEN]] + rest.0, rest.1);
      } else {
        assert Split(s) == ([], s);
      }
    } else {
      var t := s[1..];
      assert Split(s) == Split(t);
      assert FirstStatus(s) == 1 + FirstStatus(t);
      SplitFirst(t);
      var i := FirstStatus(t);
      assert t[i..] == s[i + 1..];
      if i + BODY_LEN <= |t| {
        assert t[i..i + BODY_LEN] == s[i + 1..i + 1 + BODY_LEN];
      }
    }
  }

  /** A run with no status byte yields no packet and leaves nothing behind. */
  lemma SplitAllNoise(s: seq<Byte>)
    requires forall j :: 0 <= j < |s| ==> !IsStatus(s[j])
    ensures Split(s) == ([], [])
  {
    SplitFirst(s);
    assert FirstStatus(s) == |s|;
  }

  /** Noise before a packet is dropped and the packet comes out first,
      followed by whatever the remaining bytes yield. */
  lemma {:induction false} SplitNoiseThenPacket(noise: seq<Byte>, p: seq<Byte>, t: seq<Byte>)
    requires forall j :: 0 <= j < |noise| ==> !IsStatus(noise[j])
    requires IsPacket(p)
    ensures Split(noise + p + t) == ([p] + Split(t).0, Split(t).1)
    decreases |noise|
  {
    var s := noise + p + t;
    if noise == [] {
      assert s == p + t;
      assert s[..BODY_LEN] == p && s[BODY_LEN..] == t;
    } else {
      assert !IsStatus(s[0]);
      assert s[1..] == noise[1..] + p + t;
      SplitNoiseThenPacket(noise[1..], p, t);
    }
  }

  /** A packet on its own frames to itself, with nothing left over. */
  lemma SplitPacket(p: seq<Byte>)
    requires IsPacket(p)
    ensures Split(p) == ([p], [])
  {
    assert p[..BODY_LEN] == p && p[BODY_LEN..] == [];
    assert [p] + [] == [p];
  }

  /** The tail is a contiguous suffix of the input, in order. */
  lemma {:induction false} SplitTailIsSuffix(s: seq<Byte>)
    ensures Split(s).1 == s[|s| - |Split(s).1|..]
    decreases |s|
  {
    if s != [] && !IsStatus(s[0]) {
      SplitTailIsSuffix(s[1..]);
      assert s[1..][|s| - 1 - |Split(s).1|..] == s[|s| - |Split(s).1|..];
    } else if s != [] && |s| >= BODY_LEN {
      var t := s[BODY_LEN..];
      SplitTailIsSuffix(t);
      assert t[|t| - |Split(t).1|..] == s[|s| - |Split(t).1|..];
    }
  }

  /** The tail is never itself the start of a complete packet: framing it
      again gives it back unchanged. */
  lemma SplitTailIsStable(s: seq<Byte>)
    ensures Split(Split(s).1) == ([], Split(s).1)
  {
    var t := Split(s).1;
    if t != [] {
      assert IsStatus(t[0]) && |t| < BODY_LEN;
    }
  }

  /** A leading noise byte is skipped and a packet extracted, with a new
      status byte left waiting as the tail; for instance 0x05, then
      {0x81, 0x10, 0x20, 0x30, 0x40}, then 0x81. */
  lemma NoiseSkippedTailKept(n: Byte, p: seq<Byte>, b: Byte)
    requires !IsStatus(n) && IsPacket(p) && IsStatus(b)
    ensures Split([n] + p + [b]) == ([p], [b])
  {
    var none: seq<seq<Byte>> := [];
    SplitNoiseThenPacket([n], p, [b]);
    assert Split([b]) == (none, [b]);
    assert [p] + none == [p];
  }

  /** `body[0] & 1`: bit 0 of the status byte, its parity, tells a touch
      from a release. */
  function IsDown(status: Byte): (down: bool)
    ensures status == BUTTON_DOWN ==> down
    ensures status == BUTTON_UP ==> !down
  {
    status % 2 == 1
  }

  /** The touch test is the source's mask `& 1` on the 8-bit value. */
  lemma DownIsBitZero(status: Byte)
    ensures IsDown(status) <==> (status as bv8) & 1 == 1
  {
  }

  /** `low + (high << 7)` with both bytes promoted to int, so no bit is lost.
      The framer does not check the top bit of the coordinate bytes, so the
      value only stays within MAX_COORD when both are 7-bit fields. */
  function Coord(high: Byte, low: Byte): (c: int)
    ensures 0 <= c <= 0xFF + 0xFF * 0x80
    ensures high < 0x80 && low < 0x80 ==> c <= MAX_COORD
  {
    low as int + high as int * 0x80
  }

  /** The device side of the packing: a coordinate as its high and low 7-bit fields. */
  function EncodeCoord(c: int): (r: (Byte, Byte))
    requires 0 <= c <= MAX_COORD
    ensures r.0 < 0x80 && r.1 < 0x80
  {
    (c / 0x80, c % 0x80)
  }

  /** Decoding undoes the packing for every coordinate in range. */
  lemma DecodeEncode(c: int)
    requires 0 <= c <= MAX_COORD
    ensures Coord(EncodeCoord(c).0, EncodeCoord(c).1) == c
  {
  }

  /** Packing undoes decoding for every pair of 7-bit fields. */
  lemma EncodeDecode(high: Byte, low: Byte)
    requires high < 0x80 && low < 0x80
    ensures EncodeCoord(Coord(high, low)) == (high, low)
  {
  }

  /** The worked example: {0x81, 0x01, 0x02, 0x00, 0x05} is a touch at (130, 5). */
  lemma DecodeExample()
    ensures IsDown(0x81) && Coord(0x01, 0x02) == 130 && Coord(0x00, 0x05) == 5
  {
  }
}
