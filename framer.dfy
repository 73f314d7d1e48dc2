/** The framer of the driver as a function of the record's receive buffer:
    `_inexio_read_packet` (src/xf86inexio.c:580-627) and the read step that
    feeds it (src/xf86inexio.c:334-337), on the whole 256-byte buffer, the
    fill count `bufferi` and the 16-byte `body`, so that what `memmove`
    leaves behind the fill is part of the result too. */
module InexioFramer {
  import opened InexioPacket

  /** `memmove(a, &a[from], len)`: the first len bytes become the len bytes
      starting at from; every later byte keeps its old value. */
  function MoveFront(a: seq<Byte>, from: nat, len: nat): (r: seq<Byte>)
    requires from + len <= |a|
    ensures |r| == |a|
  {
    a[from..from + len] + a[len..]
  }

  lemma MoveFrontElements(a: seq<Byte>, from: nat, len: nat)
    requires from + len <= |a|
    ensures forall i :: 0 <= i < len ==> MoveFront(a, from, len)[i] == a[from + i]
    ensures forall i :: len <= i < |a| ==> MoveFront(a, from, len)[i] == a[i]
  {
  }

  /** What `_inexio_read_packet` leaves in the record, and whether it returned Success. */
  datatype Framed = Framed(buffer: seq<Byte>, bufferi: int, body: seq<Byte>, success: bool)

  predicate Shaped(buffer: seq<Byte>, bufferi: int, body: seq<Byte>) {
    |buffer| == BUFFER_LEN && bufferi <= BUFFER_LEN && |body| == BODY_SIZE
  }

  /** The bytes the framer looks at: the first `bufferi` of the buffer, none
      when the fill is negative. */
  function Pending(buffer: seq<Byte>, bufferi: int): (s: seq<Byte>)
    requires bufferi <= |buffer|
  {
    if bufferi < 0 then [] else buffer[..bufferi]
  }

  /** The scanning loop of `_inexio_read_packet` from a given `count`: a byte
      without the status bit is stepped over; a status byte with at least
      BODY_LEN bytes up to the fill is copied into `body`, the bytes after it
      are moved to the front, the fill shrinks and the scan restarts at 0;
      anything else ends the loop. */
  function Scan(buffer: seq<Byte>, bufferi: int, count: nat, body: seq<Byte>, success: bool): (r: Framed)
    requires Shaped(buffer, bufferi, body)
    requires count <= bufferi || count == 0
    ensures Shaped(r.buffer, r.bufferi, r.body) && 0 <= r.bufferi
    decreases if bufferi < 0 then 0 else bufferi, bufferi - count
  {
    if count < bufferi && !IsStatus(buffer[count]) then
      Scan(buffer, bufferi, count + 1, body, success)
    else if count < bufferi && bufferi - count >= BODY_LEN then
      Scan(MoveFront(buffer, count + BODY_LEN, bufferi - count - BODY_LEN),
           bufferi - (count + BODY_LEN), 0,
           buffer[count..count + BODY_LEN] + body[BODY_LEN..], true)
    else
      Finish(buffer, bufferi, count, body, success)
  }

  /** The code after the loop: move the bytes from `count` on to the front,
      subtract `count` from the fill and clamp a negative fill to 0. */
  function Finish(buffer: seq<Byte>, bufferi: int, count: nat, body: seq<Byte>, success: bool): (r: Framed)
    requires Shaped(buffer, bufferi, body)
    requires count <= bufferi || count == 0
    ensures Shaped(r.buffer, r.bufferi, r.body) && 0 <= r.bufferi
  {
    var moved := if bufferi - count > 0 then MoveFront(buffer, count, bufferi - count) else buffer;
    var left := bufferi - count;
    Framed(moved, if left < 0 then 0 else left, body, success)
  }

  /** The three ways one round of the scan goes, each as an equation. */
  lemma ScanSkip(buffer: seq<Byte>, bufferi: int, count: nat, body: seq<Byte>, success: bool)
    requires Shaped(buffer, bufferi, body) && count < bufferi && !IsStatus(buffer[count])
    ensures Scan(buffer, bufferi, count, body, success) == Scan(buffer, bufferi, count + 1, body, success)
  {
  }

  lemma ScanTake(buffer: seq<Byte>, bufferi: int, count: nat, body: seq<Byte>, success: bool)
    requires Shaped(buffer, bufferi, body) && count + BODY_LEN <= bufferi && IsStatus(buffer[count])
    ensures Scan(buffer, bufferi, count, body, success)
         == Scan(MoveFront(buffer, count + BODY_LEN, bufferi - count - BODY_LEN),
                 bufferi - (count + BODY_LEN), 0,
                 buffer[count..count + BODY_LEN] + body[BODY_LEN..], true)
  {
  }

  lemma ScanStop(buffer: seq<Byte>, bufferi: int, count: nat, body: seq<Byte>, success: bool)
    requires Shaped(buffer, bufferi, body) && (count <= bufferi || count == 0)
    requires count < bufferi ==> IsStatus(buffer[count]) && bufferi - count < BODY_LEN
    ensures Scan(buffer, bufferi, count, body, success) == Finish(buffer, bufferi, count, body, success)
  {
  }

  /** One call of `_inexio_read_packet`: the scan starts at 0 and reports failure until a frame is taken. */
  function ReadPacket(buffer: seq<Byte>, bufferi: int, body: seq<Byte>): (r: Framed)
    requires Shaped(buffer, bufferi, body)
    ensures Shaped(r.buffer, r.bufferi, r.body) && 0 <= r.bufferi
  {
    Scan(buffer, bufferi, 0, body, false)
  }

  /** The scan from `count` frames exactly the bytes between `count` and the
      fill as the reference framing does: the fill ends as the tail, Success
      is reported if a packet was taken now or before, and `body` holds the
      last packet taken, its bytes past BODY_LEN untouched. */
  lemma {:induction false} ScanMatchesSplit(buffer: seq<Byte>, bufferi: int, count: nat, body: seq<Byte>, success: bool)
    requires Shaped(buffer, bufferi, body) && 0 <= count <= bufferi
    ensures var r := Scan(buffer, bufferi, count, body, success);
      var sp := Split(buffer[count..bufferi]);
      && r.buffer[..r.bufferi] == sp.1
      && r.success == (success || sp.0 != [])
      && r.body == (if sp.0 == [] then body else Last(sp.0) + body[BODY_LEN..])
    decreases bufferi, bufferi - count, 1
  {
    if count < bufferi && !IsStatus(buffer[count]) {
      assert buffer[count..bufferi][1..] == buffer[count + 1..bufferi];
      ScanSkip(buffer, bufferi, count, body, success);
      ScanMatchesSplit(buffer, bufferi, count + 1, body, success);
    } else if count < bufferi && bufferi - count >= BODY_LEN {
      TakeMatchesSplit(buffer, bufferi, count, body, success);
    } else {
      var s := buffer[count..bufferi];
      ScanStop(buffer, bufferi, count, body, success);
      assert Split(s) == ([], s);
      assert Finish(buffer, bufferi, count, body, success).buffer[..bufferi - count] == s;
    }
  }

  /** The case of ScanMatchesSplit where a frame is taken at `count`. */
  lemma {:induction false} TakeMatchesSplit(buffer: seq<Byte>, bufferi: int, count: nat, body: seq<Byte>, success: bool)
    requires Shaped(buffer, bufferi, body) && count + BODY_LEN <= bufferi && IsStatus(buffer[count])
    ensures var r := Scan(buffer, bufferi, count, body, success);
      var sp := Split(buffer[count..bufferi]);
      && r.buffer[..r.bufferi] == sp.1
      && r.success == (success || sp.0 != [])
      && r.body == (if sp.0 == [] then body else Last(sp.0) + body[BODY_LEN..])
    decreases bufferi, bufferi - count, 0
  {
    var s := buffer[count..bufferi];
    var left := bufferi - (count + BODY_LEN);
    var moved := MoveFront(buffer, count + BODY_LEN, left);
    var p := buffer[count..count + BODY_LEN];
    var body' := p + body[BODY_LEN..];
    assert s[..BODY_LEN] == p;
    assert moved[0..left] == s[BODY_LEN..];
    assert body'[BODY_LEN..] == body[BODY_LEN..];
    ScanTake(buffer, bufferi, count, body, success);
    ScanMatchesSplit(moved, left, 0, body', true);
    var rest := Split(s[BODY_LEN..]);
    assert Split(s) == ([p] + rest.0, rest.1);
  }

  /** `_inexio_read_packet` against the reference framing of its pending
      bytes: what remains filled is the tail, it succeeds exactly when at
      least one packet is present, and `body` then holds the last packet
      taken (several complete frames are all consumed in one call) and is
      left as it was otherwise. A negative fill is clamped to 0 without
      touching the buffer. */
  lemma ReadPacketMatchesSplit(buffer: seq<Byte>, bufferi: int, body: seq<Byte>)
    requires Shaped(buffer, bufferi, body)
    ensures var r := ReadPacket(buffer, bufferi, body);
      var sp := Split(Pending(buffer, bufferi));
      && r.buffer[..r.bufferi] == sp.1
      && r.success == (sp.0 != [])
      && r.body == (if sp.0 == [] then body else Last(sp.0) + body[BODY_LEN..])
      && (bufferi < 0 ==> r == Framed(buffer, 0, body, false))
  {
    if 0 <= bufferi {
      ScanMatchesSplit(buffer, bufferi, 0, body, false);
      assert buffer[0..bufferi] == Pending(buffer, bufferi);
    }
  }

  /** Success condition: `_inexio_read_packet` returns Success exactly when
      the first byte with its top bit set has at least BODY_LEN bytes from
      it to the fill; `body[0]` then has its top bit set (the other four
      bytes are not checked); on failure `body` is unchanged. */
  lemma ReadPacketSuccess(buffer: seq<Byte>, bufferi: int, body: seq<Byte>)
    requires Shaped(buffer, bufferi, body)
    ensures var r := ReadPacket(buffer, bufferi, body);
      var s := Pending(buffer, bufferi);
      && (r.success <==> FirstStatus(s) + BODY_LEN <= |s|)
      && (r.success ==> IsStatus(r.body[0]) && Split(s).0 != [] && r.body[..BODY_LEN] == Last(Split(s).0))
      && (!r.success ==> r.body == body)
  {
    var s := Pending(buffer, bufferi);
    ReadPacketMatchesSplit(buffer, bufferi, body);
    SplitFirst(s);
    var r := ReadPacket(buffer, bufferi, body);
    if r.success {
      var p := Last(Split(s).0);
      assert IsPacket(p);
      assert r.body[..BODY_LEN] == p;
    }
  }

  /** Post-state of the buffer: the fill ends as 0, or as 1 to 4 with a
      status byte at `buffer[0]`; it never grows; the bytes left are a
      contiguous suffix, in order, of the bytes pending before the call;
      and they hold no complete frame. */
  lemma ReadPacketPostState(buffer: seq<Byte>, bufferi: int, body: seq<Byte>)
    requires Shaped(buffer, bufferi, body)
    ensures var r := ReadPacket(buffer, bufferi, body);
      var s := Pending(buffer, bufferi);
      var left := r.buffer[..r.bufferi];
      && 0 <= r.bufferi < BODY_LEN
      && (r.bufferi == 0 || IsStatus(r.buffer[0]))
      && r.bufferi <= |s|
      && left == s[|s| - r.bufferi..]
      && Split(left) == ([], left)
  {
    var s := Pending(buffer, bufferi);
    ReadPacketMatchesSplit(buffer, bufferi, body);
    SplitTailIsSuffix(s);
    SplitTailIsStable(s);
    var r := ReadPacket(buffer, bufferi, body);
    if r.bufferi > 0 {
      assert r.buffer[..r.bufferi][0] == r.buffer[0];
    }
  }

  /** An all-noise buffer is emptied and the call fails, leaving `body` alone. */
  lemma ReadPacketAllNoise(buffer: seq<Byte>, bufferi: int, body: seq<Byte>)
    requires Shaped(buffer, bufferi, body)
    requires forall j :: 0 <= j < bufferi ==> !IsStatus(buffer[j])
    ensures var r := ReadPacket(buffer, bufferi, body);
      r.bufferi == 0 && !r.success && r.body == body
  {
    var s := Pending(buffer, bufferi);
    assert forall j :: 0 <= j < |s| ==> !IsStatus(s[j]);
    SplitAllNoise(s);
    ReadPacketMatchesSplit(buffer, bufferi, body);
  }

  /** What one `read()` returned: the bytes read, or -1 for an error. */
  datatype ReadResult = Bytes(data: seq<Byte>) | ReadError

  /** `read()` never returns more than the `INEXIO_BODY_LEN - bufferi` bytes
      asked for; when the fill exceeds BODY_LEN no read is made at all. */
  predicate ReadFits(bufferi: int, rd: ReadResult) {
    bufferi <= BODY_LEN && rd.Bytes? ==> |rd.data| <= BODY_LEN - bufferi
  }

  /** The read step as written: unless the fill exceeds BODY_LEN, the bytes
      read are stored at `buffer[bufferi]` and the fill is then SET to the
      number of bytes read (or to -1), not increased by it. */
  function Feed(buffer: seq<Byte>, bufferi: int, rd: ReadResult): (r: (seq<Byte>, int))
    requires |buffer| == BUFFER_LEN && 0 <= bufferi <= BUFFER_LEN && ReadFits(bufferi, rd)
    ensures |r.0| == BUFFER_LEN && -1 <= r.1 <= BUFFER_LEN
    ensures bufferi <= BODY_LEN ==> r.1 <= BODY_LEN
    ensures bufferi > BODY_LEN ==> r == (buffer, bufferi)
    ensures bufferi <= BODY_LEN ==> match rd
      case ReadError => r == (buffer, -1)
      case Bytes(d) => r.1 == |d| && r.0[bufferi..bufferi + |d|] == d
  {
    if BODY_LEN - bufferi < 0 then (buffer, bufferi)
    else match rd
      case ReadError => (buffer, -1)
      case Bytes(d) => (buffer[..bufferi] + d + buffer[bufferi + |d|..], |d|)
  }

  /** The read step writes only where read() was told to: an error leaves
      the whole buffer alone, and a read of d changes no byte outside
      `buffer[bufferi..bufferi + |d|]`; in particular the bytes already
      waiting and every byte from BODY_LEN on keep their values. */
  lemma FeedKeepsOtherBytes(buffer: seq<Byte>, bufferi: int, rd: ReadResult)
    requires |buffer| == BUFFER_LEN && 0 <= bufferi <= BUFFER_LEN && ReadFits(bufferi, rd)
    ensures var r := Feed(buffer, bufferi, rd);
      match rd
      case ReadError => r.0 == buffer
      case Bytes(d) => forall j :: 0 <= j < BUFFER_LEN && !(bufferi <= j < bufferi + |d|) ==> r.0[j] == buffer[j]
    ensures var r := Feed(buffer, bufferi, rd);
      && (forall j :: BODY_LEN <= j < BUFFER_LEN ==> r.0[j] == buffer[j])
      && (forall j :: 0 <= j < bufferi ==> r.0[j] == buffer[j])
  {
  }

  /** With reads bounded as above, the framer never holds more than one
      complete frame at a time, so no frame is overwritten in `body` before
      it is translated. */
  lemma FeedAtMostOnePacket(buffer: seq<Byte>, bufferi: int, rd: ReadResult)
    requires |buffer| == BUFFER_LEN && 0 <= bufferi < BODY_LEN && ReadFits(bufferi, rd)
    ensures var f := Feed(buffer, bufferi, rd);
      |Split(Pending(f.0, f.1)).0| <= 1
  {
    var f := Feed(buffer, bufferi, rd);
    var s := Pending(f.0, f.1);
    assert |s| <= BODY_LEN;
    SplitTwoPacketsNeedTen(s);
  }

  /** Two packets take at least 2 * BODY_LEN bytes. */
  lemma {:induction false} SplitTwoPacketsNeedTen(s: seq<Byte>)
    ensures |Split(s).0| >= 2 ==> |s| >= 2 * BODY_LEN
    decreases |s|
  {
    if s != [] && !IsStatus(s[0]) {
      SplitTwoPacketsNeedTen(s[1..]);
    } else if s != [] && |s| >= BODY_LEN {
      SplitOnePacketNeedsFive(s[BODY_LEN..]);
    }
  }

  /** One packet takes at least BODY_LEN bytes. */
  lemma {:induction false} SplitOnePacketNeedsFive(s: seq<Byte>)
    ensures |Split(s).0| >= 1 ==> |s| >= BODY_LEN
    decreases |s|
  {
    if s != [] && !IsStatus(s[0]) {
      SplitOnePacketNeedsFive(s[1..]);
    }
  }
}
