/** One pass of the loop in `InexioReadInput` (src/xf86inexio.c:332-384) on
    values: read, frame, and translate a frame when one was found, and a
    run of such passes over the results of successive reads. */
module InexioInput {
  import opened InexioPacket
  import opened InexioFramer
  import opened InexioTranslator

  /** The part of `InexioDeviceRec` the core reads and writes. */
  datatype Device = Device(buffer: seq<Byte>, bufferi: int, body: seq<Byte>, touch: TouchState)

  predicate WellFormed(d: Device) {
    Shaped(d.buffer, d.bufferi, d.body)
  }

  /** The record as `InexioPreInit` leaves it: zeroed by `xcalloc`, then
      released at (0, 0) with an empty buffer. */
  function Initial(): (d: Device)
    ensures WellFormed(d) && d.bufferi == 0 && d.touch == INITIAL_TOUCH
  {
    Device(seq(BUFFER_LEN, _ => 0), 0, seq(BODY_SIZE, _ => 0), INITIAL_TOUCH)
  }

  /** One pass: the read step, `_inexio_read_packet`, and on Success the
      translation of `body[0..5]`. Afterwards the fill is always below
      BODY_LEN, so the next pass can read again. */
  function Step(d: Device, buttonNumber: int, rd: ReadResult): (r: (Device, seq<Event>))
    requires WellFormed(d) && 0 <= d.bufferi && ReadFits(d.bufferi, rd)
    ensures WellFormed(r.0) && 0 <= r.0.bufferi < BODY_LEN
    ensures r.1 == [] || r.1[0].Motion?
  {
    var fed := Feed(d.buffer, d.bufferi, rd);
    var f := ReadPacket(fed.0, fed.1, d.body);
    ReadPacketPostState(fed.0, fed.1, d.body);
    if f.success then
      var out := Translate(d.touch, buttonNumber, f.body[..BODY_LEN]);
      (Device(f.buffer, f.bufferi, f.body, out.0), out.1)
    else
      (Device(f.buffer, f.bufferi, f.body, d.touch), [])
  }

  /** The device and the events after a run of passes, and whether every
      read of the run asked for no more bytes than its pass allows. */
  datatype Outcome = Outcome(device: Device, events: seq<Event>, fits: bool)

  /** The loop of `InexioReadInput` on values: the first n passes, one per
      read result, in order, with the events of all of them in the order
      posted. read() stores at most the count it is given, so a result
      longer than that cannot occur; should one appear, the run stops
      there with `fits` false. */
  function Run(d: Device, buttonNumber: int, results: seq<ReadResult>, n: nat): (r: Outcome)
    requires WellFormed(d) && 0 <= d.bufferi && n <= |results|
    ensures WellFormed(r.device) && 0 <= r.device.bufferi
    ensures n > 0 && r.fits ==> r.device.bufferi < BODY_LEN
  {
    if n == 0 then Outcome(d, [], true)
    else
      var before := Run(d, buttonNumber, results, n - 1);
      if before.fits && ReadFits(before.device.bufferi, results[n - 1]) then
        var now := Step(before.device, buttonNumber, results[n - 1]);
        Outcome(now.0, before.events + now.1, true)
      else Outcome(before.device, before.events, false)
  }

  /** Every read of a run asks for no more than the pass it belongs to allows. */
  predicate ReadsFit(d: Device, buttonNumber: int, results: seq<ReadResult>)
    requires WellFormed(d) && 0 <= d.bufferi
  {
    Run(d, buttonNumber, results, |results|).fits
  }

  /** A run whose reads fit also fits up to every earlier pass. */
  lemma {:induction false} RunFitsBefore(d: Device, buttonNumber: int, results: seq<ReadResult>, n: nat, m: nat)
    requires WellFormed(d) && 0 <= d.bufferi && m <= n <= |results|
    requires Run(d, buttonNumber, results, n).fits
    ensures Run(d, buttonNumber, results, m).fits
    decreases n
  {
    if m < n {
      RunFitsBefore(d, buttonNumber, results, n - 1, m);
    }
  }

  /** A run that has reached pass i goes on by that pass. */
  lemma RunExtends(d: Device, buttonNumber: int, results: seq<ReadResult>, i: nat, cur: Device, posted: seq<Event>)
    requires WellFormed(d) && 0 <= d.bufferi && ReadsFit(d, buttonNumber, results) && i < |results|
    requires Run(d, buttonNumber, results, i) == Outcome(cur, posted, true)
    ensures WellFormed(cur) && 0 <= cur.bufferi && ReadFits(cur.bufferi, results[i])
    ensures var step := Step(cur, buttonNumber, results[i]);
      Run(d, buttonNumber, results, i + 1) == Outcome(step.0, posted + step.1, true)
  {
    RunFitsBefore(d, buttonNumber, results, |results|, i + 1);
  }

  /** Reads that each deliver one whole packet, the k-th read the k-th packet. */
  predicate WholeReads(results: seq<ReadResult>, packets: seq<seq<Byte>>) {
    && |results| == |packets|
    && forall k :: 0 <= k < |packets| ==> |packets[k]| == BODY_LEN && IsStatus(packets[k][0]) && results[k] == Bytes(packets[k])
  }

  /** When every read delivers exactly one whole packet, starting from an
      empty buffer, the first n passes post exactly what translating the
      first n packets one after the other posts, end in the same touch
      state, and leave the buffer empty. */
  lemma {:induction false} RunOfWholePackets(d: Device, buttonNumber: int, results: seq<ReadResult>, packets: seq<seq<Byte>>, n: nat)
    requires WellFormed(d) && d.bufferi == 0 && WholeReads(results, packets) && n <= |packets|
    ensures var r := Run(d, buttonNumber, results, n);
      var t := TranslateAll(d.touch, buttonNumber, packets[..n]);
      r.fits && r.device.bufferi == 0 && r.device.touch == t.0 && r.events == t.1
    decreases n
  {
    if n > 0 {
      RunOfWholePackets(d, buttonNumber, results, packets, n - 1);
      assert packets[..n][..n - 1] == packets[..n - 1];
      var before := Run(d, buttonNumber, results, n - 1);
      WholePacketIsTranslated(before.device, buttonNumber, packets[n - 1]);
    }
  }

  /** Hence, over a whole such run, one motion event per packet and one
      button event per change of touch state, with the last touched
      position held. */
  lemma RunOfWholePacketsCounts(d: Device, buttonNumber: int, results: seq<ReadResult>, packets: seq<seq<Byte>>)
    requires WellFormed(d) && d.bufferi == 0 && WholeReads(results, packets)
    ensures ReadsFit(d, buttonNumber, results)
    ensures var r := Run(d, buttonNumber, results, |results|);
      && CountMotions(r.events) == |packets|
      && CountButtons(r.events) == Changes(d.touch, packets)
      && r.device.touch == HeldState(d.touch, packets)
  {
    RunOfWholePackets(d, buttonNumber, results, packets, |packets|);
    assert packets[..|packets|] == packets;
    TranslateAllSummary(d.touch, buttonNumber, packets);
  }

  /** A read error sets the fill to -1, so the framer clamps it to 0 and
      drops any partial frame that was waiting; nothing is posted. */
  lemma ErrorDropsPartialFrame(d: Device, buttonNumber: int)
    requires WellFormed(d) && 0 <= d.bufferi < BODY_LEN
    ensures var r := Step(d, buttonNumber, ReadError);
      r.0.bufferi == 0 && r.1 == [] && r.0.touch == d.touch && r.0.buffer == d.buffer
  {
    ReadPacketMatchesSplit(d.buffer, -1, d.body);
  }

  /** A read of one whole packet into an empty buffer posts exactly what
      translating that packet posts, and empties the buffer again. */
  lemma WholePacketIsTranslated(d: Device, buttonNumber: int, p: seq<Byte>)
    requires WellFormed(d) && d.bufferi == 0 && IsPacket(p)
    ensures var r := Step(d, buttonNumber, Bytes(p));
      && r.0.bufferi == 0
      && r.0.body[..BODY_LEN] == p
      && (r.0.touch, r.1) == Translate(d.touch, buttonNumber, p)
  {
    var fed := Feed(d.buffer, 0, Bytes(p));
    assert Pending(fed.0, fed.1) == p;
    SplitPacket(p);
    ReadPacketMatchesSplit(fed.0, fed.1, d.body);
  }

  /** Because the read step sets the fill to the number of bytes just
      read, a partial frame that is waiting never completes: whatever the
      read returns, the pass posts nothing. With k bytes waiting the read
      asks for at most BODY_LEN - k, so the framer sees fewer than BODY_LEN
      bytes. */
  lemma PartialFrameNeverCompletes(d: Device, buttonNumber: int, rd: ReadResult)
    requires WellFormed(d) && 0 < d.bufferi < BODY_LEN && ReadFits(d.bufferi, rd)
    ensures Step(d, buttonNumber, rd).1 == []
  {
    var fed := Feed(d.buffer, d.bufferi, rd);
    SplitOnePacketNeedsFive(Pending(fed.0, fed.1));
    ReadPacketMatchesSplit(fed.0, fed.1, d.body);
  }

  /** Once a pass leaves a partial frame, its status byte stays at
      `buffer[0]`: a later read writes behind it, the fill becomes the
      number of bytes read, fewer than BODY_LEN, and the framer stops at
      that byte. The pass posts nothing and keeps the touch state; the
      buffer is emptied only by a read of 0 bytes or an error, and
      otherwise keeps the same status byte in front. */
  lemma PartialFrameKeepsStatus(d: Device, buttonNumber: int, rd: ReadResult)
    requires WellFormed(d) && 0 < d.bufferi < BODY_LEN && IsStatus(d.buffer[0]) && ReadFits(d.bufferi, rd)
    ensures var r := Step(d, buttonNumber, rd);
      && r.1 == []
      && r.0.touch == d.touch
      && (r.0.bufferi == 0 <==> rd == ReadError || rd == Bytes([]))
      && (r.0.bufferi != 0 ==> r.0.buffer[0] == d.buffer[0])
  {
    var fed := Feed(d.buffer, d.bufferi, rd);
    var s := Pending(fed.0, fed.1);
    ReadPacketMatchesSplit(fed.0, fed.1, d.body);
    if rd.Bytes? && rd.data != [] {
      assert s[0] == d.buffer[0];
      assert Split(s) == ([], s);
    }
  }

  /** Hence the driver stalls: from a partial frame with its status byte in
      front, a run of reads that each return at least one byte posts
      nothing at all, keeps the touch state, and keeps that byte in front
      with a non-empty fill; only a read of 0 bytes or an error ends it. */
  lemma {:induction false} StallOverRun(d: Device, buttonNumber: int, results: seq<ReadResult>, n: nat)
    requires WellFormed(d) && 0 < d.bufferi < BODY_LEN && IsStatus(d.buffer[0]) && n <= |results|
    requires forall k :: 0 <= k < |results| ==> results[k].Bytes? && results[k].data != []
    ensures var r := Run(d, buttonNumber, results, n);
      && r.events == []
      && r.device.touch == d.touch
      && (r.fits ==> 0 < r.device.bufferi && r.device.buffer[0] == d.buffer[0])
    decreases n
  {
    if n > 0 {
      StallOverRun(d, buttonNumber, results, n - 1);
      var before := Run(d, buttonNumber, results, n - 1);
      if before.fits && ReadFits(before.device.bufferi, results[n - 1]) {
        PartialFrameKeepsStatus(before.device, buttonNumber, results[n - 1]);
      }
    }
  }

  /** The read step assigns the read's return value to the fill instead of
      adding it. A packet whose first three bytes are waiting and whose last
      two arrive in the next read is therefore not reassembled: the fill
      becomes 2, the framer sees only the status byte and the first
      coordinate byte, and no event is posted, although those five bytes
      form a complete packet. */
  lemma SplitReadIsNotReassembled(d: Device, buttonNumber: int, p: seq<Byte>)
    requires WellFormed(d) && d.bufferi == 3 && IsPacket(p) && d.buffer[..3] == p[..3]
    ensures Split(p).0 == [p]
    ensures var r := Step(d, buttonNumber, Bytes(p[3..]));
      r.1 == [] && r.0.bufferi == 2 && r.0.buffer[..2] == p[..2] && r.0.touch == d.touch
  {
    SplitPacket(p);
    var fed := Feed(d.buffer, 3, Bytes(p[3..]));
    var s := Pending(fed.0, fed.1);
    assert s == p[..2];
    assert Split(s) == ([], s);
    ReadPacketMatchesSplit(fed.0, fed.1, d.body);
  }
}
