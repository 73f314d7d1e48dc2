/** The device record `InexioDeviceRec` (src/xf86inexio.c:59-81) as an
    object whose fields the driver updates in place: the receive buffer and
    the packet body as arrays, the fill count and the touch state as
    fields, and the events posted so far as a ghost record of the calls to
    `xf86PostMotionEvent` and `xf86PostButtonEvent`. Each method is tied to
    the function of the same step in InexioFramer, InexioTranslator or
    InexioInput. */
module InexioDriver {
  import opened InexioPacket
  import opened InexioFramer
  import opened InexioTranslator
  import opened InexioInput

  class InexioDevice {
    const buffer: array<Byte>
    var bufferi: int
    const body: array<Byte>
    var buttonDown: bool
    const buttonNumber: int
    var lastX: int
    var lastY: int
    /** Every event posted, oldest first. */
    ghost var events: seq<Event>

    ghost predicate Valid()
      reads this
    {
      buffer.Length == BUFFER_LEN && body.Length == BODY_SIZE && buffer != body && bufferi <= BUFFER_LEN
    }

    function Touch(): (t: TouchState)
      reads this
    {
      TouchState(buttonDown, lastX, lastY)
    }

    /** The record as a value. */
    ghost function State(): (d: Device)
      reads this, buffer, body
      requires Valid()
      ensures WellFormed(d)
    {
      Device(buffer[..], bufferi, body[..], Touch())
    }

    /** The record after `xcalloc` and the initialisation at the end of
        `InexioPreInit`, with the ButtonNumber option already read. */
    constructor (buttonNumber: int)
      ensures Valid() && fresh(buffer) && fresh(body)
      ensures State() == Initial() && this.buttonNumber == buttonNumber && events == []
    {
      buffer := new Byte[BUFFER_LEN](_ => 0);
      body := new Byte[BODY_SIZE](_ => 0);
      this.buttonNumber := buttonNumber;
      buttonDown := false;
      lastX := 0;
      lastY := 0;
      bufferi := 0;
      events := [];
    }

    /** `_inexio_read_packet`: `success` is the Success return value. */
    method ReadPacket() returns (success: bool)
      requires Valid()
      modifies this`bufferi, buffer, body
      ensures Valid()
      ensures Framed(buffer[..], bufferi, body[..], success)
           == InexioFramer.ReadPacket(old(buffer[..]), old(bufferi), old(body[..]))
    {
      ghost var goal := InexioFramer.ReadPacket(buffer[..], bufferi, body[..]);
      var count := 0;
      success := false;
      while count < bufferi
        invariant Valid() && (count <= bufferi || count == 0)
        invariant Scan(buffer[..], bufferi, count, body[..], success) == goal
        decreases if bufferi < 0 then 0 else bufferi, bufferi - count
      {
        var c := buffer[count];
        if !IsStatus(c) {
          ScanSkip(buffer[..], bufferi, count, body[..], success);
          count := count + 1;
        } else if bufferi - count >= BODY_LEN {
          ScanTake(buffer[..], bufferi, count, body[..], success);
          TakeFrame(count);
          success := true;
          count := 0;
        } else {
          break;
        }
      }
      ScanStop(buffer[..], bufferi, count, body[..], success);
      Compact(count);
    }

    /** The branch of the scan that takes the frame at `count`: copy it into
        `body`, move the bytes after it to the front and shrink the fill. */
    method TakeFrame(count: nat)
      requires Valid() && count + BODY_LEN <= bufferi
      modifies this`bufferi, buffer, body
      ensures Valid()
      ensures buffer[..] == MoveFront(old(buffer[..]), count + BODY_LEN, old(bufferi) - count - BODY_LEN)
      ensures body[..] == old(buffer[count..count + BODY_LEN]) + old(body[BODY_LEN..])
      ensures bufferi == old(bufferi) - (count + BODY_LEN)
    {
      CopyToBody(count);
      MoveToFront(count + BODY_LEN, bufferi - count - BODY_LEN);
      bufferi := bufferi - (count + BODY_LEN);
    }

    /** The code after the scan: keep the bytes from `count` on at the
        front, subtract `count` from the fill and clamp it at 0. */
    method Compact(count: nat)
      requires Valid() && (count <= bufferi || count == 0)
      modifies this`bufferi, buffer
      ensures Valid()
      ensures buffer[..] == Finish(old(buffer[..]), old(bufferi), count, body[..], false).buffer
      ensures bufferi == Finish(old(buffer[..]), old(bufferi), count, body[..], false).bufferi
    {
      if bufferi - count > 0 {
        MoveToFront(count, bufferi - count);
      }
      bufferi := bufferi - count;
      if bufferi < 0 {
        bufferi := 0;
      }
    }

    /** `memcpy(priv->body, &priv->buffer[from], INEXIO_BODY_LEN)`. */
    method CopyToBody(from: nat)
      requires Valid() && from + BODY_LEN <= BUFFER_LEN
      modifies body
      ensures body[..] == old(buffer[from..from + BODY_LEN]) + old(body[BODY_LEN..])
    {
      ghost var wasBody := body[..];
      forall i | 0 <= i < BODY_LEN {
        body[i] := buffer[from + i];
      }
      assert body[..] == buffer[from..from + BODY_LEN] + wasBody[BODY_LEN..];
    }

    /** `memmove(priv->buffer, &priv->buffer[from], len)`. */
    method MoveToFront(from: nat, len: nat)
      requires Valid() && from + len <= BUFFER_LEN
      modifies buffer
      ensures buffer[..] == MoveFront(old(buffer[..]), from, len)
    {
      ghost var was := buffer[..];
      forall i | 0 <= i < len {
        buffer[i] := buffer[from + i];
      }
      assert buffer[..] == MoveFront(was, from, len);
    }

    /** The read step: unless the fill exceeds BODY_LEN, store what `read()`
        returned at `buffer[bufferi]` and set the fill to its return value. */
    method Feed(rd: ReadResult)
      requires Valid() && 0 <= bufferi && ReadFits(bufferi, rd)
      modifies this`bufferi, buffer
      ensures Valid()
      ensures (buffer[..], bufferi) == InexioFramer.Feed(old(buffer[..]), old(bufferi), rd)
    {
      if !(BODY_LEN - bufferi < 0) {
        match rd
        case ReadError =>
          bufferi := -1;
        case Bytes(data) =>
          ghost var was := buffer[..];
          forall i | 0 <= i < |data| {
            buffer[bufferi + i] := data[i];
          }
          assert buffer[..] == was[..bufferi] + data + was[bufferi + |data|..];
          bufferi := |data|;
      }
    }

    /** The translation of the packet in `body[0..5]` after a Success. */
    method PostPacket()
      requires Valid()
      modifies this`buttonDown, this`lastX, this`lastY, this`events
      ensures Touch() == Translate(old(Touch()), buttonNumber, body[..BODY_LEN]).0
      ensures events == old(events) + Translate(old(Touch()), buttonNumber, body[..BODY_LEN]).1
    {
      var isDown := IsDown(body[0]);
      var x := Coord(body[1], body[2]);
      var y := Coord(body[3], body[4]);
      if isDown {
        lastX := x;
        lastY := y;
      } else {
        x := lastX;
        y := lastY;
      }
      events := events + [Motion(x, y)];
      if buttonDown != isDown {
        buttonDown := isDown;
        events := events + [Button(buttonNumber, isDown, x, y)];
      }
    }

    /** One pass of the loop in `InexioReadInput`. */
    method ReadInputStep(rd: ReadResult)
      requires Valid() && 0 <= bufferi && ReadFits(bufferi, rd)
      modifies this, buffer, body
      ensures Valid()
      ensures State() == Step(old(State()), buttonNumber, rd).0
      ensures events == old(events) + Step(old(State()), buttonNumber, rd).1
    {
      Feed(rd);
      var success := ReadPacket();
      if success {
        PostPacket();
      }
    }

    /** The loop of `InexioReadInput`: one pass per result of a read, for
        as long as the line reports input. */
    method ReadInput(results: seq<ReadResult>)
      requires Valid() && 0 <= bufferi && ReadsFit(State(), buttonNumber, results)
      modifies this, buffer, body
      ensures Valid()
      ensures (State(), events) == (Run(old(State()), buttonNumber, results, |results|).device,
                                    old(events) + Run(old(State()), buttonNumber, results, |results|).events)
    {
      var i := 0;
      ghost var start := State();
      ghost var posted: seq<Event> := [];
      while i < |results|
        invariant 0 <= i <= |results| && Valid()
        invariant Run(start, buttonNumber, results, i) == Outcome(State(), posted, true)
        invariant events == old(events) + posted
      {
        ghost var cur := State();
        RunExtends(start, buttonNumber, results, i, cur, posted);
        ReadInputStep(results[i]);
        posted := posted + Step(cur, buttonNumber, results[i]).1;
        i := i + 1;
      }
    }
  }
}
