/** The packet translator of `InexioReadInput` (src/xf86inexio.c:342-375):
    a framed packet becomes one motion event and, on a change of touch
    state, one button event, with the last touched position held while the
    touch is released. */
module InexioTranslator {
  import opened InexioPacket

  /** What the driver posts to the X server. Both kinds are absolute, start
      at valuator 0 and carry the two axes x and y. */
  datatype Event =
    | Motion(x: int, y: int)
    | Button(button: int, down: bool, x: int, y: int)

  /** The record's touch state: `button_down`, `last_x`, `last_y`. */
  datatype TouchState = TouchState(buttonDown: bool, lastX: int, lastY: int)

  /** The state set up by `InexioPreInit`: released, at (0, 0). */
  const INITIAL_TOUCH := TouchState(false, 0, 0)

  /** One framed packet in `body[0..5]`, translated with button `buttonNumber`. */
  function Translate(t: TouchState, buttonNumber: int, body: seq<Byte>): (r: (TouchState, seq<Event>))
    requires |body| >= BODY_LEN
    // the stored state follows the status byte's bit 0
    ensures r.0.buttonDown == IsDown(body[0])
    // a touch stores the decoded position, a release keeps the stored one
    ensures IsDown(body[0]) ==> r.0.lastX == Coord(body[1], body[2]) && r.0.lastY == Coord(body[3], body[4])
    ensures !IsDown(body[0]) ==> r.0.lastX == t.lastX && r.0.lastY == t.lastY
    // exactly one motion event, first, at the stored position
    ensures 1 <= |r.1| <= 2 && r.1[0] == Motion(r.0.lastX, r.0.lastY)
    // a button event exactly when the state changes, at the same position
    ensures |r.1| == 2 <==> IsDown(body[0]) != t.buttonDown
    ensures |r.1| == 2 ==> r.1[1] == Button(buttonNumber, IsDown(body[0]), r.0.lastX, r.0.lastY)
  {
    var isDown := IsDown(body[0]);
    var x := if isDown then Coord(body[1], body[2]) else t.lastX;
    var y := if isDown then Coord(body[3], body[4]) else t.lastY;
    var motion := [Motion(x, y)];
    var button := if t.buttonDown != isDown then [Button(buttonNumber, isDown, x, y)] else [];
    (TouchState(isDown, x, y), motion + button)
  }

  /** An up packet that follows a down packet reports where the touch was,
      not the coordinates the up packet carries. */
  lemma ReleaseHoldsPosition(t: TouchState, buttonNumber: int, down: seq<Byte>, up: seq<Byte>)
    requires |down| >= BODY_LEN && |up| >= BODY_LEN
    requires IsDown(down[0]) && !IsDown(up[0])
    ensures var first := Translate(t, buttonNumber, down);
      var second := Translate(first.0, buttonNumber, up);
      second.1 == [Motion(Coord(down[1], down[2]), Coord(down[3], down[4])),
                   Button(buttonNumber, false, Coord(down[1], down[2]), Coord(down[3], down[4]))]
  {
  }

  /** Two consecutive down packets post one button event between them, on
      the first and only if the touch was released before. */
  lemma RepeatedTouchPostsOneButton(t: TouchState, buttonNumber: int, p: seq<Byte>, q: seq<Byte>)
    requires |p| >= BODY_LEN && |q| >= BODY_LEN
    requires IsDown(p[0]) && IsDown(q[0])
    ensures var first := Translate(t, buttonNumber, p);
      var second := Translate(first.0, buttonNumber, q);
      |first.1| == (if t.buttonDown then 1 else 2) && |second.1| == 1
  {
  }

  /** The translation of a run of packets, in order. */
  function TranslateAll(t: TouchState, buttonNumber: int, packets: seq<seq<Byte>>): (r: (TouchState, seq<Event>))
    requires forall k :: 0 <= k < |packets| ==> |packets[k]| == BODY_LEN
    decreases |packets|
  {
    if packets == [] then (t, [])
    else
      var n := |packets| - 1;
      var before := TranslateAll(t, buttonNumber, packets[..n]);
      var now := Translate(before.0, buttonNumber, packets[n]);
      (now.0, before.1 + now.1)
  }

  /** The touch state in force after a run of packets: pressed as the last
      packet says, at the position of the last down packet, or at the
      original position when none was down. */
  function HeldState(t: TouchState, packets: seq<seq<Byte>>): (held: TouchState)
    requires forall k :: 0 <= k < |packets| ==> |packets[k]| == BODY_LEN
    decreases |packets|
  {
    if packets == [] then t
    else
      var p := Last(packets);
      var held := HeldState(t, packets[..|packets| - 1]);
      if IsDown(p[0]) then TouchState(true, Coord(p[1], p[2]), Coord(p[3], p[4]))
      else TouchState(false, held.lastX, held.lastY)
  }

  /** Whether the last packet of a run was a down packet, or the original
      state for an empty run. */
  function LastDown(t: TouchState, packets: seq<seq<Byte>>): (down: bool)
    requires forall k :: 0 <= k < |packets| ==> |packets[k]| == BODY_LEN
  {
    if packets == [] then t.buttonDown else IsDown(Last(packets)[0])
  }

  /** The number of packets whose touch state differs from the one before them. */
  function Changes(t: TouchState, packets: seq<seq<Byte>>): (n: nat)
    requires forall k :: 0 <= k < |packets| ==> |packets[k]| == BODY_LEN
    decreases |packets|
  {
    if packets == [] then 0
    else
      var init := packets[..|packets| - 1];
      Changes(t, init) + (if IsDown(Last(packets)[0]) != LastDown(t, init) then 1 else 0)
  }

  function CountMotions(events: seq<Event>): (n: nat) {
    if events == [] then 0 else CountMotions(events[..|events| - 1]) + (if Last(events).Motion? then 1 else 0)
  }

  function CountButtons(events: seq<Event>): (n: nat) {
    if events == [] then 0 else CountButtons(events[..|events| - 1]) + (if Last(events).Button? then 1 else 0)
  }

  lemma {:induction false} CountsAppend(a: seq<Event>, b: seq<Event>)
    ensures CountMotions(a + b) == CountMotions(a) + CountMotions(b)
    ensures CountButtons(a + b) == CountButtons(a) + CountButtons(b)
    decreases |b|
  {
    if b == [] {
      assert a + b == a;
    } else {
      var n := |b| - 1;
      assert (a + b)[..|a + b| - 1] == a + b[..n];
      CountsAppend(a, b[..n]);
    }
  }

  /** Over a run of packets: the state ends as HeldState says (the last
      touched position is held through releases), every packet posts
      exactly one motion event, and a button event is posted exactly once
      per change of touch state. */
  lemma {:induction false} TranslateAllSummary(t: TouchState, buttonNumber: int, packets: seq<seq<Byte>>)
    requires forall k :: 0 <= k < |packets| ==> |packets[k]| == BODY_LEN
    ensures var r := TranslateAll(t, buttonNumber, packets);
      && r.0 == HeldState(t, packets)
      && CountMotions(r.1) == |packets|
      && CountButtons(r.1) == Changes(t, packets)
    decreases |packets|
  {
    if packets != [] {
      var n := |packets| - 1;
      var init := packets[..n];
      TranslateAllSummary(t, buttonNumber, init);
      var before := TranslateAll(t, buttonNumber, init);
      var now := Translate(before.0, buttonNumber, packets[n]);
      CountsAppend(before.1, now.1);
      CountsOfTranslate(before.0, buttonNumber, packets[n]);
      HeldStateDown(t, init);
    }
  }

  /** The pressed flag of HeldState is that of the last packet. */
  lemma HeldStateDown(t: TouchState, packets: seq<seq<Byte>>)
    requires forall k :: 0 <= k < |packets| ==> |packets[k]| == BODY_LEN
    ensures HeldState(t, packets).buttonDown == LastDown(t, packets)
  {
  }

  /** The events of one packet: one motion event, and one button event when there are two. */
  lemma CountsOfTranslate(t: TouchState, buttonNumber: int, body: seq<Byte>)
    requires |body| >= BODY_LEN
    ensures var e := Translate(t, buttonNumber, body).1;
      CountMotions(e) == 1 && CountButtons(e) == (if |e| == 2 then 1 else 0)
  {
    var e := Translate(t, buttonNumber, body).1;
    var first := [e[0]];
    assert first[..0] == [];
    assert CountMotions(first) == 1 && CountButtons(first) == 0;
    if |e| == 2 {
      assert e[..1] == first;
    } else {
      assert e == first;
    }
  }
}
