/** Taps, releases and slides on buttons of any kind. */
module TouchRelease {
  import opened Bytes
  import opened ButtonList
  import opened Touch
  import opened TouchTest
  import opened TouchTheorems
  import opened TouchGrid

  // ---------- one press, one release ----------

  predicate NonePressed(buttons: seq<ButtonView>) {
    forall i | 0 <= i < |buttons| :: buttons[i].state != KEEP_TOUCH
  }

  /** The finger is strictly inside button k and no other. */
  predicate Inside(buttons: seq<ButtonView>, k: nat, x: Word32, y: Word32) {
    && k < |buttons| && Hit(buttons[k], x, y)
    && forall i | 0 <= i < |buttons| && i != k :: !Hit(buttons[i], x, y)
  }

  predicate OffAll(buttons: seq<ButtonView>, x: Word32, y: Word32) {
    forall i | 0 <= i < |buttons| :: !Hit(buttons[i], x, y)
  }

  /** The raw events of putting or moving the finger to a screen position. */
  function MoveTo(screen: Screen, x: Word32, y: Word32): seq<InputEvent> {
    TapEvents(screen, Tap(0, x, y))
  }

  /** The report after a touch that went on is a release: whatever was touched, the record's
      id is returned and no button is shown pressed any more. */
  lemma ReleaseReports(p: Panel, screen: Screen)
    requires TouchInv(p) && p.touch.state == KEEP_TOUCH
    ensures var (q, r) := StepEvent(p, screen, SynReport);
            && r == Returned(p.touch.btId)
            && q.touch == p.touch.(state := END_TOUCH)
            && NonePressed(q.buttons)
            && |q.buttons| == |p.buttons|
            && forall i | 0 <= i < |p.buttons| :: q.buttons[i] == p.buttons[i].(state := q.buttons[i].state)
  {
    var last := FirstWithId(p.buttons, p.touch.btId, 0);
    hide FirstWithId;
    forall i | 0 <= i < |p.buttons| && p.buttons[i].state == KEEP_TOUCH
      ensures i == last
    {
      FindsItself(p.buttons, i);
    }
  }

  /** The report that completes a move: the record then names the button under the finger
      (0 if there is none), no other button is pressed, and it is returned at once only by
      a button with fastTouch. */
  lemma MoveReports(p: Panel, screen: Screen, k: nat, x: Word32, y: Word32)
    requires TouchInv(p) && p.touch.state == RESET_TOUCH && p.touch.x == x && p.touch.y == y
    requires Inside(p.buttons, k, x, y) || OffAll(p.buttons, x, y)
    ensures var (q, r) := StepEvent(p, screen, SynReport);
            var on := Inside(p.buttons, k, x, y);
            && TouchInv(q)
            && q.touch == TouchPoint(x, y, KEEP_TOUCH, if on then p.buttons[k].id else 0)
            && (on ==> r == if p.buttons[k].fastTouch then Returned(p.buttons[k].id) else Continue)
            && (!on ==> r == Continue && NonePressed(q.buttons))
            && |q.buttons| == |p.buttons|
            && forall i | 0 <= i < |p.buttons| ::
                 && q.buttons[i] == p.buttons[i].(state := q.buttons[i].state)
                 && (i != k ==> q.buttons[i].state != KEEP_TOUCH)
  {
    var q0 := p.(touch := p.touch.(state := KEEP_TOUCH));
    var q := StepEvent(p, screen, SynReport).0;
    assert q == OnKeep(q0).0;
    KeepInv(q0);
    StepKeepsResults(p, screen, SynReport);
    var hit := FirstHit(p.buttons, x, y, 0);
    if Inside(p.buttons, k, x, y) {
      assert hit == k;
      forall i | 0 <= i < |p.buttons| && i != k
        ensures q.buttons[i].state != KEEP_TOUCH
      {
        assert q.buttons[i].id == p.buttons[i].id && q.buttons[k].id == p.buttons[k].id;
      }
    } else {
      assert hit == |p.buttons|;
      assert forall i | 0 <= i < |p.buttons| :: q.buttons[i].id == p.buttons[i].id != 0;
    }
  }

  // ---------- in the listener ----------

  /** The position events of a move only fill in the record. */
  lemma Approach(l: Listener, screen: Screen, x: Word32, y: Word32)
    requires !l.done
    ensures var p := l.panel.(touch := TouchPoint(x, y, RESET_TOUCH, l.panel.touch.btId));
            Listen(l, screen, MoveTo(screen, x, y)) == ListenStep(Listener(p, false), screen, SynReport)
  {
    var e := MoveTo(screen, x, y);
    var t0 := l.panel.touch;
    var t1 := t0.(x := x, state := RESET_TOUCH);
    var t2 := t1.(y := y);
    assert GetTouch(t0, screen, e[0]) == (t1, false);
    assert GetTouch(t1, screen, e[1]) == (t2, false);
    var l1, l2 := Listener(l.panel.(touch := t1), false), Listener(l.panel.(touch := t2), false);
    assert ListenStep(l, screen, e[0]) == l1;
    assert ListenStep(l1, screen, e[1]) == l2;
    hide ListenStep;
    assert e[1..][0] == e[1] && e[1..][1..] == [e[2]];
    ListenOne(l2, screen, e[2]);
  }

  predicate Recorded(before: seq<ButtonView>, after: seq<ButtonView>, k: nat) {
    && |after| == |before|
    && forall i | 0 <= i < |before| :: after[i].result == if i == k then 1 else before[i].result
  }

  lemma ReportRecords(p: Panel, k: nat)
    requires GoodIds(p.buttons) && k < |p.buttons|
    ensures var m := Report(p, p.buttons[k].id);
            Recorded(p.buttons, m.panel.buttons, k) && m.panel.touch == p.touch
            && forall i | 0 <= i < |p.buttons| :: m.panel.buttons[i].state == p.buttons[i].state
  {
    FindsItself(p.buttons, k);
  }

  /** Press and release inside one button, from any state: whatever its fastTouch, the button
      has its result afterwards and no other changes; unless the press itself has ended the
      listening, the release is reported as that button and leaves no button pressed. */
  lemma PressRelease(l: Listener, screen: Screen, k: nat, x: Word32, y: Word32)
    requires !l.done && TouchInv(l.panel) && Inside(l.panel.buttons, k, x, y)
    ensures var id := l.panel.buttons[k].id;
            var press := Listen(l, screen, MoveTo(screen, x, y));
            var m := Listen(l, screen, MoveTo(screen, x, y) + [SynReport]);
            && Recorded(l.panel.buttons, m.panel.buttons, k)
            && (press.done ==> l.panel.buttons[k].fastTouch && m == press)
            && (!press.done ==>
                  && StepEvent(press.panel, screen, SynReport).1 == Returned(id)
                  && m == Report(StepEvent(press.panel, screen, SynReport).0, id)
                  && NonePressed(m.panel.buttons) && m.panel.touch == TouchPoint(x, y, END_TOUCH, id))
  {
    var p := l.panel.(touch := TouchPoint(x, y, RESET_TOUCH, l.panel.touch.btId));
    var id := p.buttons[k].id;
    hide Listen, StepEvent, Report;
    Approach(l, screen, x, y);
    assert TouchInv(p);
    MoveReports(p, screen, k, x, y);
    var (q, r) := StepEvent(p, screen, SynReport);
    var press := ListenStep(Listener(p, false), screen, SynReport);
    ReportRecords(q, k);
    ReportInv(q, id);
    ListenConcat(l, screen, MoveTo(screen, x, y), [SynReport]);
    ListenOne(press, screen, SynReport);
    if !press.done {
      ReleaseReports(press.panel, screen);
      var q2 := StepEvent(press.panel, screen, SynReport).0;
      SameIds(press.panel.buttons, q2.buttons);
      ReportRecords(q2, k);
    }
  }

  lemma SameIds(a: seq<ButtonView>, b: seq<ButtonView>)
    requires GoodIds(a) && |a| == |b| && forall i | 0 <= i < |a| :: b[i] == a[i].(state := b[i].state)
    ensures GoodIds(b)
  {
  }

  /** Sliding off all buttons releases the last one, and the release that follows reports
      0, which is no button: nothing gets a result. */
  lemma SlideOff(l: Listener, screen: Screen, x: Word32, y: Word32)
    requires !l.done && TouchInv(l.panel) && OffAll(l.panel.buttons, x, y)
    ensures var slid := Listen(l, screen, MoveTo(screen, x, y));
            var m := Listen(l, screen, MoveTo(screen, x, y) + [SynReport]);
            && !slid.done && NonePressed(slid.panel.buttons) && slid.panel.touch.btId == 0
            && StepEvent(slid.panel, screen, SynReport).1 == Returned(0)
            && !m.done && NonePressed(m.panel.buttons)
            && |m.panel.buttons| == |l.panel.buttons|
            && forall i | 0 <= i < |l.panel.buttons| :: m.panel.buttons[i].result == l.panel.buttons[i].result
  {
    var p := l.panel.(touch := TouchPoint(x, y, RESET_TOUCH, l.panel.touch.btId));
    hide Listen, StepEvent;
    Approach(l, screen, x, y);
    assert TouchInv(p);
    MoveReports(p, screen, |p.buttons|, x, y);
    var slid := ListenStep(Listener(p, false), screen, SynReport);
    ReleaseReports(slid.panel, screen);
    ListenConcat(l, screen, MoveTo(screen, x, y), [SynReport]);
    ListenOne(slid, screen, SynReport);
    var q := StepEvent(slid.panel, screen, SynReport).0;
    assert forall i | 0 <= i < |q.buttons| :: q.buttons[i].id != 0;
    assert FirstWithId(q.buttons, 0, 0) == |q.buttons|;
  }

  // ---------- sequences of presses ----------

  function PressesEvents(screen: Screen, taps: seq<Tap>): seq<InputEvent> {
    if taps == [] then []
    else (MoveTo(screen, taps[0].x, taps[0].y) + [SynReport]) + PressesEvents(screen, taps[1..])
  }

  lemma InsideSame(a: seq<ButtonView>, b: seq<ButtonView>, k: nat, x: Word32, y: Word32)
    requires SameButtons(a, b) && Inside(a, k, x, y)
    ensures Inside(b, k, x, y)
  {
    assert forall i | 0 <= i < |a| :: Hit(b[i], x, y) == Hit(a[i], x, y);
  }

  /** Whatever the buttons' fastTouch: pressing and releasing buttons in any order ends the
      listening if and only if every button was pressed; until then exactly the pressed ones
      have results. */
  lemma {:induction false} PressesComplete(l: Listener, screen: Screen, taps: seq<Tap>)
    requires ListenInv(l) && TouchInv(l.panel)
    requires forall t | t in taps :: Inside(l.panel.buttons, t.cell, t.x, t.y)
    ensures var m := Listen(l, screen, PressesEvents(screen, taps));
            var b, b' := l.panel.buttons, m.panel.buttons;
            && |b'| == |b|
            && (m.done <==> forall i | 0 <= i < |b| :: b[i].result != 0 || i in Cells(taps))
            && (!m.done ==> forall i | 0 <= i < |b| ::
                  b'[i].result == if i in Cells(taps) then 1 else b[i].result)
    decreases |taps|
  {
    hide Listen, ListenStep, Inside;
    if taps == [] {
      ListenNothing(l, screen);
    } else {
      var tap, rest := taps[0], taps[1..];
      var press := MoveTo(screen, tap.x, tap.y) + [SynReport];
      assert Cells(taps) == {tap.cell} + Cells(rest);
      ListenConcat(l, screen, press, PressesEvents(screen, rest));
      if l.done {
        DoneStays(l, screen, PressesEvents(screen, taps));
      } else {
        var m := Listen(l, screen, press);
        PressRelease(l, screen, tap.cell, tap.x, tap.y);
        AtMostOnePressed(l, screen, press);
        EndsExactlyWhenAllTouched(l, screen, press);
        forall t | t in rest
          ensures Inside(m.panel.buttons, t.cell, t.x, t.y)
        {
          InsideSame(l.panel.buttons, m.panel.buttons, t.cell, t.x, t.y);
        }
        PressesComplete(m, screen, rest);
      }
    }
  }

  lemma ListenNothing(l: Listener, screen: Screen)
    ensures Listen(l, screen, []) == l
  {
  }

  // ---------- what the touch record holds ----------

  predicate IsAbs(ev: InputEvent) { ev.AbsX? || ev.AbsY? || ev.AbsOther? }

  /** A coordinate as stored: mirrored on a rotated screen, in unsigned 32 bits. */
  function Stored(v: int, limit: int, swap: bool): int {
    (if swap then limit - v else v) % 0x1_0000_0000
  }

  /** How many reports there were since the last position event, or -1 without one. */
  function ReportsSince(events: seq<InputEvent>): int {
    if events == [] then -1
    else
      var last, before := events[|events| - 1], ReportsSince(events[..|events| - 1]);
      if IsAbs(last) then 0 else if last == SynReport && before >= 0 then before + 1 else before
  }

  predicate LastX(events: seq<InputEvent>, k: nat) {
    k < |events| && events[k].AbsX? && forall j | k < j < |events| :: !events[j].AbsX?
  }

  predicate LastY(events: seq<InputEvent>, k: nat) {
    k < |events| && events[k].AbsY? && forall j | k < j < |events| :: !events[j].AbsY?
  }

  predicate FollowsX(x: Word32, screen: Screen, events: seq<InputEvent>) {
    forall k | 0 <= k < |events| && LastX(events, k) :: x == Stored(events[k].value, screen.widthLimit, screen.swap)
  }

  predicate FollowsY(y: Word32, screen: Screen, events: seq<InputEvent>) {
    forall k | 0 <= k < |events| && LastY(events, k) :: y == Stored(events[k].value, screen.heightLimit, screen.swap)
  }

  predicate FollowsPhase(state: TouchState, events: seq<InputEvent>) {
    var n := ReportsSince(events);
    n >= 0 ==> state == if n % 3 == 0 then RESET_TOUCH else if n % 3 == 1 then KEEP_TOUCH else END_TOUCH
  }

  /** The touch record follows the events alone: the position is that of the last x and y
      events, and the phase is set by the reports since the last position event, of which the
      first is a touch, the second a release, and the third neither. */
  predicate Follows(t: TouchPoint, screen: Screen, events: seq<InputEvent>) {
    FollowsX(t.x, screen, events) && FollowsY(t.y, screen, events) && FollowsPhase(t.state, events)
  }

  lemma TurnFollows(t: TouchPoint, screen: Screen, events: seq<InputEvent>, ev: InputEvent)
    requires Follows(t, screen, events)
    ensures Follows(GetTouch(t, screen, ev).0, screen, events + [ev])
  {
    TurnFollowsX(t, screen, events, ev);
    TurnFollowsY(t, screen, events, ev);
    TurnFollowsPhase(t, screen, events, ev);
    hide FollowsX, FollowsY, FollowsPhase, GetTouch;
  }

  lemma TurnFollowsX(t: TouchPoint, screen: Screen, events: seq<InputEvent>, ev: InputEvent)
    requires FollowsX(t.x, screen, events)
    ensures FollowsX(GetTouch(t, screen, ev).0.x, screen, events + [ev])
  {
    var all := events + [ev];
    forall k | 0 <= k < |all| && LastX(all, k)
      ensures GetTouch(t, screen, ev).0.x == Stored(all[k].value, screen.widthLimit, screen.swap)
    {
      if k < |events| {
        assert forall j | 0 <= j < |events| :: all[j] == events[j];
        assert LastX(events, k) && !all[|events|].AbsX?;
      }
    }
  }

  lemma TurnFollowsY(t: TouchPoint, screen: Screen, events: seq<InputEvent>, ev: InputEvent)
    requires FollowsY(t.y, screen, events)
    ensures FollowsY(GetTouch(t, screen, ev).0.y, screen, events + [ev])
  {
    var all := events + [ev];
    forall k | 0 <= k < |all| && LastY(all, k)
      ensures GetTouch(t, screen, ev).0.y == Stored(all[k].value, screen.heightLimit, screen.swap)
    {
      if k < |events| {
        assert forall j | 0 <= j < |events| :: all[j] == events[j];
        assert LastY(events, k) && !all[|events|].AbsY?;
      }
    }
  }

  lemma TurnFollowsPhase(t: TouchPoint, screen: Screen, events: seq<InputEvent>, ev: InputEvent)
    requires FollowsPhase(t.state, events)
    ensures FollowsPhase(GetTouch(t, screen, ev).0.state, events + [ev])
  {
    var all := events + [ev];
    assert all[..|events|] == events && all[|events|] == ev;
    var n := ReportsSince(events);
    assert n >= 0 ==> (n + 1) % 3 == if n % 3 == 2 then 0 else n % 3 + 1;
  }

  /** A turn changes no more of the record than get_touch does, but for the id. */
  lemma TouchOfStep(l: Listener, screen: Screen, ev: InputEvent)
    requires !l.done
    ensures var t := ListenStep(l, screen, ev).panel.touch;
            t.(btId := 0) == GetTouch(l.panel.touch, screen, ev).0.(btId := 0)
  {
  }

  lemma {:induction false} TouchFollows(l: Listener, screen: Screen, events: seq<InputEvent>)
    ensures var m := Listen(l, screen, events); !m.done ==> Follows(m.panel.touch, screen, events)
    decreases |events|
  {
    hide Listen, ListenStep, GetTouch, Follows;
    if events == [] {
      NothingFollows(l.panel.touch, screen);
      ListenNothing(l, screen);
    } else {
      var last := |events| - 1;
      var m := Listen(l, screen, events[..last]);
      assert events[..last + 1] == events && events[..last] + [events[last]] == events;
      ListenNext(l, screen, events, last);
      StaysDone(m, screen, events[last]);
      if !m.done {
        TouchFollows(l, screen, events[..last]);
        TurnFollows(m.panel.touch, screen, events[..last], events[last]);
        TouchOfStep(m, screen, events[last]);
        IdFree(GetTouch(m.panel.touch, screen, events[last]).0, Listen(l, screen, events).panel.touch, screen, events);
      }
    }
  }

  lemma NothingFollows(t: TouchPoint, screen: Screen)
    ensures Follows(t, screen, [])
  {
  }

  lemma StaysDone(l: Listener, screen: Screen, ev: InputEvent)
    ensures l.done ==> ListenStep(l, screen, ev).done
  {
  }

  lemma IdFree(t: TouchPoint, u: TouchPoint, screen: Screen, events: seq<InputEvent>)
    requires Follows(t, screen, events) && t.(btId := 0) == u.(btId := 0)
    ensures Follows(u, screen, events)
  {
    assert t.x == t.(btId := 0).x == u.x && t.y == t.(btId := 0).y == u.y && t.state == t.(btId := 0).state == u.state;
  }

  /** Events of other kinds change nothing. */
  lemma OthersIgnored(l: Listener, screen: Screen, ev: InputEvent)
    requires ev == SynOther || ev == OtherEvent
    ensures ListenStep(l, screen, ev) == l
  {
  }

  // ---------- the grid ----------

  /** The id reported for a tap on the grid is the number of its cell, counted row by row
      from 1. */
  lemma GridTapId(l: Listener, screen: Screen, width: nat, height: nat, tap: Tap)
    requires COLUMNS * width < 0x8000_0000 && ROWS * height < 0x8000_0000
    requires !l.done && TouchInv(l.panel) && SameButtons(Grid(width, height), l.panel.buttons)
    requires OnCell(l.panel.buttons, tap)
    ensures width > 0 && height > 0
    ensures var p := OnKeep(l.panel.(touch := TouchPoint(tap.x, tap.y, KEEP_TOUCH, l.panel.touch.btId))).0;
            Listen(l, screen, TapEvents(screen, tap)) == Report(p, 5 * (tap.y / height) + tap.x / width + 1)
  {
    hide *;
    TapReported(l, screen, tap);
    TapIsOn(l.panel.buttons, width, height, tap);
  }

  lemma TapIsOn(buttons: seq<ButtonView>, width: nat, height: nat, tap: Tap)
    requires COLUMNS * width < 0x8000_0000 && ROWS * height < 0x8000_0000
    requires SameButtons(Grid(width, height), buttons) && OnCell(buttons, tap)
    ensures width > 0 && height > 0
    ensures tap.cell < |buttons| && buttons[tap.cell].id == 5 * (tap.y / height) + tap.x / width + 1
  {
    var cell := Cell(tap.cell, width, height);
    assert Grid(width, height)[tap.cell] == cell;
    assert Hit(cell, tap.x, tap.y) && buttons[tap.cell].id == cell.id == tap.cell + 1;
    hide *;
    CellNumberOf(tap.cell, width, height, tap.x, tap.y);
  }

  lemma CellNumberOf(k: nat, width: nat, height: nat, x: Word32, y: Word32)
    requires k < 25 && COLUMNS * width < 0x8000_0000 && ROWS * height < 0x8000_0000
    requires Hit(Cell(k, width, height), x, y)
    ensures width > 0 && height > 0 && k == 5 * (y / height) + x / width
  {
    hide Cell, Hit;
    HitsCell(k, width, height, x, y);
    assert k == 5 * (k / 5) + k % 5;
  }
}
