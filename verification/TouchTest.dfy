/** start_listen as the touch-screen test uses it: every button's callback is check_bt. */
module TouchTest {
  import opened ButtonList
  import opened Touch

  /** done: start_listen has returned. */
  datatype Listener = Listener(panel: Panel, done: bool)

  predicate AllTouched(buttons: seq<ButtonView>) {
    forall i | 0 <= i < |buttons| :: buttons[i].result != 0
  }

  function WithResult(p: Panel, at: nat): Panel
    requires at < |p.buttons|
  {
    p.(buttons := p.buttons[at := p.buttons[at].(result := 1)])
  }

  /** The effect of check_bt for button at. */
  function Checked(p: Panel, at: nat): (q: Panel)
    requires at < |p.buttons|
    ensures |q.buttons| == |p.buttons|
  {
    if AllTouched(p.buttons) then p.(buttons := p.buttons[at := p.buttons[at].(mode := ECS_LISTEN)]) else p
  }

  /** What start_listen does with the id catch_action_for_button returned: record the
      result, run check_bt, and stop if that put the button in listening-end mode. */
  function Report(p: Panel, id: int): Listener {
    var at := FirstWithId(p.buttons, id, 0);
    if at == |p.buttons| then Listener(p, false)
    else
      var checked := Checked(WithResult(p, at), at);
      Listener(checked, checked.buttons[at].mode == ECS_LISTEN)
  }

  /** One input event. A Continue leaves the listener to the next event, whether or not
      read() has run dry in between: an id of 0 reports nothing. */
  function ListenStep(l: Listener, screen: Screen, ev: InputEvent): Listener {
    if l.done then l
    else
      var (p, r) := StepEvent(l.panel, screen, ev);
      match r
      case Continue => Listener(p, false)
      case Returned(id) => Report(p, id)
  }

  function Listen(l: Listener, screen: Screen, events: seq<InputEvent>): Listener
    decreases |events|
  {
    if events == [] then l else Listen(ListenStep(l, screen, events[0]), screen, events[1..])
  }

  lemma {:induction false} ListenConcat(l: Listener, screen: Screen, a: seq<InputEvent>, b: seq<InputEvent>)
    ensures Listen(l, screen, a + b) == Listen(Listen(l, screen, a), screen, b)
    decreases |a|
  {
    if a == [] {
      assert a + b == b;
    } else {
      assert (a + b)[1..] == a[1..] + b;
      ListenConcat(ListenStep(l, screen, a[0]), screen, a[1..], b);
    }
  }

  lemma {:induction false} DoneStays(l: Listener, screen: Screen, events: seq<InputEvent>)
    requires l.done
    ensures Listen(l, screen, events) == l
    decreases |events|
  {
    if events != [] {
      DoneStays(l, screen, events[1..]);
    }
  }

  // ---------- the code ----------

  /** What one epoll_wait reports: the touch panel became readable, with newly arrived
      events behind the ones still queued; the keyboard did; or an error. */
  datatype Wake = TouchReady(arrived: seq<InputEvent>) | KeyReady | WaitFailed

  /** catch_action_for_button: read events until a button is to be reported or the queue
      is empty; consumed is how many were read. Listening on as after these events is the
      same as reporting the id. */
  method CatchActionForButton(w: Widget) returns (id: int, ghost consumed: nat)
    requires w.Valid()
    requires forall i | 0 <= i < |w.list.buttons| :: w.list.buttons[i].id != 0
    modifies w, w.list.buttons
    ensures w.Valid()
    ensures consumed <= |old(w.queue)| && w.queue == old(w.queue)[consumed..]
    ensures Listen(Listener(old(w.panel), false), w.screen, old(w.queue)[..consumed]) == Report(w.panel, id)
  {
    ghost var all, start := w.queue, Listener(w.panel, false);
    consumed := 0;
    while w.queue != []
      invariant w.Valid() && consumed <= |all| && w.queue == all[consumed..]
      invariant Listen(start, w.screen, all[..consumed]) == Listener(w.panel, false)
      decreases |w.queue|
    {
      var t := w.queue[0];
      ghost var before := w.panel;
      assert all[consumed] == t;
      w.queue := w.queue[1..];
      var r := w.Turn(t);
      ListenNext(start, w.screen, all, consumed);
      consumed := consumed + 1;
      if r.Returned? {
        return r.id, consumed;
      }
    }
    id := 0;
    assert FirstWithId(w.panel.buttons, 0, 0) == |w.panel.buttons|;
  }

  lemma ListenOne(l: Listener, screen: Screen, ev: InputEvent)
    ensures Listen(l, screen, [ev]) == ListenStep(l, screen, ev)
  {
    assert [ev][1..] == [];
  }

  lemma ListenNext(l: Listener, screen: Screen, events: seq<InputEvent>, k: nat)
    requires k < |events|
    ensures Listen(l, screen, events[..k + 1]) == ListenStep(Listen(l, screen, events[..k]), screen, events[k])
  {
    assert events[..k + 1] == events[..k] + [events[k]];
    ListenConcat(l, screen, events[..k], [events[k]]);
    ListenOne(Listen(l, screen, events[..k]), screen, events[k]);
  }

  /** check_bt: scan the results; if none is missing, put this button in exit mode. */
  method CheckBt(w: Widget, thisBt: Button, ghost at: nat, btList: seq<Button>)
    requires w.Valid() && btList == w.list.buttons && at < |btList| && btList[at] == thisBt
    modifies w`panel, thisBt`mode
    ensures w.Valid()
    ensures w.panel == Checked(old(w.panel), at)
    ensures thisBt.mode == w.panel.buttons[at].mode
  {
    var i := 0;
    while i < |btList|
      invariant 0 <= i <= |btList|
      invariant forall j | 0 <= j < i :: w.panel.buttons[j].result != 0
    {
      assert w.panel.buttons[i] == btList[i].View();
      if btList[i].result == 0 {
        assert w.panel.buttons[at] == btList[at].View();
        return;
      }
      i := i + 1;
    }
    w.SetButtonMode(thisBt, at, ECS_LISTEN);
    assert w.panel.buttons[at] == btList[at].View();
  }

  /** Record the result of a reported button and call its callback. */
  method RecordTouch(w: Widget, button: Button, ghost at: nat, btList: seq<Button>) returns (exit: bool)
    requires w.Valid() && btList == w.list.buttons && at < |btList| && btList[at] == button
    modifies w`panel, button
    ensures w.Valid()
    ensures w.panel == Checked(WithResult(old(w.panel), at), at)
    ensures exit <==> w.panel.buttons[at].mode == ECS_LISTEN
  {
    w.SetButtonResult(button, at, 1);
    CheckBt(w, button, at, btList);
    exit := button.mode == ECS_LISTEN;
  }

  /** The body of start_listen after catch_action_for_button. */
  method ReportButton(w: Widget, btList: seq<Button>, id: int) returns (exit: bool)
    requires w.Valid() && btList == w.list.buttons
    modifies w, w.list.buttons
    ensures w.Valid() && w.queue == old(w.queue)
    ensures Listener(w.panel, exit) == Report(old(w.panel), id)
  {
    ghost var at := FirstWithId(w.panel.buttons, id, 0);
    var button := w.FindById(id);
    if button == null {
      return false;
    }
    exit := RecordTouch(w, button, at, btList);
  }

  function Arrivals(wakes: seq<Wake>): seq<InputEvent> {
    if wakes == [] then []
    else (if wakes[0].TouchReady? then wakes[0].arrived else []) + Arrivals(wakes[1..])
  }

  function Brought(wake: Wake): seq<InputEvent> {
    match wake
    case TouchReady(arrived) => arrived
    case KeyReady => []
    case WaitFailed => []
  }

  /** What arrives is what the wake-ups of the touch panel bring, in order. */
  lemma {:induction false} ArrivalsInOrder(a: seq<Wake>, b: seq<Wake>, wake: Wake)
    ensures Arrivals(a + b) == Arrivals(a) + Arrivals(b)
    ensures Arrivals([wake]) == Brought(wake)
    decreases |a|
  {
    FirstArrivals(wake, []);
    assert [wake] + [] == [wake];
    if a == [] {
      assert a + b == b;
    } else {
      var rest := a[1..];
      ArrivalsInOrder(rest, b, wake);
      FirstArrivals(a[0], rest);
      FirstArrivals(a[0], rest + b);
      hide Arrivals;
      assert a == [a[0]] + rest && a + b == [a[0]] + (rest + b);
      Reassociated(Brought(a[0]), Arrivals(rest), Arrivals(b));
    }
  }

  lemma FirstArrivals(wake: Wake, rest: seq<Wake>)
    ensures Arrivals([wake] + rest) == Brought(wake) + Arrivals(rest)
  {
    assert ([wake] + rest)[1..] == rest;
  }

  lemma Reassociated(x: seq<InputEvent>, y: seq<InputEvent>, z: seq<InputEvent>)
    ensures (x + y) + z == x + (y + z)
  {
  }

  /** One readable report of the touch panel; read is what was consumed. */
  method ServeTouch(w: Widget, btList: seq<Button>, arrived: seq<InputEvent>)
    returns (exit: bool, ghost read: seq<InputEvent>)
    requires w.Valid() && btList == w.list.buttons
    requires forall i | 0 <= i < |btList| :: btList[i].id != 0
    modifies w, w.list.buttons
    ensures w.Valid()
    ensures old(w.queue) + arrived == read + w.queue
    ensures Listener(w.panel, exit) == Listen(Listener(old(w.panel), false), w.screen, read)
  {
    hide Listen, Report;
    w.queue := w.queue + arrived;
    ghost var all := w.queue;
    var id, n := CatchActionForButton(w);
    exit := ReportButton(w, btList, id);
    read := all[..n];
  }

  lemma Shuffle(a: seq<InputEvent>, q: seq<InputEvent>, arrived: seq<InputEvent>, later: seq<InputEvent>,
                read: seq<InputEvent>, q': seq<InputEvent>)
    requires q + arrived == read + q'
    ensures a + (q + (arrived + later)) == (a + read) + (q' + later)
  {
    assert q + (arrived + later) == (q + arrived) + later == read + (q' + later);
  }

  /** start_listen over any sequence of wake-ups: however the input events are batched,
      the outcome is that of listening to the events consumed, in order, and it returns
      exactly when listening to them ends. */
  method StartListen(w: Widget, btList: seq<Button>, wakes: seq<Wake>)
    returns (exit: bool, ghost consumed: seq<InputEvent>, ghost unserved: seq<InputEvent>)
    requires w.Valid() && btList == w.list.buttons
    requires forall i | 0 <= i < |btList| :: btList[i].id != 0
    modifies w, w.list.buttons
    ensures w.Valid()
    ensures Listener(w.panel, exit) == Listen(Listener(old(w.panel), false), w.screen, consumed)
    ensures consumed + (w.queue + unserved) == old(w.queue) + Arrivals(wakes)
    ensures !exit ==> unserved == []
  {
    consumed, unserved := [], Arrivals(wakes);
    ghost var start := Listener(w.panel, false);
    exit := false;
    var i := 0;
    while i < |wakes| && !exit
      invariant 0 <= i <= |wakes|
      invariant w.Valid()
      invariant Listener(w.panel, exit) == Listen(start, w.screen, consumed)
      invariant unserved == Arrivals(wakes[i..])
      invariant consumed + (w.queue + unserved) == old(w.queue) + Arrivals(wakes)
    {
      ghost var later := Arrivals(wakes[i + 1..]);
      assert wakes[i..][1..] == wakes[i + 1..];
      match wakes[i] {
        case TouchReady(arrived) =>
          ghost var q, read := w.queue, [];
          exit, read := ServeTouch(w, btList, arrived);
          Shuffle(consumed, q, arrived, later, read, w.queue);
          ListenConcat(start, w.screen, consumed, read);
          consumed := consumed + read;
        case KeyReady => assert [] + later == later;
        case WaitFailed => assert [] + later == later;
      }
      unserved := later;
      i := i + 1;
    }
  }
}
