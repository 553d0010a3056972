/** What holds of the touch engine over every sequence of input events. */
module TouchTheorems {
  import opened ButtonList
  import opened Touch
  import opened TouchTest

  // ---------- at most one button is pressed ----------

  predicate GoodIds(buttons: seq<ButtonView>) {
    && (forall i | 0 <= i < |buttons| :: buttons[i].id != 0)
    && (forall i, j | 0 <= i < j < |buttons| :: buttons[i].id != buttons[j].id)
  }

  /** A pressed button is the one the touch record names; that is 0 or a listed button. */
  predicate TouchInv(p: Panel) {
    && GoodIds(p.buttons)
    && (forall i | 0 <= i < |p.buttons| :: p.buttons[i].state == KEEP_TOUCH ==> p.buttons[i].id == p.touch.btId)
    && (p.touch.btId == 0 || FirstWithId(p.buttons, p.touch.btId, 0) < |p.buttons|)
  }

  /** Everything about a button but its state, mode and result is fixed. */
  predicate SameButtons(a: seq<ButtonView>, b: seq<ButtonView>) {
    |a| == |b| && forall i | 0 <= i < |a| ::
      b[i] == a[i].(state := b[i].state, mode := b[i].mode, result := b[i].result)
  }

  lemma FindsItself(buttons: seq<ButtonView>, at: nat)
    requires GoodIds(buttons) && at < |buttons|
    ensures FirstWithId(buttons, buttons[at].id, 0) == at
  {
    var first := FirstWithId(buttons, buttons[at].id, 0);
    assert first <= at;
  }

  lemma FindsSame(a: seq<ButtonView>, b: seq<ButtonView>, id: int)
    requires SameButtons(a, b)
    ensures FirstWithId(a, id, 0) == FirstWithId(b, id, 0)
  {
    var i, j := FirstWithId(a, id, 0), FirstWithId(b, id, 0);
    assert i < |a| ==> a[i].id == b[i].id;
    assert j < |a| ==> a[j].id == b[j].id;
  }

  lemma KeepInv(p: Panel)
    requires TouchInv(p)
    ensures TouchInv(OnKeep(p).0) && SameButtons(p.buttons, OnKeep(p).0.buttons)
  {
    var q := OnKeep(p).0;
    var hit := FirstHit(p.buttons, p.touch.x, p.touch.y, 0);
    assert SameButtons(p.buttons, q.buttons);
    if hit < |p.buttons| {
      FindsItself(p.buttons, hit);
      FindsSame(p.buttons, q.buttons, q.touch.btId);
    }
  }

  lemma StepInv(p: Panel, screen: Screen, ev: InputEvent)
    requires TouchInv(p)
    ensures TouchInv(StepEvent(p, screen, ev).0)
    ensures SameButtons(p.buttons, StepEvent(p, screen, ev).0.buttons)
  {
    var (t, syn) := GetTouch(p.touch, screen, ev);
    var q := p.(touch := t);
    assert TouchInv(q);
    if syn && t.state == KEEP_TOUCH {
      KeepInv(q);
    } else if syn && t.state == END_TOUCH {
      var r := OnEnd(q).0;
      assert SameButtons(q.buttons, r.buttons);
      FindsSame(q.buttons, r.buttons, r.touch.btId);
    }
  }

  lemma ReportInv(p: Panel, id: int)
    requires TouchInv(p)
    ensures TouchInv(Report(p, id).panel) && SameButtons(p.buttons, Report(p, id).panel.buttons)
  {
    var q := Report(p, id).panel;
    assert SameButtons(p.buttons, q.buttons);
    FindsSame(p.buttons, q.buttons, p.touch.btId);
  }

  lemma SameTransitive(a: seq<ButtonView>, b: seq<ButtonView>, c: seq<ButtonView>)
    requires SameButtons(a, b) && SameButtons(b, c)
    ensures SameButtons(a, c)
  {
  }

  lemma ListenStepInv(l: Listener, screen: Screen, ev: InputEvent)
    requires TouchInv(l.panel)
    ensures TouchInv(ListenStep(l, screen, ev).panel)
    ensures SameButtons(l.panel.buttons, ListenStep(l, screen, ev).panel.buttons)
  {
    if !l.done {
      StepInv(l.panel, screen, ev);
      var (p, r) := StepEvent(l.panel, screen, ev);
      if r.Returned? {
        ReportInv(p, r.id);
        SameTransitive(l.panel.buttons, p.buttons, Report(p, r.id).panel.buttons);
      }
    }
  }

  /** Over every event sequence: at most one button is pressed, and it is the one named
      in the touch record. */
  lemma {:induction false} AtMostOnePressed(l: Listener, screen: Screen, events: seq<InputEvent>)
    requires TouchInv(l.panel)
    ensures var p := Listen(l, screen, events).panel;
            && TouchInv(p) && SameButtons(l.panel.buttons, p.buttons)
            && forall i, j | 0 <= i < j < |p.buttons| ::
                 !(p.buttons[i].state == KEEP_TOUCH && p.buttons[j].state == KEEP_TOUCH)
    decreases |events|
  {
    if events != [] {
      ListenStepInv(l, screen, events[0]);
      var m := ListenStep(l, screen, events[0]);
      AtMostOnePressed(m, screen, events[1..]);
      SameTransitive(l.panel.buttons, m.panel.buttons, Listen(l, screen, events).panel.buttons);
    }
  }

  /** A touch inside a button does not always show it pressed: exactly when the button
      was shown pressed already or is not the one last touched. The record keeps the last
      button when a touch ends, so touching the same button again leaves it unpressed. */
  lemma ShownPressedExactly(p: Panel)
    requires GoodIds(p.buttons)
    requires FirstHit(p.buttons, p.touch.x, p.touch.y, 0) < |p.buttons|
    ensures var hit := FirstHit(p.buttons, p.touch.x, p.touch.y, 0);
            OnKeep(p).0.buttons[hit].state == KEEP_TOUCH
            <==> (p.buttons[hit].state == KEEP_TOUCH || p.buttons[hit].id != p.touch.btId)
  {
    var hit := FirstHit(p.buttons, p.touch.x, p.touch.y, 0);
    FindsItself(p.buttons, hit);
  }

  // ---------- reported buttons were touched ----------

  /** This event completes a touch report strictly inside the button with that id. */
  predicate Touches(p: Panel, screen: Screen, ev: InputEvent, id: int) {
    var (t, syn) := GetTouch(p.touch, screen, ev);
    && syn && t.state == KEEP_TOUCH
    && exists i | 0 <= i < |p.buttons| :: p.buttons[i].id == id && Hit(p.buttons[i], t.x, t.y)
  }

  ghost predicate WasTouched(l: Listener, screen: Screen, events: seq<InputEvent>, id: int) {
    exists k | 0 <= k < |events| :: Touches(Listen(l, screen, events[..k]).panel, screen, events[k], id)
  }

  lemma StepTouches(p: Panel, screen: Screen, ev: InputEvent)
    ensures var (q, r) := StepEvent(p, screen, ev);
            && (q.touch.btId in {0, p.touch.btId} || Touches(p, screen, ev, q.touch.btId))
            && (r.Returned? ==> r.id == q.touch.btId)
  {
    var (t, syn) := GetTouch(p.touch, screen, ev);
    if syn && t.state == KEEP_TOUCH {
      var hit := FirstHit(p.buttons, t.x, t.y, 0);
      assert hit < |p.buttons| ==> Hit(p.buttons[hit], t.x, t.y);
    }
  }

  lemma TouchedLater(l: Listener, screen: Screen, events: seq<InputEvent>, ev: InputEvent, id: int)
    requires WasTouched(l, screen, events, id) || Touches(Listen(l, screen, events).panel, screen, ev, id)
    ensures WasTouched(l, screen, events + [ev], id)
  {
    if WasTouched(l, screen, events, id) {
      TouchedBefore(l, screen, events, ev, id);
    } else {
      var all := events + [ev];
      assert all[..|events|] == events && all[|events|] == ev;
    }
  }

  lemma TouchedBefore(l: Listener, screen: Screen, events: seq<InputEvent>, ev: InputEvent, id: int)
    requires WasTouched(l, screen, events, id)
    ensures WasTouched(l, screen, events + [ev], id)
  {
    var k :| 0 <= k < |events| && Touches(Listen(l, screen, events[..k]).panel, screen, events[k], id);
    var all := events + [ev];
    assert all[..k] == events[..k] && all[k] == events[k];
  }

  /** Over every event sequence from a fresh start: the button the touch record names, and
      every button with a result, was touched strictly inside its rectangle earlier on. */
  lemma {:induction false} ReportedWasTouched(l: Listener, screen: Screen, events: seq<InputEvent>)
    requires l.panel.touch.btId == 0
    requires forall i | 0 <= i < |l.panel.buttons| :: l.panel.buttons[i].result == 0
    ensures var p := Listen(l, screen, events).panel;
            && (p.touch.btId != 0 ==> WasTouched(l, screen, events, p.touch.btId))
            && forall i | 0 <= i < |p.buttons| ::
                 p.buttons[i].result != 0 && p.buttons[i].id != 0 ==> WasTouched(l, screen, events, p.buttons[i].id)
    decreases |events|
  {
    if events != [] {
      var last := |events| - 1;
      var before, ev := events[..last], events[last];
      ReportedWasTouched(l, screen, before);
      assert before + [ev] == events;
      ListenConcat(l, screen, before, [ev]);
      var m := Listen(l, screen, before);
      ListenOne(m, screen, ev);
      TouchedStep(l, screen, before, ev);
    }
  }

  lemma TouchedStep(l: Listener, screen: Screen, before: seq<InputEvent>, ev: InputEvent)
    requires var m := Listen(l, screen, before);
             && (m.panel.touch.btId != 0 ==> WasTouched(l, screen, before, m.panel.touch.btId))
             && forall i | 0 <= i < |m.panel.buttons| ::
                  m.panel.buttons[i].result != 0 && m.panel.buttons[i].id != 0
                  ==> WasTouched(l, screen, before, m.panel.buttons[i].id)
    ensures var p := ListenStep(Listen(l, screen, before), screen, ev).panel;
            && (p.touch.btId != 0 ==> WasTouched(l, screen, before + [ev], p.touch.btId))
            && forall i | 0 <= i < |p.buttons| ::
                 p.buttons[i].result != 0 && p.buttons[i].id != 0
                 ==> WasTouched(l, screen, before + [ev], p.buttons[i].id)
  {
    var m := Listen(l, screen, before);
    var p := ListenStep(m, screen, ev).panel;
    StepTouches(m.panel, screen, ev);
    StepResults(m, screen, ev);
    if p.touch.btId != 0 {
      TouchedLater(l, screen, before, ev, p.touch.btId);
    }
    forall i | 0 <= i < |p.buttons| && p.buttons[i].result != 0 && p.buttons[i].id != 0
      ensures WasTouched(l, screen, before + [ev], p.buttons[i].id)
    {
      if p.buttons[i].id != p.touch.btId {
        TouchedLater(l, screen, before, ev, p.buttons[i].id);
      }
    }
  }

  /** One event gives a result at most to the button the touch record then names. */
  lemma StepResults(l: Listener, screen: Screen, ev: InputEvent)
    ensures var p := ListenStep(l, screen, ev).panel;
            && |p.buttons| == |l.panel.buttons|
            && (l.done ==> p == l.panel)
            && (!l.done ==> p.touch.btId == StepEvent(l.panel, screen, ev).0.touch.btId)
            && forall i | 0 <= i < |p.buttons| ::
                 && p.buttons[i].id == l.panel.buttons[i].id
                 && (p.buttons[i].result == l.panel.buttons[i].result
                     || (p.buttons[i].result == 1 && p.buttons[i].id == p.touch.btId))
  {
    if !l.done {
      StepTouches(l.panel, screen, ev);
      StepKeepsResults(l.panel, screen, ev);
      var (q, r) := StepEvent(l.panel, screen, ev);
      if r.Returned? {
        ReportResults(q, r.id);
      }
    }
  }

  lemma ReportResults(p: Panel, id: int)
    ensures var q := Report(p, id).panel;
            && |q.buttons| == |p.buttons| && q.touch == p.touch
            && forall i | 0 <= i < |q.buttons| ::
                 && q.buttons[i].id == p.buttons[i].id
                 && (q.buttons[i].result == p.buttons[i].result
                     || (q.buttons[i].result == 1 && q.buttons[i].id == id))
  {
  }

  // ---------- the test ends exactly when every button was touched ----------

  /** While listening, some button is missing and none is in exit mode. */
  predicate ListenInv(l: Listener) {
    var b := l.panel.buttons;
    && (l.done <==> AllTouched(b))
    && (!l.done ==> forall i | 0 <= i < |b| :: b[i].mode == NORMAL)
  }

  lemma StepKeepsResults(p: Panel, screen: Screen, ev: InputEvent)
    ensures var b := StepEvent(p, screen, ev).0.buttons;
            |b| == |p.buttons| && forall i | 0 <= i < |b| :: b[i] == p.buttons[i].(state := b[i].state)
  {
  }

  lemma ReportCompletes(p: Panel, id: int)
    requires ListenInv(Listener(p, false))
    ensures ListenInv(Report(p, id))
  {
    var at := FirstWithId(p.buttons, id, 0);
    if at < |p.buttons| {
      var recorded := p.buttons[at := p.buttons[at].(result := 1)];
      var b := Report(p, id).panel.buttons;
      assert forall i | 0 <= i < |b| :: b[i].result == recorded[i].result;
      assert AllTouched(b) == AllTouched(recorded);
    }
  }

  lemma ListenStepCompletes(l: Listener, screen: Screen, ev: InputEvent)
    requires ListenInv(l)
    ensures ListenInv(ListenStep(l, screen, ev))
  {
    if !l.done {
      var (p, r) := StepEvent(l.panel, screen, ev);
      StepKeepsResults(l.panel, screen, ev);
      var i :| 0 <= i < |l.panel.buttons| && l.panel.buttons[i].result == 0;
      assert p.buttons[i].result == 0;
      if r.Returned? {
        ReportCompletes(p, r.id);
      }
    }
  }

  /** Over every event sequence, start_listen has returned exactly when all buttons have
      a result: at the event that gives the last one its result, and no earlier. */
  lemma {:induction false} EndsExactlyWhenAllTouched(l: Listener, screen: Screen, events: seq<InputEvent>)
    requires ListenInv(l)
    ensures ListenInv(Listen(l, screen, events))
    ensures Listen(l, screen, events).done <==> AllTouched(Listen(l, screen, events).panel.buttons)
    decreases |events|
  {
    if events != [] {
      ListenStepCompletes(l, screen, events[0]);
      EndsExactlyWhenAllTouched(ListenStep(l, screen, events[0]), screen, events[1..]);
    }
  }
}
