/** The touch engine of widget.c as a state machine over input events, and the code that
    performs it on the button list. */
module Touch {
  import opened Bytes
  import opened ButtonList

  /** Input events as get_touch tells them apart. */
  datatype InputEvent =
    | AbsX(value: int)
    | AbsY(value: int)
    | AbsOther
    | SynReport       // EV_SYN with code 0
    | SynOther
    | OtherEvent

  /** Conversion of an int to unsigned int. */
  function U32(v: int): Word32 {
    if 0 <= v < WORD32 then v else v % WORD32
  }

  /** struct touch: the last position, the touch phase, and the button last touched. */
  datatype TouchPoint = TouchPoint(x: Word32, y: Word32, state: TouchState, btId: int)

  /** Screen size, and whether positions are rotated by 180 degrees. */
  datatype Screen = Screen(widthLimit: int, heightLimit: int, swap: bool)

  datatype Panel = Panel(buttons: seq<ButtonView>, touch: TouchPoint)

  /** get_touch; the result says whether it returned EV_SYN. */
  function GetTouch(t: TouchPoint, screen: Screen, ev: InputEvent): (TouchPoint, bool) {
    match ev
    case AbsX(v) => (t.(state := RESET_TOUCH, x := U32(if screen.swap then screen.widthLimit - v else v)), false)
    case AbsY(v) => (t.(state := RESET_TOUCH, y := U32(if screen.swap then screen.heightLimit - v else v)), false)
    case AbsOther => (t.(state := RESET_TOUCH), false)
    case SynReport =>
      (t.(state := match t.state
                   case RESET_TOUCH => KEEP_TOUCH
                   case KEEP_TOUCH => END_TOUCH
                   case END_TOUCH => RESET_TOUCH), true)
    case SynOther => (t, false)
    case OtherEvent => (t, false)
  }

  /** istouchingbutton: strictly inside, in unsigned arithmetic. */
  predicate Hit(b: ButtonView, x: Word32, y: Word32) {
    x > b.x && x < U32(b.x + b.width) && y > b.y && y < U32(b.y + b.height)
  }

  /** find_button_by_position and find_button_by_id, from position i on; the length of the
      list stands for NULL. */
  function FirstHit(buttons: seq<ButtonView>, x: Word32, y: Word32, i: nat): (at: nat)
    requires i <= |buttons|
    ensures i <= at <= |buttons|
    ensures at < |buttons| ==> Hit(buttons[at], x, y)
    ensures forall j | i <= j < at :: !Hit(buttons[j], x, y)
    decreases |buttons| - i
  {
    if i == |buttons| || Hit(buttons[i], x, y) then i else FirstHit(buttons, x, y, i + 1)
  }

  function FirstWithId(buttons: seq<ButtonView>, id: int, i: nat): (at: nat)
    requires i <= |buttons|
    ensures i <= at <= |buttons|
    ensures at < |buttons| ==> buttons[at].id == id
    ensures forall j | i <= j < at :: buttons[j].id != id
    decreases |buttons| - i
  {
    if i == |buttons| || buttons[i].id == id then i else FirstWithId(buttons, id, i + 1)
  }

  datatype Return = Continue | Returned(id: int)

  function SetState(buttons: seq<ButtonView>, at: nat, state: TouchState): (r: seq<ButtonView>)
    requires at <= |buttons|
    ensures |r| == |buttons|
  {
    if at < |buttons| then buttons[at := buttons[at].(state := state)] else buttons
  }

  /** The switch of catch_action_for_button on a touch that goes on. */
  function OnKeep(p: Panel): (Panel, Return) {
    var n := |p.buttons|;
    var hit := FirstHit(p.buttons, p.touch.x, p.touch.y, 0);
    var last := FirstWithId(p.buttons, p.touch.btId, 0);
    if hit == n then
      (Panel(SetState(p.buttons, last, RESET_TOUCH), p.touch.(btId := 0)), Continue)
    else
      Press(p, hit, last)
  }

  /** Button hit is under the finger, button last (if any) was before. */
  function Press(p: Panel, hit: nat, last: nat): (Panel, Return)
    requires hit < |p.buttons| && last <= |p.buttons|
  {
    var id := p.buttons[hit].id;
    var pressed :=
      if last < |p.buttons| && p.buttons[last].id == id then p.buttons
      else SetState(SetState(p.buttons, last, RESET_TOUCH), hit, KEEP_TOUCH);
    (Panel(pressed, p.touch.(btId := id)), if p.buttons[hit].fastTouch then Returned(id) else Continue)
  }

  /** The switch on a touch that ends. */
  function OnEnd(p: Panel): (Panel, Return) {
    var last := FirstWithId(p.buttons, p.touch.btId, 0);
    (p.(buttons := SetState(p.buttons, last, RESET_TOUCH)), Returned(p.touch.btId))
  }

  /** One turn of the loop of catch_action_for_button. */
  function StepEvent(p: Panel, screen: Screen, ev: InputEvent): (Panel, Return) {
    var (t, syn) := GetTouch(p.touch, screen, ev);
    var q := p.(touch := t);
    if !syn then (q, Continue)
    else match t.state
      case KEEP_TOUCH => OnKeep(q)
      case END_TOUCH => OnEnd(q)
      case RESET_TOUCH => (q, Continue)
  }

  // ---------- the code ----------

  class Widget {
    const list: List
    const screen: Screen
    var touch: TouchPoint
    var queue: seq<InputEvent>      // what read() will deliver
    ghost var panel: Panel

    constructor (list: List, screen: Screen)
      requires list.Valid() && Distinct(list.buttons)
      ensures this.list == list && this.screen == screen && queue == []
      ensures Valid()
      ensures panel.touch == TouchPoint(0, 0, RESET_TOUCH, 0)
    {
      this.list, this.screen, this.queue := list, screen, [];
      touch := TouchPoint(0, 0, RESET_TOUCH, 0);
      panel := Panel(Views(list.buttons), TouchPoint(0, 0, RESET_TOUCH, 0));
    }

    /** panel is the abstract value of the touch record and of every listed button. */
    ghost predicate Valid()
      reads this, list, list.nodes, list.buttons
    {
      && list.Valid()
      && Distinct(list.buttons)
      && panel.touch == touch
      && panel.buttons == Views(list.buttons)
    }

    ghost function ButtonAt(at: nat): Button?
      reads list
    {
      if at < |list.buttons| then list.buttons[at] else null
    }

    method FindByPosition() returns (button: Button?)
      requires Valid()
      ensures button == ButtonAt(FirstHit(panel.buttons, touch.x, touch.y, 0))
    {
      ghost var at := 0;
      var node := list.head;
      while node != null
        invariant 0 <= at <= |list.nodes| && node == list.NodeAt(at)
        invariant FirstHit(panel.buttons, touch.x, touch.y, 0) == FirstHit(panel.buttons, touch.x, touch.y, at)
        decreases |list.nodes| - at
      {
        assert list.LinkAt(at);
        button := node.button;
        if Hit(button.View(), touch.x, touch.y) {
          return;
        }
        node := node.next;
        at := at + 1;
      }
      button := null;
    }

    method FindById(id: int) returns (button: Button?)
      requires Valid()
      ensures button == ButtonAt(FirstWithId(panel.buttons, id, 0))
    {
      ghost var at := 0;
      var node := list.head;
      while node != null
        invariant 0 <= at <= |list.nodes| && node == list.NodeAt(at)
        invariant FirstWithId(panel.buttons, id, 0) == FirstWithId(panel.buttons, id, at)
        decreases |list.nodes| - at
      {
        assert list.LinkAt(at);
        button := node.button;
        if button.id == id {
          return;
        }
        node := node.next;
        at := at + 1;
      }
      button := null;
    }

    /** button->state = state. */
    method SetButtonState(button: Button, ghost at: nat, state: TouchState)
      requires Valid() && at < |list.buttons| && button == list.buttons[at]
      modifies button`state, this`panel
      ensures Valid()
      ensures panel == old(panel).(buttons := SetState(old(panel.buttons), at, state))
    {
      button.state := state;
      panel := panel.(buttons := SetState(panel.buttons, at, state));
      ViewsUpdated(list.buttons, old(Views(list.buttons)), at, button.View());
    }

    method SetButtonResult(button: Button, ghost at: nat, result: int)
      requires Valid() && at < |list.buttons| && button == list.buttons[at]
      modifies button`result, this`panel
      ensures Valid()
      ensures panel == old(panel).(buttons :=
                old(panel.buttons)[at := old(panel.buttons[at]).(result := result)])
    {
      button.result := result;
      panel := panel.(buttons := panel.buttons[at := panel.buttons[at].(result := result)]);
      ViewsUpdated(list.buttons, old(Views(list.buttons)), at, button.View());
    }

    method SetButtonMode(button: Button, ghost at: nat, mode: Mode)
      requires Valid() && at < |list.buttons| && button == list.buttons[at]
      modifies button`mode, this`panel
      ensures Valid()
      ensures panel == old(panel).(buttons := old(panel.buttons)[at := old(panel.buttons[at]).(mode := mode)])
    {
      button.mode := mode;
      panel := panel.(buttons := panel.buttons[at := panel.buttons[at].(mode := mode)]);
      ViewsUpdated(list.buttons, old(Views(list.buttons)), at, button.View());
    }

    method SetTouch(t: TouchPoint)
      requires Valid()
      modifies this`touch, this`panel
      ensures Valid() && panel == old(panel).(touch := t)
    {
      touch := t;
      panel := panel.(touch := t);
    }

    /** case KEEP_TOUCH of catch_action_for_button. */
    method KeepTouch() returns (r: Return)
      requires Valid()
      modifies this, list.buttons
      ensures Valid() && queue == old(queue)
      ensures (panel, r) == OnKeep(old(panel))
    {
      hide FirstHit, FirstWithId, Press;
      ghost var at := FirstHit(panel.buttons, touch.x, touch.y, 0);
      ghost var last := FirstWithId(panel.buttons, touch.btId, 0);
      var button := FindByPosition();
      var lastButton := FindById(touch.btId);
      if button == null {
        if lastButton == null {
          SetTouch(touch.(btId := 0));
          return Continue;
        }
        SetButtonState(lastButton, last, RESET_TOUCH);
        SetTouch(touch.(btId := 0));
        return Continue;
      }
      r := PressButton(button, at, lastButton, last);
    }

    /** The part of case KEEP_TOUCH for a position inside a button. */
    method PressButton(button: Button, ghost at: nat, lastButton: Button?, ghost last: nat) returns (r: Return)
      requires Valid()
      requires at < |list.buttons| && button == list.buttons[at] && last <= |list.buttons|
      requires lastButton == ButtonAt(last)
      modifies this, list.buttons
      ensures Valid() && queue == old(queue)
      ensures (panel, r) == Press(old(panel), at, last)
    {
      if lastButton == null {
        r := MarkPressed(button, at);
        return;
      } else if lastButton.id != button.id {
        SetButtonState(lastButton, last, RESET_TOUCH);
        r := MarkPressed(button, at);
        return;
      }
      SetTouch(touch.(btId := button.id));
      return if button.fastTouch then Returned(touch.btId) else Continue;
    }

    method MarkPressed(button: Button, ghost at: nat) returns (r: Return)
      requires Valid() && at < |list.buttons| && button == list.buttons[at]
      modifies this`touch, this`panel, button`state
      ensures Valid()
      ensures panel == Panel(SetState(old(panel.buttons), at, KEEP_TOUCH), old(touch).(btId := button.id))
      ensures r == if button.fastTouch then Returned(button.id) else Continue
    {
      SetButtonState(button, at, KEEP_TOUCH);
      SetTouch(touch.(btId := button.id));
      return if button.fastTouch then Returned(touch.btId) else Continue;
    }

    /** case END_TOUCH. */
    method EndTouch() returns (r: Return)
      requires Valid()
      modifies this, list.buttons
      ensures Valid() && queue == old(queue)
      ensures (panel, r) == OnEnd(old(panel))
    {
      ghost var at := FirstWithId(panel.buttons, touch.btId, 0);
      var button := FindById(touch.btId);
      if button == null {
        return Returned(touch.btId);
      }
      SetButtonState(button, at, RESET_TOUCH);
      r := Returned(touch.btId);
    }

    method Turn(t: InputEvent) returns (r: Return)
      requires Valid()
      modifies this, list.buttons
      ensures Valid() && queue == old(queue)
      ensures (panel, r) == StepEvent(old(panel), screen, t)
    {
      var (point, syn) := GetTouch(touch, screen, t);
      SetTouch(point);
      r := Continue;
      if syn {
        match touch.state {
          case KEEP_TOUCH => r := KeepTouch();
          case END_TOUCH => r := EndTouch();
          case RESET_TOUCH =>
        }
      }
    }
  }

  ghost predicate Distinct(buttons: seq<Button>) {
    forall i, j | 0 <= i < j < |buttons| :: buttons[i] != buttons[j]
  }

  function Views(buttons: seq<Button>): (v: seq<ButtonView>)
    reads buttons
    ensures |v| == |buttons| && forall i | 0 <= i < |buttons| :: v[i] == buttons[i].View()
  {
    if buttons == [] then [] else Views(buttons[..|buttons| - 1]) + [buttons[|buttons| - 1].View()]
  }

  lemma ViewsUpdated(buttons: seq<Button>, was: seq<ButtonView>, at: nat, view: ButtonView)
    requires at < |buttons| == |was| && buttons[at].View() == view
    requires forall i | 0 <= i < |buttons| && i != at :: buttons[i].View() == was[i]
    ensures Views(buttons) == was[at := view]
  {
  }
}
