/** The touch-screen test itself: the 5 by 5 grid of buttons and taps on it. */
module TouchGrid {
  import opened Bytes
  import opened ButtonList
  import opened Touch
  import opened TouchTest
  import opened TouchTheorems

  const COLUMNS := 5
  const ROWS := 5

  /** Cell k of the grid, counted row by row, with id k + 1. */
  function Cell(k: nat, width: nat, height: nat): ButtonView
    requires k < COLUMNS * ROWS && COLUMNS * width < 0x8000_0000 && ROWS * height < 0x8000_0000
  {
    InScreen(k % COLUMNS, width);
    InScreen(k / COLUMNS, height);
    ButtonView(k + 1, k % COLUMNS * width, k / COLUMNS * height, width, height, true, NORMAL, RESET_TOUCH, 0)
  }

  lemma InScreen(i: nat, size: nat)
    requires i < 5 && 5 * size < 0x8000_0000
    ensures 0 <= i * size && i * size + size < 0x8000_0000
  {
    if i == 0 {
    } else if i == 1 {
    } else if i == 2 {
    } else if i == 3 {
    } else {
      assert i == 4;
    }
  }

  predicate IsGrid(buttons: seq<ButtonView>, width: nat, height: nat)
    requires COLUMNS * width < 0x8000_0000 && ROWS * height < 0x8000_0000
  {
    && |buttons| == COLUMNS * ROWS
    && forall k | 0 <= k < |buttons| :: buttons[k] == Cell(k, width, height)
  }

  lemma CellIs(i: nat, j: nat, width: nat, height: nat)
    requires i < COLUMNS && j < ROWS && COLUMNS * width < 0x8000_0000 && ROWS * height < 0x8000_0000
    ensures 0 <= i * width < 0x8000_0000 && 0 <= j * height < 0x8000_0000
    ensures Cell(COLUMNS * j + i, width, height)
         == ButtonView(COLUMNS * j + i + 1, i * width, j * height, width, height, true, NORMAL, RESET_TOUCH, 0)
  {
    InScreen(i, width);
    InScreen(j, height);
    assert (COLUMNS * j + i) % COLUMNS == i && (COLUMNS * j + i) / COLUMNS == j;
  }

  /** The buttons made so far, listed and equal to their cells. */
  ghost predicate Built(list: List, buttons: seq<Button>, width: nat, height: nat)
    requires COLUMNS * width < 0x8000_0000 && ROWS * height < 0x8000_0000
    reads list, list.nodes, buttons
  {
    && list.Valid() && buttons == list.buttons && Distinct(buttons) && |buttons| <= COLUMNS * ROWS
    && forall k | 0 <= k < |buttons| :: buttons[k].View() == Cell(k, width, height)
  }

  /** The grid construction of main. */
  method BuildGrid(width: nat, height: nat) returns (list: List, btPass: seq<Button>)
    requires COLUMNS * width < 0x8000_0000 && ROWS * height < 0x8000_0000
    ensures fresh(list) && list.Valid() && fresh(list.nodes) && fresh(btPass)
    ensures btPass == list.buttons && Distinct(btPass)
    ensures IsGrid(Views(btPass), width, height)
  {
    hide Cell;
    list := new List();
    btPass := [];
    var widgetId := 1;
    var j := 0;
    while j < ROWS
      invariant 0 <= j <= ROWS && widgetId == 1 + COLUMNS * j && |btPass| == COLUMNS * j
      invariant fresh(list) && fresh(list.nodes) && fresh(btPass) && Built(list, btPass, width, height)
    {
      var i := 0;
      while i < COLUMNS
        invariant 0 <= i <= COLUMNS && widgetId == 1 + COLUMNS * j + i && |btPass| == COLUMNS * j + i
        invariant fresh(list) && fresh(list.nodes) && fresh(btPass) && Built(list, btPass, width, height)
      {
        btPass := AddCell(list, btPass, widgetId, i, j, width, height);
        widgetId := widgetId + 1;
        i := i + 1;
      }
      j := j + 1;
    }
  }

  /** One turn of the inner loop. */
  method AddCell(list: List, btPass: seq<Button>, widgetId: int, i: nat, j: nat, width: nat, height: nat)
    returns (now: seq<Button>)
    requires i < COLUMNS && j < ROWS && COLUMNS * width < 0x8000_0000 && ROWS * height < 0x8000_0000
    requires Built(list, btPass, width, height)
    requires |btPass| == COLUMNS * j + i && widgetId == 1 + COLUMNS * j + i
    modifies list, list.nodes
    ensures Built(list, now, width, height)
    ensures |now| == |btPass| + 1 && now[..|btPass|] == btPass && fresh(now[|btPass|])
    ensures exists n :: fresh(n) && list.nodes == old(list.nodes) + [n]
  {
    hide Cell;
    CellIs(i, j, width, height);
    var button := new Button(widgetId, i * width, j * height, width, height);
    list.Add(button);
    button.fastTouch := true;
    now := btPass + [button];
  }

  /** Cells have disjoint interiors: a position is strictly inside at most one. */
  lemma CellsDisjoint(a: nat, b: nat, width: nat, height: nat, x: Word32, y: Word32)
    requires a < COLUMNS * ROWS && b < COLUMNS * ROWS
    requires COLUMNS * width < 0x8000_0000 && ROWS * height < 0x8000_0000
    requires Hit(Cell(a, width, height), x, y) && Hit(Cell(b, width, height), x, y)
    ensures a == b
  {
    InScreen(a % COLUMNS, width);
    InScreen(b % COLUMNS, width);
    InScreen(a / COLUMNS, height);
    InScreen(b / COLUMNS, height);
    SameStrip(a % COLUMNS, b % COLUMNS, width, x);
    SameStrip(a / COLUMNS, b / COLUMNS, height, y);
  }

  lemma SameStrip(i: nat, j: nat, size: nat, x: int)
    requires i * size < x < i * size + size
    requires j * size < x < j * size + size
    ensures i == j
  {
    if i < j {
      Separate(i, j, size);
    } else if j < i {
      Separate(j, i, size);
    }
  }

  lemma Separate(i: nat, j: nat, size: nat)
    requires i < j
    ensures i * size + size <= j * size
  {
    assert j * size == (i + 1) * size + (j - i - 1) * size;
  }

  /** A position is strictly inside strip i of some size exactly when it is in that strip
      and not on its edge. */
  lemma InStrip(i: nat, size: nat, x: nat)
    requires size > 0
    ensures i * size < x < i * size + size <==> x / size == i && x % size != 0
  {
    var q, r := x / size, x % size;
    assert x == q * size + r && 0 <= r < size;
    if q < i {
      Separate(q, i, size);
    } else if i < q {
      Separate(i, q, size);
    }
  }

  /** Which positions a cell covers: all of its own but the grid lines. */
  lemma HitsCell(k: nat, width: nat, height: nat, x: Word32, y: Word32)
    requires k < COLUMNS * ROWS && COLUMNS * width < 0x8000_0000 && ROWS * height < 0x8000_0000
    ensures Hit(Cell(k, width, height), x, y)
       <==> && width > 0 && height > 0
            && x / width == k % COLUMNS && x % width != 0 && y / height == k / COLUMNS && y % height != 0
  {
    InScreen(k % COLUMNS, width);
    InScreen(k / COLUMNS, height);
    if width > 0 {
      InStrip(k % COLUMNS, width, x);
    }
    if height > 0 {
      InStrip(k / COLUMNS, height, y);
    }
  }

  /** The positions that hit a cell at all: inside five widths and heights, and on no grid
      line. */
  predicate OffLines(width: nat, height: nat, x: nat, y: nat) {
    && x < COLUMNS * width && x % width != 0
    && y < ROWS * height && y % height != 0
  }

  lemma HitsSomeCell(width: nat, height: nat, x: Word32, y: Word32)
    requires COLUMNS * width < 0x8000_0000 && ROWS * height < 0x8000_0000
    ensures (exists k: nat :: k < COLUMNS * ROWS && Hit(Cell(k, width, height), x, y))
       <==> OffLines(width, height, x, y)
  {
    if OffLines(width, height, x, y) {
      CellAt(width, height, x, y);
    }
    forall k: nat | k < COLUMNS * ROWS && Hit(Cell(k, width, height), x, y)
      ensures OffLines(width, height, x, y)
    {
      hide Cell, Hit;
      HitsCell(k, width, height, x, y);
      StripBound(x, width);
      StripBound(y, height);
    }
  }

  lemma CellAt(width: nat, height: nat, x: Word32, y: Word32)
    requires COLUMNS * width < 0x8000_0000 && ROWS * height < 0x8000_0000
    requires OffLines(width, height, x, y)
    ensures exists k: nat :: k < COLUMNS * ROWS && Hit(Cell(k, width, height), x, y)
  {
    hide *;
    OffLinesInside(width, height, x, y);
    CellWith(x / width, y / height, width, height, x, y);
  }

  lemma OffLinesInside(width: nat, height: nat, x: nat, y: nat)
    requires OffLines(width, height, x, y)
    ensures width > 0 && height > 0 && x / width < COLUMNS && y / height < ROWS
  {
    StripBound(x, width);
    StripBound(y, height);
  }

  lemma CellWith(i: nat, j: nat, width: nat, height: nat, x: Word32, y: Word32)
    requires i < COLUMNS && j < ROWS
    requires COLUMNS * width < 0x8000_0000 && ROWS * height < 0x8000_0000
    requires OffLines(width, height, x, y) && x / width == i && y / height == j
    ensures exists k: nat :: k < COLUMNS * ROWS && Hit(Cell(k, width, height), x, y)
  {
    hide Cell, Hit;
    CellNumber(i, j);
    HitsCell(j * COLUMNS + i, width, height, x, y);
  }

  lemma CellNumber(i: nat, j: nat)
    requires i < COLUMNS && j < ROWS
    ensures var k := j * COLUMNS + i; k < COLUMNS * ROWS && k % COLUMNS == i && k / COLUMNS == j
  {
  }

  lemma StripBound(x: nat, size: nat)
    requires size > 0
    ensures x < 5 * size <==> x / size < 5
  {
    var q, r := x / size, x % size;
    assert x == q * size + r && 0 <= r < size;
    if q < 5 {
      Separate(q, 5, size);
    } else {
      assert q * size == 5 * size + (q - 5) * size;
    }
  }

  // ---------- taps ----------

  /** A finger set down at a screen position, aimed at a cell. */
  datatype Tap = Tap(cell: nat, x: Word32, y: Word32)

  /** The raw events of a tap; a rotated screen reports mirrored coordinates. */
  function TapEvents(screen: Screen, tap: Tap): seq<InputEvent> {
    [AbsX(if screen.swap then screen.widthLimit - tap.x else tap.x),
     AbsY(if screen.swap then screen.heightLimit - tap.y else tap.y),
     SynReport]
  }

  function TapsEvents(screen: Screen, taps: seq<Tap>): seq<InputEvent> {
    if taps == [] then [] else TapEvents(screen, taps[0]) + TapsEvents(screen, taps[1..])
  }

  /** Fast buttons, of which the tap is strictly inside its cell and no other. */
  predicate OnCell(buttons: seq<ButtonView>, tap: Tap) {
    && tap.cell < |buttons|
    && Hit(buttons[tap.cell], tap.x, tap.y)
    && (forall i | 0 <= i < |buttons| && i != tap.cell :: !Hit(buttons[i], tap.x, tap.y))
    && (forall i | 0 <= i < |buttons| :: buttons[i].fastTouch)
  }

  lemma GridTap(buttons: seq<ButtonView>, width: nat, height: nat, tap: Tap)
    requires COLUMNS * width < 0x8000_0000 && ROWS * height < 0x8000_0000
    requires IsGrid(buttons, width, height)
    requires tap.cell < |buttons| && Hit(buttons[tap.cell], tap.x, tap.y)
    ensures OnCell(buttons, tap)
  {
    forall i | 0 <= i < |buttons| && i != tap.cell
      ensures !Hit(buttons[i], tap.x, tap.y)
    {
      if Hit(buttons[i], tap.x, tap.y) {
        CellsDisjoint(i, tap.cell, width, height, tap.x, tap.y);
      }
    }
  }

  lemma OnSameCell(a: seq<ButtonView>, b: seq<ButtonView>, tap: Tap)
    requires SameButtons(a, b) && OnCell(a, tap)
    ensures OnCell(b, tap)
  {
    forall i | 0 <= i < |b|
      ensures Hit(b[i], tap.x, tap.y) == Hit(a[i], tap.x, tap.y) && b[i].fastTouch == a[i].fastTouch
    {
    }
  }

  /** In any state, a tap is reported as its cell. */
  lemma TapReported(l: Listener, screen: Screen, tap: Tap)
    requires !l.done && TouchInv(l.panel) && OnCell(l.panel.buttons, tap)
    ensures var p := OnKeep(l.panel.(touch := TouchPoint(tap.x, tap.y, KEEP_TOUCH, l.panel.touch.btId))).0;
            Listen(l, screen, TapEvents(screen, tap)) == Report(p, l.panel.buttons[tap.cell].id)
  {
    var e := TapEvents(screen, tap);
    var t0 := l.panel.touch;
    var t1 := t0.(x := tap.x, state := RESET_TOUCH);
    var t2 := t1.(y := tap.y);
    var t3 := t2.(state := KEEP_TOUCH);
    assert GetTouch(t0, screen, e[0]) == (t1, false);
    assert GetTouch(t1, screen, e[1]) == (t2, false);
    assert GetTouch(t2, screen, e[2]) == (t3, true);
    var q := l.panel.(touch := t3);
    assert FirstHit(q.buttons, tap.x, tap.y, 0) == tap.cell;
    var l1, l2 := Listener(l.panel.(touch := t1), false), Listener(l.panel.(touch := t2), false);
    assert ListenStep(l, screen, e[0]) == l1;
    assert ListenStep(l1, screen, e[1]) == l2;
    assert e[1..][0] == e[1] && e[1..][1..] == [e[2]];
    ListenOne(l2, screen, e[2]);
  }

  /** A tap gives its cell, and no other, a result. */
  lemma TapRecorded(l: Listener, screen: Screen, tap: Tap)
    requires !l.done && TouchInv(l.panel) && OnCell(l.panel.buttons, tap)
    ensures var b := Listen(l, screen, TapEvents(screen, tap)).panel.buttons;
            |b| == |l.panel.buttons| && forall i | 0 <= i < |b| ::
              b[i].result == if i == tap.cell then 1 else l.panel.buttons[i].result
  {
    var q := l.panel.(touch := TouchPoint(tap.x, tap.y, KEEP_TOUCH, l.panel.touch.btId));
    var p := OnKeep(q).0;
    TapReported(l, screen, tap);
    assert TouchInv(q);
    KeepInv(q);
    FindsItself(p.buttons, tap.cell);
    assert forall i | 0 <= i < |p.buttons| :: p.buttons[i].result == q.buttons[i].result;
    RecordedAt(p, tap.cell);
  }

  lemma RecordedAt(p: Panel, at: nat)
    requires at < |p.buttons| && FirstWithId(p.buttons, p.buttons[at].id, 0) == at
    ensures var b := Report(p, p.buttons[at].id).panel.buttons;
            |b| == |p.buttons| && forall i | 0 <= i < |b| :: b[i].result == if i == at then 1 else p.buttons[i].result
  {
  }

  function Cells(taps: seq<Tap>): set<nat> {
    set t | t in taps :: t.cell
  }

  /** Whatever the order and repetition of the taps, the test ends when, and only when,
      every button has been tapped; until then exactly the tapped ones have a result. */
  lemma {:induction false} TapsComplete(l: Listener, screen: Screen, taps: seq<Tap>)
    requires ListenInv(l) && TouchInv(l.panel)
    requires forall t | t in taps :: OnCell(l.panel.buttons, t)
    ensures var m := Listen(l, screen, TapsEvents(screen, taps));
            var b, b' := l.panel.buttons, m.panel.buttons;
            && |b'| == |b|
            && (m.done <==> forall i | 0 <= i < |b| :: b[i].result != 0 || i in Cells(taps))
            && (!m.done ==> forall i | 0 <= i < |b| ::
                  b'[i].result == if i in Cells(taps) then 1 else b[i].result)
    decreases |taps|
  {
    if taps != [] {
      var tap, rest := taps[0], taps[1..];
      assert Cells(taps) == {tap.cell} + Cells(rest);
      ListenConcat(l, screen, TapEvents(screen, tap), TapsEvents(screen, rest));
      if l.done {
        DoneStays(l, screen, TapsEvents(screen, taps));
      } else {
        var m := Listen(l, screen, TapEvents(screen, tap));
        TapRecorded(l, screen, tap);
        AtMostOnePressed(l, screen, TapEvents(screen, tap));
        EndsExactlyWhenAllTouched(l, screen, TapEvents(screen, tap));
        forall t | t in rest
          ensures OnCell(m.panel.buttons, t)
        {
          OnSameCell(l.panel.buttons, m.panel.buttons, t);
        }
        TapsComplete(m, screen, rest);
      }
    }
  }

  /** On the grid as built: the test passes on a sequence of taps exactly when they cover
      all 25 cells. */
  lemma GridTest(width: nat, height: nat, screen: Screen, taps: seq<Tap>)
    requires COLUMNS * width < 0x8000_0000 && ROWS * height < 0x8000_0000
    requires OnGrid(Grid(width, height), taps)
    ensures Listen(Fresh(width, height), screen, TapsEvents(screen, taps)).done
            <==> forall i | 0 <= i < COLUMNS * ROWS :: i in Cells(taps)
  {
    var l, buttons := Fresh(width, height), Grid(width, height);
    assert forall i | 0 <= i < |buttons| :: buttons[i].id == i + 1 && buttons[i].result == 0;
    assert buttons[0].result == 0 && !AllTouched(buttons);
    assert TouchInv(l.panel) && ListenInv(l);
    forall t | t in taps
      ensures OnCell(buttons, t)
    {
      GridTap(buttons, width, height, t);
    }
    TapsComplete(l, screen, taps);
  }

  predicate OnGrid(buttons: seq<ButtonView>, taps: seq<Tap>) {
    forall t | t in taps :: t.cell < |buttons| && Hit(buttons[t.cell], t.x, t.y)
  }

  function Grid(width: nat, height: nat): (buttons: seq<ButtonView>)
    requires COLUMNS * width < 0x8000_0000 && ROWS * height < 0x8000_0000
    ensures IsGrid(buttons, width, height)
  {
    seq(COLUMNS * ROWS, k requires 0 <= k < COLUMNS * ROWS => Cell(k, width, height))
  }

  /** The listener on the grid when nothing has been touched. */
  function Fresh(width: nat, height: nat): Listener
    requires COLUMNS * width < 0x8000_0000 && ROWS * height < 0x8000_0000
  {
    Listener(Panel(Grid(width, height), TouchPoint(0, 0, RESET_TOUCH, 0)), false)
  }

  /** main of the test: build the grid, then listen. It exits only if listening to all
      that arrived ends, with every button touched. Otherwise pending is what is still
      queued, and listening to all before it has not ended; so with an empty queue the
      exit is decided by the arrivals alone. By GridTest, arrived taps end the listening
      if and only if they cover the grid. */
  method TestTouchScreen(screenWidth: nat, screenHeight: nat, swap: bool, wakes: seq<Wake>)
    returns (exit: bool, pending: seq<InputEvent>)
    requires screenWidth < 0x8000_0000 && screenHeight < 0x8000_0000
    ensures var start, screen := Fresh(screenWidth / 5, screenHeight / 5), Screen(screenWidth, screenHeight, swap);
            var arrived := Arrivals(wakes);
            && |pending| <= |arrived|
            && (exit ==> var end := Listen(start, screen, arrived); end.done && AllTouched(end.panel.buttons))
            && (!exit ==>
                  var k := |arrived| - |pending|;
                  pending == arrived[k..] && !Listen(start, screen, arrived[..k]).done)
  {
    var screen := Screen(screenWidth, screenHeight, swap);
    var width, height := screenWidth / 5, screenHeight / 5;
    var list, btPass := BuildGrid(width, height);
    var w := new Widget(list, screen);
    assert forall i | 0 <= i < |btPass| :: Views(btPass)[i].id == btPass[i].id == i + 1;
    assert w.panel.buttons == Grid(width, height);
    ghost var consumed, unserved;
    exit, consumed, unserved := StartListen(w, btPass, wakes);
    pending := w.queue;
    Outcome(width, height, screen, consumed, w.queue + unserved);
    assert Arrivals(wakes) == consumed + (w.queue + unserved);
    if !exit {
      assert Arrivals(wakes)[..|consumed|] == consumed;
    }
  }

  lemma Outcome(width: nat, height: nat, screen: Screen, consumed: seq<InputEvent>, left: seq<InputEvent>)
    requires COLUMNS * width < 0x8000_0000 && ROWS * height < 0x8000_0000
    ensures var l, m := Listen(Fresh(width, height), screen, consumed),
                        Listen(Fresh(width, height), screen, consumed + left);
            && (l.done ==> m == l)
            && (m.done ==> AllTouched(m.panel.buttons))
  {
    var start := Fresh(width, height);
    var l := Listen(start, screen, consumed);
    ListenConcat(start, screen, consumed, left);
    if l.done {
      DoneStays(l, screen, left);
    }
    assert start.panel.buttons[0].result == 0;
    EndsExactlyWhenAllTouched(start, screen, consumed + left);
  }
}
