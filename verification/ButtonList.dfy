/** The linked list of buttons (list.c), over heap nodes. */
module ButtonList {
  import opened Bytes

  datatype TouchState = RESET_TOUCH | KEEP_TOUCH | END_TOUCH

  datatype Mode = ECS_LISTEN | NORMAL

  /** The fields of a button that the touch engine looks at. */
  datatype ButtonView = ButtonView(id: int, x: Word32, y: Word32, width: int, height: int, fastTouch: bool,
                                   mode: Mode, state: TouchState, result: int)

  class Button {
    const id: int
    const x: Word32
    const y: Word32
    const width: int
    const height: int
    var fastTouch: bool
    var mode: Mode
    var state: TouchState
    var result: int

    constructor (id: int, x: Word32, y: Word32, width: int, height: int)
      ensures View() == ButtonView(id, x, y, width, height, false, NORMAL, RESET_TOUCH, 0)
    {
      this.id, this.x, this.y, this.width, this.height := id, x, y, width, height;
      fastTouch, mode, state, result := false, NORMAL, RESET_TOUCH, 0;
    }

    function View(): ButtonView
      reads this
    {
      ButtonView(id, x, y, width, height, fastTouch, mode, state, result)
    }
  }

  class Node {
    const button: Button
    var next: Node?

    constructor (button: Button, next: Node?)
      ensures this.button == button && this.next == next
    {
      this.button, this.next := button, next;
    }
  }

  /** A list head; nodes are the nodes it reaches, in order, and buttons their buttons. */
  class List {
    var head: Node?
    ghost var nodes: seq<Node>
    ghost var buttons: seq<Button>

    /** Node i holds button i and links to node i + 1. */
    ghost predicate LinkAt(i: nat)
      requires i < |nodes| == |buttons|
      reads this, nodes
    {
      && nodes[i].button == buttons[i]
      && nodes[i].next == NodeAt(i + 1)
    }

    ghost function NodeAt(i: nat): Node?
      reads this
    {
      if i < |nodes| then nodes[i] else null
    }

    ghost predicate Valid()
      reads this, nodes
    {
      && |buttons| == |nodes|
      && head == NodeAt(0)
      && (forall i | 0 <= i < |nodes| :: LinkAt(i))
      && (forall i, j | 0 <= i < j < |nodes| :: nodes[i] != nodes[j])
    }

    constructor ()
      ensures Valid() && buttons == [] && nodes == []
    {
      head, nodes, buttons := null, [], [];
    }

    /** add_button: walk to the end and link a new node there. */
    method Add(button: Button)
      requires Valid()
      modifies this, nodes
      ensures Valid()
      ensures buttons == old(buttons) + [button]
      ensures exists n :: fresh(n) && nodes == old(nodes) + [n]
    {
      var pnew := new Node(button, null);
      var scan := head;
      if scan == null {
        head := pnew;
      } else {
        ghost var i := 0;
        while scan.next != null
          invariant 0 <= i < |nodes| && scan == nodes[i]
          invariant Valid() && pnew.next == null && pnew !in nodes
          decreases |nodes| - i
        {
          assert LinkAt(i);
          scan := scan.next;
          i := i + 1;
        }
        assert LinkAt(i) && i == |nodes| - 1;
        scan.next := pnew;
      }
      ghost var was := |nodes|;
      nodes := nodes + [pnew];
      buttons := buttons + [button];
      forall i | 0 <= i < |nodes|
        ensures LinkAt(i)
      {
        assert i < was ==> old(LinkAt(i));
      }
    }

    /** insert_button: the head counts as a sentinel, so positions run from 1 to the
        length; any other position changes nothing, and the result is 0 either way. */
    method Insert(pos: int, button: Button) returns (r: int)
      requires Valid()
      modifies this, nodes
      ensures Valid() && r == 0
      ensures buttons == if 1 <= pos <= |old(buttons)|
                         then old(buttons)[..pos] + [button] + old(buttons)[pos..] else old(buttons)
      ensures if 1 <= pos <= |old(buttons)|
              then exists n :: fresh(n) && nodes == old(nodes)[..pos] + [n] + old(nodes)[pos..]
              else nodes == old(nodes)
    {
      r := 0;
      var i := 0;
      var p := head;
      while p != null && i < pos - 1
        invariant 0 <= i <= |nodes| && p == NodeAt(i)
        invariant i == 0 || i <= pos - 1
        decreases |nodes| - i
      {
        assert LinkAt(i);
        p := p.next;
        i := i + 1;
      }
      if i > pos - 1 || p == null {
        return;
      }
      assert LinkAt(i);
      var pNew := new Node(button, p.next);
      p.next := pNew;
      nodes := nodes[..pos] + [pNew] + nodes[pos..];
      buttons := buttons[..pos] + [button] + buttons[pos..];
      forall k | 0 <= k < |nodes|
        ensures LinkAt(k)
      {
        if k < pos {
          assert old(LinkAt(k));
        } else if k > pos {
          assert old(LinkAt(k - 1));
        }
      }
    }

    /** delete_list: likewise, the head node itself is never removed. */
    method Delete(pos: int) returns (r: int)
      requires Valid() && head != null
      modifies this, nodes
      ensures Valid()
      ensures r == if 1 <= pos < |old(buttons)| then 0 else -1
      ensures buttons == if 1 <= pos < |old(buttons)|
                         then old(buttons)[..pos] + old(buttons)[pos + 1..] else old(buttons)
      ensures nodes == if 1 <= pos < |old(buttons)|
                       then old(nodes)[..pos] + old(nodes)[pos + 1..] else old(nodes)
    {
      var i := 0;
      var p := head;
      while p.next != null && i < pos - 1
        invariant 0 <= i < |nodes| && p == nodes[i]
        invariant i == 0 || i <= pos - 1
        decreases |nodes| - i
      {
        assert LinkAt(i);
        p := p.next;
        i := i + 1;
      }
      assert LinkAt(i);
      if i > pos - 1 || p.next == null {
        return -1;
      }
      assert LinkAt(i + 1);
      p.next := p.next.next;
      nodes := nodes[..pos] + nodes[pos + 1..];
      buttons := buttons[..pos] + buttons[pos + 1..];
      forall k | 0 <= k < |nodes|
        ensures LinkAt(k)
      {
        if k < pos {
          assert old(LinkAt(k));
        } else {
          assert old(LinkAt(k + 1));
        }
      }
      r := 0;
    }

    /** length_list does not count the head node. */
    method Length() returns (len: nat)
      requires Valid() && head != null
      ensures len == |buttons| - 1
    {
      len := 0;
      assert LinkAt(0);
      var p := head.next;
      while p != null
        invariant 0 <= len < |nodes| && p == NodeAt(len + 1)
        decreases |nodes| - len
      {
        len := len + 1;
        assert LinkAt(len);
        p := p.next;
      }
    }
  }

  /** Deleting where one inserted restores the list, nodes included, at every position:
      where nothing is inserted nothing is deleted. */
  method InsertThenDelete(list: List, pos: int, button: Button) returns (inserted: int, deleted: int)
    requires list.Valid() && list.head != null
    modifies list, list.nodes
    ensures list.Valid() && list.buttons == old(list.buttons) && list.nodes == old(list.nodes)
    ensures inserted == 0 && deleted == if 1 <= pos <= |list.buttons| then 0 else -1
  {
    inserted := list.Insert(pos, button);
    deleted := list.Delete(pos);
  }
}
