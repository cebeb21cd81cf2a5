/** The list of dynamically registered unwind info (dyn-register.c, dyn-cancel.c,
    Gfind_dynamic_proc_info.c). */
module DynInfo {
  import opened Words

  /** `unw_dyn_info_t`. */
  class Node {
    var next: Node?
    var prev: Node?
    const startIp: Word
    const endIp: Word

    constructor (startIp: Word, endIp: Word)
      ensures this.startIp == startIp && this.endIp == endIp
    {
      this.startIp, this.endIp := startIp, endIp;
      next, prev := null, null;
    }
  }

  datatype Op = Register(node: Node) | Cancel(node: Node)

  /** The position of a node that occurs in a list. */
  function IndexOf(nodes: seq<Node>, node: Node): (k: nat)
    requires node in nodes
    ensures k < |nodes| && nodes[k] == node
  {
    if nodes[0] == node then 0 else 1 + IndexOf(nodes[1..], node)
  }

  function Remove(nodes: seq<Node>, node: Node): seq<Node>
    requires node in nodes
  {
    var k := IndexOf(nodes, node);
    nodes[..k] + nodes[k + 1..]
  }

  ghost predicate Distinct(nodes: seq<Node>) {
    forall i, j :: 0 <= i < j < |nodes| ==> nodes[i] != nodes[j]
  }

  // ----- what a history of operations leaves registered -----

  /** Only nodes that are not registered are registered, and only registered ones cancelled. */
  ghost predicate Proper(ops: seq<Op>)
    decreases |ops|, 0
  {
    ops == [] ||
    var last := ops[|ops| - 1];
    Proper(ops[..|ops| - 1]) && (last.Register? <==> last.node !in Registered(ops[..|ops| - 1]))
  }

  /** The registered nodes after a history: the last to register comes first. */
  ghost function Registered(ops: seq<Op>): seq<Node>
    requires Proper(ops)
    decreases |ops|, 1
  {
    if ops == [] then []
    else
      var last := ops[|ops| - 1];
      var before := Registered(ops[..|ops| - 1]);
      if last.Register? then [last.node] + before else Remove(before, last.node)
  }

  /** When a node was last the subject of an operation, counted from 1; 0 if never. */
  function LastTime(ops: seq<Op>, node: Node): (t: nat)
    ensures t <= |ops|
  {
    if ops == [] then 0
    else if ops[|ops| - 1].node == node then |ops|
    else LastTime(ops[..|ops| - 1], node)
  }

  /** The last operation on a node registered it. */
  predicate LastRegistered(ops: seq<Op>, node: Node) {
    LastTime(ops, node) > 0 && ops[LastTime(ops, node) - 1].Register?
  }

  lemma RemoveAt(nodes: seq<Node>, node: Node)
    requires node in nodes && Distinct(nodes)
    ensures |Remove(nodes, node)| == |nodes| - 1 && Distinct(Remove(nodes, node))
    ensures forall i :: 0 <= i < |nodes| - 1 ==>
              Remove(nodes, node)[i] == nodes[if i < IndexOf(nodes, node) then i else i + 1]
    ensures forall n :: n in Remove(nodes, node) <==> n in nodes && n != node
  {
    hide IndexOf;
    var k := IndexOf(nodes, node);
    forall n | n in nodes && n != node
      ensures n in Remove(nodes, node)
    {
      var m :| 0 <= m < |nodes| && nodes[m] == n;
      assert Remove(nodes, node)[if m < k then m else m - 1] == n;
    }
  }

  lemma LastTimeStep(ops: seq<Op>, init: seq<Op>, n: Node)
    requires ops != [] && ops == init + [ops[|ops| - 1]]
    ensures LastTime(ops, n) == if n == ops[|ops| - 1].node then |ops| else LastTime(init, n)
    ensures LastRegistered(ops, n) <==>
            if n == ops[|ops| - 1].node then ops[|ops| - 1].Register? else LastRegistered(init, n)
  {
    assert ops[..|ops| - 1] == init;
  }

  /** No node twice, the newest first. */
  ghost predicate Ordered(ops: seq<Op>, nodes: seq<Node>) {
    && Distinct(nodes)
    && (forall i, j :: 0 <= i < j < |nodes| ==> LastTime(ops, nodes[i]) > LastTime(ops, nodes[j]))
  }

  lemma RegisterStep(ops: seq<Op>, init: seq<Op>, node: Node, nodes: seq<Node>)
    requires ops == init + [Register(node)] && Ordered(init, nodes)
    requires node !in nodes
    ensures Ordered(ops, [node] + nodes)
  {
    forall i | 0 <= i < |nodes|
      ensures LastTime(ops, nodes[i]) == LastTime(init, nodes[i]) <= |init|
    {
      LastTimeStep(ops, init, nodes[i]);
    }
    LastTimeStep(ops, init, node);
    hide LastTime;
  }

  lemma CancelStep(ops: seq<Op>, init: seq<Op>, node: Node, nodes: seq<Node>)
    requires ops == init + [Cancel(node)] && Ordered(init, nodes)
    requires node in nodes
    ensures Ordered(ops, Remove(nodes, node))
  {
    RemoveAt(nodes, node);
    forall i | 0 <= i < |nodes| && nodes[i] != node
      ensures LastTime(ops, nodes[i]) == LastTime(init, nodes[i])
    {
      LastTimeStep(ops, init, nodes[i]);
    }
    hide LastTime, IndexOf, Remove;
  }

  /** The list is what the history says: a node is in it exactly if the last operation on
      it registered it, and the nodes stand in the order of their registrations. */
  lemma {:induction false} NewestFirst(ops: seq<Op>)
    requires Proper(ops)
    ensures Ordered(ops, Registered(ops))
    ensures forall n: Node :: n in Registered(ops) <==> LastRegistered(ops, n)
  {
    hide Remove, Ordered, LastTime, LastRegistered;
    if ops == [] {
      EmptyHistory();
    } else {
      var init, last := ops[..|ops| - 1], ops[|ops| - 1];
      assert ops == init + [last];
      NewestFirst(init);
      if last.Register? {
        RegisterStep(ops, init, last.node, Registered(init));
      } else {
        CancelStep(ops, init, last.node, Registered(init));
        RemoveAt(Registered(init), last.node) by { OrderedDistinct(init, Registered(init)); }
      }
      forall n: Node
        ensures n in Registered(ops) <==> LastRegistered(ops, n)
      {
        LastTimeStep(ops, init, n);
      }
    }
  }

  lemma OrderedDistinct(ops: seq<Op>, nodes: seq<Node>)
    ensures Ordered(ops, nodes) ==> Distinct(nodes)
  {
  }

  lemma EmptyHistory()
    ensures Ordered([], []) && forall n: Node :: !LastRegistered([], n)
  {
  }

  lemma NewerThanRest(ops: seq<Op>, nodes: seq<Node>, i: nat)
    requires Ordered(ops, nodes) && i < |nodes|
    ensures forall m :: i <= m < |nodes| ==> LastTime(ops, nodes[m]) <= LastTime(ops, nodes[i])
  {
    hide LastTime;
  }

  lemma RegisterLast(ops: seq<Op>, di: Node)
    requires Proper(ops) && di !in Registered(ops)
    ensures Proper(ops + [Register(di)]) && Registered(ops + [Register(di)]) == [di] + Registered(ops)
  {
    var now := ops + [Register(di)];
    assert now[..|now| - 1] == ops;
  }

  lemma CancelLast(ops: seq<Op>, di: Node)
    requires Proper(ops) && di in Registered(ops)
    ensures Proper(ops + [Cancel(di)]) && Registered(ops + [Cancel(di)]) == Remove(Registered(ops), di)
  {
    hide Remove;
    var now := ops + [Cancel(di)];
    assert now[..|now| - 1] == ops;
  }

  lemma Counted(n: nat)
    ensures (n % TWO_32 + 1) % TWO_32 == (n + 1) % TWO_32
  {
  }

  // ----- the list -----

  /** The links spell the nodes, forwards and backwards. */
  ghost predicate Linked(first: Node?, nodes: seq<Node>)
    reads nodes
  {
    Distinct(nodes) && Forward(first, nodes) && Backward(nodes)
  }

  ghost predicate Forward(first: Node?, nodes: seq<Node>)
    reads nodes`next
  {
    first == At(nodes, 0) && forall i :: 0 <= i < |nodes| ==> nodes[i].next == At(nodes, i + 1)
  }

  ghost predicate Backward(nodes: seq<Node>)
    reads nodes`prev
  {
    forall i :: 0 <= i < |nodes| ==> nodes[i].prev == At(nodes, i - 1)
  }

  ghost function At(nodes: seq<Node>, i: int): Node? {
    if 0 <= i < |nodes| then nodes[i] else null
  }

  /** `unw_dyn_info_list_t`. */
  class InfoList {
    var first: Node?
    var generation: nat
    ghost var ops: seq<Op>

    constructor ()
      ensures Valid() && ops == []
    {
      first, generation, ops := null, 0, [];
    }

    ghost predicate Valid()
      reads this, if Proper(ops) then Registered(ops) else []
    {
      Proper(ops) && Linked(first, Registered(ops)) && generation == |ops| % TWO_32
    }

    /** `_U_dyn_register`. */
    method Register(di: Node)
      requires Valid() && di !in Registered(ops)
      modifies this, di, Registered(ops)
      ensures ops == old(ops) + [Op.Register(di)] && Valid()
      ensures Registered(ops) == [di] + old(Registered(ops))
    {
      hide Linked, Proper, Registered;
      RegisterLast(ops, di);
      Counted(|ops|);
      generation := (generation + 1) % TWO_32;
      PushFront(Registered(ops), di);
      ops := ops + [Op.Register(di)];
    }

    /** The node becomes the first. */
    method PushFront(ghost nodes: seq<Node>, di: Node)
      requires Linked(first, nodes) && di !in nodes
      modifies this`first, di, nodes
      ensures Linked(first, [di] + nodes)
    {
      di.next := first;
      di.prev := null;
      if di.next != null {
        di.next.prev := di;
      }
      first := di;
    }

    /** `_U_dyn_cancel`. */
    method Cancel(di: Node)
      requires Valid() && di in Registered(ops)
      modifies this, Registered(ops)
      ensures ops == old(ops) + [Op.Cancel(di)] && Valid()
      ensures di.next == null && di.prev == null
      ensures Registered(ops) == Remove(old(Registered(ops)), di)
    {
      hide Linked, Remove, Proper, Registered;
      CancelLast(ops, di);
      Counted(|ops|);
      generation := (generation + 1) % TWO_32;
      Unlink(Registered(ops), di);
      ops := ops + [Op.Cancel(di)];
    }

    /** The links around a node are closed, and its own cleared. */
    method Unlink(ghost nodes: seq<Node>, di: Node)
      requires Linked(first, nodes) && di in nodes
      modifies this`first, nodes
      ensures Linked(first, Remove(nodes, di))
      ensures di.next == null && di.prev == null
    {
      ghost var now := Remove(nodes, di);
      RemoveAt(nodes, di);
      assert Distinct(nodes) && di in nodes && di !in now;
      hide IndexOf, Remove, Forward, Backward, Distinct, At;
      CloseForward(nodes, di);
      CloseBackward(nodes, di);
      Forget(now, di);
    }

    method Forget(ghost nodes: seq<Node>, di: Node)
      requires Linked(first, nodes) && di !in nodes
      modifies di
      ensures Linked(first, nodes) && di.next == null && di.prev == null
    {
      di.next, di.prev := null, null;
    }

    method CloseForward(ghost nodes: seq<Node>, di: Node)
      requires Linked(first, nodes) && di in nodes
      modifies this`first, nodes`next
      ensures Forward(first, Remove(nodes, di)) && Backward(nodes)
      ensures di.next == At(nodes, IndexOf(nodes, di) + 1)
    {
      RemoveAt(nodes, di);
      hide IndexOf, Remove;
      ghost var k := IndexOf(nodes, di);
      if di.prev != null {
        di.prev.next := di.next;
      } else {
        first := di.next;
      }
      assert forall j :: 0 <= j < |nodes| && j + 1 != k ==> nodes[j].next == At(nodes, j + 1);
    }

    method CloseBackward(ghost nodes: seq<Node>, di: Node)
      requires Backward(nodes) && Distinct(nodes) && di in nodes
      requires di.next == At(nodes, IndexOf(nodes, di) + 1)
      modifies nodes`prev
      ensures Backward(Remove(nodes, di))
    {
      RemoveAt(nodes, di);
      hide IndexOf, Remove;
      ghost var k := IndexOf(nodes, di);
      if di.next != null {
        di.next.prev := di.prev;
      }
      assert forall j :: 0 <= j < |nodes| && j - 1 != k ==> nodes[j].prev == At(nodes, j - 1);
    }

    /** `local_find_proc_info`, up to the extraction: the registered node last registered
        among those whose range has the address. */
    method Find(ip: Word) returns (r: Result<Node>)
      requires Valid()
      ensures r.Err? ==> r.error == NoInfo && forall n :: n in Registered(ops) ==> !(n.startIp <= ip < n.endIp)
      ensures r.Ok? ==> r.value in Registered(ops) && r.value.startIp <= ip < r.value.endIp
      ensures r.Ok? ==> forall n :: n in Registered(ops) && n.startIp <= ip < n.endIp ==>
                          LastTime(ops, n) <= LastTime(ops, r.value)
    {
      NewestFirst(ops);
      hide Ordered, LastTime, LastRegistered, Proper, Registered;
      ghost var nodes := Registered(ops);
      ghost var i := 0;
      var di := first;
      while di != null
        invariant 0 <= i <= |nodes| && di == At(nodes, i)
        invariant forall j :: 0 <= j < i ==> !(nodes[j].startIp <= ip < nodes[j].endIp)
        decreases |nodes| - i
      {
        if ip >= di.startIp && ip < di.endIp {
          NewerThanRest(ops, nodes, i);
          return Ok(di);
        }
        di := di.next;
        i := i + 1;
      }
      r := Err(NoInfo);
    }
  }
}
