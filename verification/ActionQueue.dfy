/** The queue of pending actions (src/actionqueues.c): a linked list on the heap with a pointer to its last element
    and a size.  It refines a sequence that grows at the back and shrinks at the front. */
module ActionQueue {
  import opened Wrappers

  // ----- The queue as a sequence -----

  /** What the queue elements point to: an action in one kind of queue, an attack in the other. */
  datatype Data =
    | Action(argument: string, actionsRequired: int)
    | Attack(command: int, attackType: int, argument: string)

  datatype Op = Enqueue(data: Data) | Dequeue | Clear

  /** What the queue holds after an operation. */
  function Step(held: seq<Data>, op: Op): seq<Data> {
    match op
    case Enqueue(x) => held + [x]
    case Dequeue => if held == [] then [] else held[1..]
    case Clear => []
  }

  /** What leaves the queue in an operation. */
  function Leaving(held: seq<Data>, op: Op): seq<Data> {
    match op
    case Enqueue(_) => []
    case Dequeue => if held == [] then [] else [held[0]]
    case Clear => held
  }

  /** What a new queue holds after a run. */
  function Held(ops: seq<Op>): seq<Data> {
    if ops == [] then [] else Step(Held(ops[..|ops| - 1]), ops[|ops| - 1])
  }

  /** All that has left a queue, in the order in which it left. */
  function Left(ops: seq<Op>): seq<Data> {
    if ops == [] then []
    else Left(ops[..|ops| - 1]) + Leaving(Held(ops[..|ops| - 1]), ops[|ops| - 1])
  }

  /** All that was enqueued, in the order of its arrival. */
  function Arrived(ops: seq<Op>): seq<Data> {
    if ops == [] then []
    else Arrived(ops[..|ops| - 1]) + if ops[|ops| - 1].Enqueue? then [ops[|ops| - 1].data] else []
  }

  /** Over any run, what left and then what is held is what arrived: nothing is lost, doubled or overtaken. */
  lemma {:induction false} FirstInFirstOut(ops: seq<Op>)
    ensures Left(ops) + Held(ops) == Arrived(ops)
  {
    if ops != [] {
      var before, op := ops[..|ops| - 1], ops[|ops| - 1];
      FirstInFirstOut(before);
      assert Leaving(Held(before), op) + Step(Held(before), op)
          == Held(before) + if op.Enqueue? then [op.data] else [];
    }
  }

  /** The k-th item to leave is the k-th that arrived. */
  lemma LeavesInOrder(ops: seq<Op>, k: nat)
    requires k < |Left(ops)|
    ensures k < |Arrived(ops)| && Left(ops)[k] == Arrived(ops)[k]
  {
    FirstInFirstOut(ops);
    assert (Left(ops) + Held(ops))[k] == Left(ops)[k];
  }

  // ----- The queue on the heap -----

  class Element {
    const data: Data
    var next: Element?

    constructor (data: Data)
      ensures this.data == data && next == null
    {
      this.data := data;
      next := null;
    }
  }

  /** The element at a place of the chain, null outside of it. */
  ghost function At(chain: seq<Element>, i: int): Element? {
    if 0 <= i < |chain| then chain[i] else null
  }

  class Queue {
    var first: Element?
    var last: Element?
    var size: int
    ghost var chain: seq<Element>

    /** The elements are linked in the order of the chain, no element twice, the last one points nowhere. */
    ghost predicate Valid()
      reads this, chain
    {
      && size == |chain|
      && (forall i, j :: 0 <= i < j < |chain| ==> chain[i] != chain[j])
      && (forall i {:trigger chain[i].next} :: 0 <= i < |chain| ==> chain[i].next == At(chain, i + 1))
      && first == At(chain, 0)
      && last == At(chain, |chain| - 1)
    }

    ghost function Contents(): (s: seq<Data>)
      reads this
      ensures |s| == |chain|
    {
      seq(|chain|, i requires 0 <= i < |chain| reads this => chain[i].data)
    }

    constructor ()
      ensures Valid() && Contents() == [] && chain == []
    {
      first, last, size, chain := null, null, 0, [];
    }
  }

  /** Adds to the back. */
  method Enqueue(queue: Queue, data: Data)
    requires queue.Valid()
    modifies queue, queue.chain
    ensures queue.Valid() && queue.Contents() == Step(old(queue.Contents()), Op.Enqueue(data))
    ensures forall e :: e in queue.chain ==> e in old(queue.chain) || fresh(e)
    ensures queue.size == old(queue.size) + 1 && queue.last != null && queue.last.data == data
  {
    var el := new Element(data);
    if queue.first == null {
      queue.first := el;
    } else {
      queue.last.next := el;
    }
    queue.last := el;
    queue.size := queue.size + 1;
    queue.chain := queue.chain + [el];
  }

  /** Takes from the front; a missing queue and an empty one give nothing. */
  method Dequeue(queue: Queue?) returns (r: Option<Data>)
    requires queue != null ==> queue.Valid()
    modifies queue
    ensures queue == null ==> r == None
    ensures queue != null ==> queue.Valid() && queue.Contents() == Step(old(queue.Contents()), Op.Dequeue)
    ensures queue != null ==> r == if old(queue.Contents()) == [] then None else Some(old(queue.Contents())[0])
    ensures queue != null ==> (queue.last == null <==> queue.Contents() == [])
    ensures queue != null ==> forall e :: e in queue.chain ==> e in old(queue.chain)
  {
    if queue == null || queue.first == null {
      return None;
    }
    var el := queue.first;
    ghost var was := queue.chain;
    assert el == was[0] && el.next == At(was, 1);
    queue.first := el.next;
    if queue.first == null {
      queue.last := null;
    }
    queue.size := queue.size - 1;
    queue.chain := was[1..];
    forall i | 0 <= i < |was| - 1
      ensures queue.chain[i].next == At(queue.chain, i + 1)
    {
      assert was[i + 1].next == At(was, i + 2);
    }
    return Some(el.data);
  }

  method Peek(queue: Queue?) returns (r: Option<Data>)
    requires queue != null ==> queue.Valid()
    ensures r == if queue == null || queue.Contents() == [] then None else Some(queue.Contents()[0])
  {
    if queue == null {
      return None;
    } else if queue.first == null {
      return None;
    }
    return Some(queue.first.data);
  }

  lemma MoveOver(freed: seq<Data>, held: seq<Data>)
    requires held != []
    ensures (freed + [held[0]]) + held[1..] == freed + held
  {
  }

  /** Empties the queue by taking from it while its size is not zero; each round finds an item to free. */
  method ClearQueue(queue: Queue?) returns (freed: seq<Data>)
    requires queue != null ==> queue.Valid()
    modifies queue
    ensures queue == null ==> freed == []
    ensures queue != null ==> queue.Valid() && queue.Contents() == Step(old(queue.Contents()), Op.Clear)
    ensures queue != null ==> freed == Leaving(old(queue.Contents()), Op.Clear)
    ensures queue != null ==> queue.first == null && queue.last == null && queue.size == 0
  {
    freed := [];
    if queue == null {
      return;
    }
    ghost var was := queue.Contents();
    assert freed + was == was;
    while queue.size > 0
      invariant queue.Valid() && freed + queue.Contents() == was
      decreases queue.size
    {
      ghost var held := queue.Contents();
      var action := Dequeue(queue);
      MoveOver(freed, held);
      freed := freed + [action.value];
    }
    assert freed + queue.Contents() == freed;
  }

  /** Runs the first action if the character has the actions it needs; until then nothing behind it runs. */
  method ExecuteNextAction(queue: Queue, available: int -> bool) returns (command: Option<string>)
    requires queue.Valid() && forall d :: d in queue.Contents() ==> d.Action?
    modifies queue
    ensures queue.Valid()
    ensures command.Some? <==> old(queue.Contents()) != [] && available(old(queue.Contents())[0].actionsRequired)
    ensures command.Some? ==> command.value == old(queue.Contents())[0].argument
    ensures queue.Contents() == if command.Some? then old(queue.Contents())[1..] else old(queue.Contents())
  {
    var action := Peek(queue);
    if action.None? || !available(action.value.actionsRequired) {
      return None;
    }
    action := Dequeue(queue);
    return Some(action.value.argument);
  }
}
