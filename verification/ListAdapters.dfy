/**
  The adapters that util/list.c puts on the list (set_adapter): stack, queue and
  priority list, and what any run of pushes and pops on them guarantees.
 */
module ListAdapters {
  import opened Machine
  import opened LinkedList

  datatype Adapter = PriorityList | Queue | Stack

  /** struct list_desc: a list behind the functions chosen by its adapter type. */
  class ListDesc<T(!new)> {
    const list: List<T>
    const adapter: Adapter

    constructor (adapter: Adapter, comparator: (T, T) -> int)
      ensures this.adapter == adapter && fresh(list) && list.Valid() && list.content == []
      ensures list.comparator == comparator
    {
      this.adapter := adapter;
      list := new List(comparator);
    }

    method Push(data: T)
      requires list.Valid()
      modifies list, list.spine
      ensures list.Valid() && forall n :: n in list.spine ==> n in old(list.spine) || fresh(n)
      ensures list.content == PushSpec(adapter, list.comparator, old(list.content), data)
    {
      match adapter {
        case PriorityList => list.AddFind(data);
        case Queue => list.AddLast(data);
        case Stack => list.AddLast(data);
      }
    }

    method Pop() returns (r: Option<T>)
      requires list.Valid()
      modifies list, list.spine
      ensures list.Valid() && forall n :: n in list.spine ==> n in old(list.spine)
      ensures (r, list.content) == PopSpec(adapter, old(list.content))
    {
      match adapter {
        case PriorityList => r := list.GetFirst();
        case Queue => r := list.GetFirst();
        case Stack => r := list.GetLast();
      }
    }

    method TopNext() returns (r: Option<T>)
      requires list.Valid()
      ensures r == PopSpec(adapter, list.content).0
    {
      match adapter {
        case PriorityList => r := list.ReadFirst();
        case Queue => r := list.ReadFirst();
        case Stack => r := list.ReadLast();
      }
    }

    method Back() returns (r: Option<T>)
      requires list.Valid()
      ensures r == BackSpec(adapter, list.content)
    {
      if list.content != [] {
        BackSpecEnd(adapter, list.content);
      }
      match adapter {
        case PriorityList => r := list.ReadLast();
        case Queue => r := list.ReadLast();
        case Stack => r := list.ReadFirst();
      }
    }

    method Swap(newData: T)
      requires list.Valid() && list.content != []
      modifies list`content, list.spine
      ensures list.Valid() && PopSpec(adapter, list.content) == (Some(newData), PopSpec(adapter, old(list.content)).1)
    {
      match adapter {
        case PriorityList => list.EditFirst(newData);
        case Queue => list.EditFirst(newData);
        case Stack => list.EditLast(newData);
      }
    }
  }

  ghost function PushSpec<T>(a: Adapter, cmp: (T, T) -> int, s: seq<T>, x: T): seq<T> {
    if a == PriorityList then Inserted(s, UpperIndex(cmp, s, x), x) else s + [x]
  }

  ghost function PopSpec<T>(a: Adapter, s: seq<T>): (Option<T>, seq<T>) {
    if s == [] then (None, [])
    else if a == Stack then (Some(s[|s| - 1]), s[..|s| - 1])
    else (Some(s[0]), s[1..])
  }

  /** The element that pops last if nothing more is pushed. */
  ghost function BackSpec<T>(a: Adapter, s: seq<T>): Option<T>
    decreases |s|
  {
    if |s| <= 1 then PopSpec(a, s).0 else BackSpec(a, PopSpec(a, s).1)
  }

  lemma {:induction false} BackSpecEnd<T>(a: Adapter, s: seq<T>)
    requires s != []
    ensures BackSpec(a, s) == Some(if a == Stack then s[0] else s[|s| - 1])
    decreases |s|
  {
    if |s| > 1 {
      BackSpecEnd(a, PopSpec(a, s).1);
    }
  }

  // ----- Runs -----

  datatype Op<T> = Push(x: T) | Pop

  /** An element together with the moment of its insertion. */
  datatype Entry<T> = Entry(key: T, stamp: nat)

  /** The list, everything pushed so far and everything popped so far, each in order. */
  datatype Run<T> = Run(list: seq<Entry<T>>, pushed: seq<Entry<T>>, popped: seq<Entry<T>>)

  function ByKey<T>(cmp: (T, T) -> int): (Entry<T>, Entry<T>) -> int {
    (a: Entry<T>, b: Entry<T>) => cmp(a.key, b.key)
  }

  ghost function Step<T>(a: Adapter, cmp: (T, T) -> int, y: Run<T>, op: Op<T>): Run<T> {
    match op
    case Push(x) =>
      var e := Entry(x, |y.pushed|);
      Run(PushSpec(a, ByKey(cmp), y.list, e), y.pushed + [e], y.popped)
    case Pop =>
      var (r, rest) := PopSpec(a, y.list);
      Run(rest, y.pushed, y.popped + if r.Some? then [r.value] else [])
  }

  ghost function After<T>(a: Adapter, cmp: (T, T) -> int, ops: seq<Op<T>>): Run<T> {
    if ops == [] then Run([], [], [])
    else Step(a, cmp, After(a, cmp, ops[..|ops| - 1]), ops[|ops| - 1])
  }

  // ----- The stamps are labels only -----

  ghost function Keys<T>(s: seq<Entry<T>>): (k: seq<T>)
    ensures |k| == |s| && forall i :: 0 <= i < |s| ==> k[i] == s[i].key
  {
    seq(|s|, i requires 0 <= i < |s| => s[i].key)
  }

  /** The contents of the list itself, without stamps. */
  ghost function ContentAfter<T>(a: Adapter, cmp: (T, T) -> int, ops: seq<Op<T>>): seq<T> {
    if ops == [] then []
    else
      var s := ContentAfter(a, cmp, ops[..|ops| - 1]);
      match ops[|ops| - 1]
      case Push(x) => PushSpec(a, cmp, s, x)
      case Pop => PopSpec(a, s).1
  }

  lemma {:induction false} UpperIndexByKey<T>(cmp: (T, T) -> int, s: seq<Entry<T>>, e: Entry<T>)
    ensures UpperIndex(ByKey(cmp), s, e) == UpperIndex(cmp, Keys(s), e.key)
  {
  }

  /** The list of a run is the list of the stamped run with the stamps removed. */
  lemma {:induction false} StampsAreLabels<T>(a: Adapter, cmp: (T, T) -> int, ops: seq<Op<T>>)
    ensures ContentAfter(a, cmp, ops) == Keys(After(a, cmp, ops).list)
    decreases |ops|
  {
    hide PushSpec, PopSpec, Keys;
    if ops == [] {
      PopKeys<T>(a, []);
    } else {
      var n := |ops| - 1;
      StampsAreLabels(a, cmp, ops[..n]);
      var y := After(a, cmp, ops[..n]);
      match ops[n]
      case Push(x) => PushKeys(a, cmp, y.list, Entry(x, |y.pushed|));
      case Pop => PopKeys(a, y.list);
    }
  }

  lemma PushKeys<T>(a: Adapter, cmp: (T, T) -> int, s: seq<Entry<T>>, e: Entry<T>)
    ensures Keys(PushSpec(a, ByKey(cmp), s, e)) == PushSpec(a, cmp, Keys(s), e.key)
  {
    hide UpperIndex;
    UpperIndexByKey(cmp, s, e);
  }

  lemma PopKeys<T>(a: Adapter, s: seq<Entry<T>>)
    ensures Keys(PopSpec(a, s).1) == PopSpec(a, Keys(s)).1 && Keys<T>([]) == []
  {
  }

  /** A queue delivers what was pushed, in the order it was pushed. */
  lemma {:induction false} QueueInOrder<T>(cmp: (T, T) -> int, ops: seq<Op<T>>)
    ensures var y := After(Queue, cmp, ops); y.popped + y.list == y.pushed
    decreases |ops|
  {
    if ops != [] {
      var n := |ops| - 1;
      QueueInOrder(cmp, ops[..n]);
      var y := After(Queue, cmp, ops[..n]);
      match ops[n]
      case Push(x) =>
        assert y.popped + (y.list + [Entry(x, |y.pushed|)]) == y.pushed + [Entry(x, |y.pushed|)];
      case Pop =>
        if y.list != [] {
          assert y.popped + [y.list[0]] + y.list[1..] == y.popped + y.list;
        }
    }
  }

  // ----- Stacks -----

  /** The contents of a stack that starts with s. */
  ghost function StackAfter<T>(s: seq<T>, ops: seq<Op<T>>): seq<T>
    decreases |ops|
  {
    if ops == [] then s
    else StackAfter(if ops[0].Push? then s + [ops[0].x] else PopSpec(Stack, s).1, ops[1..])
  }

  /** No pop finds the stack empty. */
  ghost predicate NeverEmpty<T>(s: seq<T>, ops: seq<Op<T>>)
    decreases |ops|
  {
    ops == [] ||
    ((ops[0].Pop? ==> s != []) && NeverEmpty(if ops[0].Push? then s + [ops[0].x] else PopSpec(Stack, s).1, ops[1..]))
  }

  /** What lies below the elements a run works on is not touched. */
  lemma {:induction false} StackFrame<T>(base: seq<T>, s: seq<T>, ops: seq<Op<T>>)
    requires NeverEmpty(s, ops)
    ensures StackAfter(base + s, ops) == base + StackAfter(s, ops)
    decreases |ops|
  {
    if ops != [] {
      var s' := if ops[0].Push? then s + [ops[0].x] else PopSpec(Stack, s).1;
      StackFrame(base, s', ops[1..]);
      if ops[0].Push? {
        assert base + s + [ops[0].x] == base + s';
      } else {
        assert PopSpec(Stack, base + s).1 == base + s';
      }
    }
  }

  /**
    Last in, first out: after a push and any run that takes back whatever it puts on, the next pop
    returns the pushed element and leaves the stack as it was.
   */
  lemma LastInFirstOut<T>(cmp: (T, T) -> int, base: seq<T>, x: T, ops: seq<Op<T>>)
    requires NeverEmpty([], ops) && StackAfter([], ops) == []
    ensures PopSpec(Stack, StackAfter(PushSpec(Stack, cmp, base, x), ops)) == (Some(x), base)
  {
    var s := base + [x];
    assert s + [] == s;
    StackFrame(s, [], ops);
  }

  /** This run is the one of the list itself. */
  lemma {:induction false} StackContent<T>(cmp: (T, T) -> int, ops: seq<Op<T>>)
    ensures ContentAfter(Stack, cmp, ops) == StackAfter([], ops)
  {
    assert [] + ops == ops;
    StackSnoc(cmp, [], ops);
  }

  lemma {:induction false} StackSnoc<T>(cmp: (T, T) -> int, done: seq<Op<T>>, ops: seq<Op<T>>)
    ensures ContentAfter(Stack, cmp, done + ops) == StackAfter(ContentAfter(Stack, cmp, done), ops)
    decreases |ops|
  {
    if ops == [] {
      assert done + ops == done;
    } else {
      var next := done + [ops[0]];
      assert next[..|next| - 1] == done;
      StackSnoc(cmp, next, ops[1..]);
      assert done + ops == next + ops[1..];
    }
  }

  // ----- Priority lists -----

  /** The comparator orders the data: total, transitive, and consistent in both directions. */
  ghost predicate TotalPreorder<T(!new)>(cmp: (T, T) -> int) {
    && (forall a, b :: cmp(a, b) > 0 <==> cmp(b, a) < 0)
    && (forall a, b, c :: cmp(a, b) <= 0 && cmp(b, c) <= 0 ==> cmp(a, c) <= 0)
  }

  /** Smaller, or equal and inserted earlier. */
  ghost predicate Before<T>(cmp: (T, T) -> int, a: Entry<T>, b: Entry<T>) {
    cmp(a.key, b.key) < 0 || (cmp(a.key, b.key) == 0 && a.stamp < b.stamp)
  }

  ghost predicate Ordered<T>(cmp: (T, T) -> int, s: seq<Entry<T>>) {
    forall i, j :: 0 <= i < j < |s| ==> Before(cmp, s[i], s[j])
  }

  ghost predicate OlderThan<T>(s: seq<Entry<T>>, stamp: nat) {
    forall i :: 0 <= i < |s| ==> s[i].stamp < stamp
  }

  lemma PushOrdered<T(!new)>(cmp: (T, T) -> int, s: seq<Entry<T>>, x: T, stamp: nat)
    requires TotalPreorder(cmp) && Ordered(cmp, s) && OlderThan(s, stamp)
    ensures var t := PushSpec(PriorityList, ByKey(cmp), s, Entry(x, stamp));
            Ordered(cmp, t) && OlderThan(t, stamp + 1)
  {
    hide UpperIndex, Inserted, TotalPreorder;
    var e := Entry(x, stamp);
    var k := UpperIndex(ByKey(cmp), s, e);
    var t := Inserted(s, k, e);
    InsertedLength(s, k, e);
    assert forall i :: 0 <= i < k ==> ByKey(cmp)(s[i], e) == cmp(s[i].key, x) <= 0;
    assert k < |s| ==> ByKey(cmp)(s[k], e) == cmp(s[k].key, x) > 0;
    forall i | 0 <= i < |t|
      ensures t[i].stamp < stamp + 1
    {
      InsertedAt(s, k, e, i);
    }
    forall i, j | 0 <= i < j < |t|
      ensures Before(cmp, t[i], t[j])
    {
      InsertedAt(s, k, e, i);
      InsertedAt(s, k, e, j);
      if i == k {
        GreaterTail(cmp, s, k, x, j - 1);
      }
    }
  }

  /** From the insertion point on, every element is greater. */
  lemma GreaterTail<T(!new)>(cmp: (T, T) -> int, s: seq<Entry<T>>, k: nat, x: T, j: nat)
    requires TotalPreorder(cmp) && Ordered(cmp, s) && k <= j < |s| && cmp(s[k].key, x) > 0
    ensures cmp(x, s[j].key) < 0
  {
  }

  lemma InsertedMultiset<T>(s: seq<T>, k: nat, x: T)
    requires k <= |s|
    ensures multiset(Inserted(s, k, x)) == multiset(s) + multiset{x}
  {
    assert s == s[..k] + s[k..];
  }

  ghost predicate PriorityInv<T>(cmp: (T, T) -> int, y: Run<T>) {
    && Ordered(cmp, y.list) && OlderThan(y.list, |y.pushed|)
    && multiset(y.pushed) == multiset(y.list) + multiset(y.popped)
  }

  lemma PriorityStep<T(!new)>(cmp: (T, T) -> int, y: Run<T>, op: Op<T>)
    requires TotalPreorder(cmp) && PriorityInv(cmp, y)
    ensures PriorityInv(cmp, Step(PriorityList, cmp, y, op))
  {
    hide TotalPreorder, Ordered, OlderThan, PushSpec, PopSpec;
    match op
    case Push(x) =>
      PushOrdered(cmp, y.list, x, |y.pushed|);
      PushMultiset(cmp, y.list, Entry(x, |y.pushed|));
    case Pop => PopOrdered(cmp, y.list, |y.pushed|);
  }

  lemma PushMultiset<T>(cmp: (T, T) -> int, s: seq<Entry<T>>, e: Entry<T>)
    ensures multiset(PushSpec(PriorityList, ByKey(cmp), s, e)) == multiset(s) + multiset{e}
  {
    hide UpperIndex, Inserted;
    InsertedMultiset(s, UpperIndex(ByKey(cmp), s, e), e);
  }

  lemma PopOrdered<T>(cmp: (T, T) -> int, s: seq<Entry<T>>, stamp: nat)
    requires Ordered(cmp, s) && OlderThan(s, stamp)
    ensures var (r, rest) := PopSpec(PriorityList, s);
            && Ordered(cmp, rest) && OlderThan(rest, stamp)
            && multiset(s) == multiset(rest) + (if r.Some? then multiset{r.value} else multiset{})
  {
    hide Before;
    if s != [] {
      assert s == [s[0]] + s[1..];
    }
  }

  /**
    In every run of pushes and pops on a priority list: the list stays sorted, nothing is
    lost or invented, and its head, which the next pop returns, comes before every other
    element - smaller, or equal and pushed earlier.
   */
  lemma {:induction false} PriorityRun<T(!new)>(cmp: (T, T) -> int, ops: seq<Op<T>>)
    requires TotalPreorder(cmp)
    ensures var y := After(PriorityList, cmp, ops);
            && Ordered(cmp, y.list)
            && multiset(y.pushed) == multiset(y.list) + multiset(y.popped)
            && (y.list != [] ==>
                 && PopSpec(PriorityList, y.list).0 == Some(y.list[0])
                 && forall i :: 0 < i < |y.list| ==> Before(cmp, y.list[0], y.list[i]))
  {
    PriorityRunInv(cmp, ops);
  }

  lemma {:induction false} PriorityRunInv<T(!new)>(cmp: (T, T) -> int, ops: seq<Op<T>>)
    requires TotalPreorder(cmp)
    ensures PriorityInv(cmp, After(PriorityList, cmp, ops))
    decreases |ops|
  {
    hide Step, TotalPreorder;
    if ops != [] {
      var n := |ops| - 1;
      PriorityRunInv(cmp, ops[..n]);
      PriorityStep(cmp, After(PriorityList, cmp, ops[..n]), ops[n]);
    }
  }
}
