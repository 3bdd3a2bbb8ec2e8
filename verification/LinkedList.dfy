/**
  The doubly linked list of util/list.c: heap nodes with prev and next pointers, a
  descriptor, and cursors into the chain.  `content` is the abstract sequence.
 */
module LinkedList {
  import opened Machine

  /** struct list_elem. */
  class Node<T> {
    var data: T
    var prev: Node?<T>
    var next: Node?<T>

    /** create_element. */
    constructor (data: T, prev: Node?<T>, next: Node?<T>)
      ensures this.data == data && this.prev == prev && this.next == next
    {
      this.data, this.prev, this.next := data, prev, next;
    }
  }

  /** The nodes of a pointer argument that may be NULL. */
  ghost function Ref<T>(n: Node?<T>): set<Node<T>> {
    if n == null then {} else {n}
  }

  ghost function NodeAt<T>(s: seq<Node<T>>, i: int): Node?<T> {
    if 0 <= i < |s| then s[i] else null
  }

  /** The i-th node of the chain holds the i-th datum and points to its neighbours. */
  ghost predicate Linked<T>(s: seq<Node<T>>, c: seq<T>, i: nat)
    requires i < |s| == |c|
    reads s[i]
  {
    s[i].data == c[i] && s[i].prev == NodeAt(s, i - 1) && s[i].next == NodeAt(s, i + 1)
  }

  ghost predicate Distinct<T>(s: seq<T>) {
    forall i, j :: 0 <= i < j < |s| ==> s[i] != s[j]
  }

  ghost function Inserted<T>(s: seq<T>, k: nat, x: T): seq<T>
    requires k <= |s|
  {
    s[..k] + [x] + s[k..]
  }

  ghost function Removed<T>(s: seq<T>, k: nat): seq<T>
    requires k < |s|
  {
    s[..k] + s[k + 1..]
  }

  lemma InsertedLength<T>(s: seq<T>, k: nat, x: T)
    requires k <= |s|
    ensures |Inserted(s, k, x)| == |s| + 1
  {
  }

  lemma InsertedAt<T>(s: seq<T>, k: nat, x: T, i: nat)
    requires k <= |s| && i <= |s|
    ensures |Inserted(s, k, x)| == |s| + 1
    ensures Inserted(s, k, x)[i] == if i < k then s[i] else if i == k then x else s[i - 1]
  {
  }

  lemma InsertedDistinct<T>(s: seq<T>, k: nat, x: T)
    requires k <= |s| && Distinct(s) && x !in s
    ensures Distinct(Inserted(s, k, x))
  {
  }

  lemma RemovedAt<T>(s: seq<T>, k: nat, i: nat)
    requires k < |s| && i < |s| - 1
    ensures |Removed(s, k)| == |s| - 1
    ensures Removed(s, k)[i] == if i < k then s[i] else s[i + 1]
  {
  }

  lemma RemovedLength<T>(s: seq<T>, k: nat)
    requires k < |s|
    ensures |Removed(s, k)| == |s| - 1
  {
  }

  lemma RemovedDistinct<T>(s: seq<T>, k: nat)
    requires k < |s| && Distinct(s)
    ensures Distinct(Removed(s, k))
  {
  }

  /** A uint32_t index handed to a parameter of type int32_t. */
  function ToInt32(u: nat): int {
    if u < 0x8000_0000 then u else u - U32
  }

  /** The first position whose datum matches, or the length. */
  function FindIndex<T>(cmp: (T, T) -> int, s: seq<T>, x: T): (k: nat)
    ensures k <= |s|
    ensures forall i :: 0 <= i < k ==> cmp(s[i], x) != 0
    ensures k < |s| ==> cmp(s[k], x) == 0
  {
    if s == [] || cmp(s[0], x) == 0 then 0 else 1 + FindIndex(cmp, s[1..], x)
  }

  /** The first position whose datum is greater, or the length: where an ascending insertion goes. */
  function UpperIndex<T>(cmp: (T, T) -> int, s: seq<T>, x: T): (k: nat)
    ensures k <= |s|
    ensures forall i :: 0 <= i < k ==> cmp(s[i], x) <= 0
    ensures k < |s| ==> cmp(s[k], x) > 0
  {
    if s == [] || cmp(s[0], x) > 0 then 0 else 1 + UpperIndex(cmp, s[1..], x)
  }

  /** update_links: makes prev, elem and next neighbours, skipping a missing elem. */
  method UpdateLinks<T>(prev: Node?<T>, elem: Node?<T>, next: Node?<T>)
    requires prev != null ==> prev != elem && prev != next
    requires elem != null ==> elem != next
    modifies Ref(prev), Ref(elem), Ref(next)
    ensures prev != null ==> prev.data == old(prev.data) && prev.prev == old(prev.prev)
                             && prev.next == (if elem != null then elem else next)
    ensures elem != null ==> elem.data == old(elem.data) && elem.prev == prev && elem.next == next
    ensures next != null ==> next.data == old(next.data) && next.next == old(next.next)
                             && next.prev == (if elem != null then elem else prev)
  {
    if prev != null {
      prev.next := if elem != null then elem else next;
    }
    if elem != null {
      elem.prev := prev;
      elem.next := next;
    }
    if next != null {
      next.prev := if elem != null then elem else prev;
    }
  }

  class List<T(!new)> {
    var first: Node?<T>
    var last: Node?<T>
    var nbElements: nat
    const comparator: (T, T) -> int

    ghost var spine: seq<Node<T>>
    ghost var content: seq<T>

    ghost predicate ValidLinks()
      reads this, spine
    {
      && |content| == |spine|
      && Distinct(spine)
      && (forall i :: 0 <= i < |spine| ==> Linked(spine, content, i))
    }

    /** The chain is acyclic and the descriptor describes it. */
    ghost predicate Valid()
      reads this, spine
    {
      && ValidLinks()
      && nbElements == |spine|
      && first == NodeAt(spine, 0)
      && last == NodeAt(spine, |spine| - 1)
    }

    constructor (comparator: (T, T) -> int)
      ensures Valid() && content == [] && spine == [] && this.comparator == comparator
    {
      first, last, nbElements := null, null, 0;
      this.comparator := comparator;
      spine, content := [], [];
    }

    /** update_desc. */
    method UpdateDesc(newFirst: Node?<T>, newLast: Node?<T>)
      modifies this`first, this`last
      ensures old(first) == newFirst ==>
                last == newLast && first == (if newFirst == null || newLast == null then newLast else newFirst)
      ensures old(first) != newFirst ==>
                first == newFirst
                && last == (if newLast == null || newFirst == null then newFirst else old(last))
    {
      if newFirst == first {
        last := newLast;
        if newFirst == null || newLast == null {
          first := newLast;
        }
      } else {
        first := newFirst;
        if newLast == null || newFirst == null {
          last := newFirst;
        }
      }
    }

    /** Creates an element and links it in at position k of the chain. */
    method LinkIn(data: T, prev: Node?<T>, next: Node?<T>, ghost k: nat) returns (elem: Node<T>)
      requires ValidLinks() && k <= |spine|
      requires prev == NodeAt(spine, k - 1) && next == NodeAt(spine, k)
      modifies this`spine, this`content, Ref(prev), Ref(next)
      ensures ValidLinks() && fresh(elem)
      ensures spine == Inserted(old(spine), k, elem)
      ensures content == Inserted(old(content), k, data)
    {
      hide Inserted;
      ghost var s, c := spine, content;
      elem := new Node(data, prev, next);
      UpdateLinks(prev, elem, next);
      spine := Inserted(s, k, elem);
      content := Inserted(c, k, data);
      InsertedDistinct(s, k, elem);
      InsertedLength(s, k, elem);
      InsertedLength(c, k, data);
      forall i | 0 <= i < |spine|
        ensures Linked(spine, content, i)
      {
        InsertedAt(s, k, elem, i);
        InsertedAt(c, k, data, i);
        if i > 0 { InsertedAt(s, k, elem, i - 1); }
        if i + 1 < |spine| { InsertedAt(s, k, elem, i + 1); }
        if i != k {
          assert old(Linked(s, c, if i < k then i else i - 1));
        }
      }
    }

    /** Takes the element at position k out of the chain. */
    method Unlink(elem: Node<T>, ghost k: nat)
      requires ValidLinks() && k < |spine| && elem == spine[k]
      modifies this`spine, this`content, Ref(elem.prev), Ref(elem.next)
      ensures ValidLinks()
      ensures spine == Removed(old(spine), k)
      ensures content == Removed(old(content), k)
      ensures elem.data == old(elem.data) && elem.prev == old(elem.prev) && elem.next == old(elem.next)
    {
      hide Removed;
      ghost var s, c := spine, content;
      assert Linked(s, c, k);
      UpdateLinks(elem.prev, null, elem.next);
      spine := Removed(s, k);
      content := Removed(c, k);
      RemovedDistinct(s, k);
      RemovedLength(s, k);
      RemovedLength(c, k);
      forall i | 0 <= i < |spine|
        ensures Linked(spine, content, i)
      {
        RemovedAt(s, k, i);
        RemovedAt(c, k, i);
        if i > 0 { RemovedAt(s, k, i - 1); }
        if i + 1 < |spine| { RemovedAt(s, k, i + 1); }
        assert old(Linked(s, c, if i < k then i else i + 1));
      }
    }

    /** list_add_first. */
    method AddFirst(data: T)
      requires Valid()
      modifies this, spine
      ensures Valid() && content == [data] + old(content) && spine[1..] == old(spine)
      ensures forall n :: n in spine ==> n in old(spine) || fresh(n)
    {
      var elem := LinkIn(data, null, first, 0);
      UpdateDesc(elem, last);
      nbElements := nbElements + 1;
    }

    /** list_add_last. */
    method AddLast(data: T)
      requires Valid()
      modifies this, spine
      ensures Valid() && content == old(content) + [data] && spine[..|spine| - 1] == old(spine)
      ensures forall n :: n in spine ==> n in old(spine) || fresh(n)
    {
      var elem := LinkIn(data, last, null, |spine|);
      UpdateDesc(first, elem);
      nbElements := nbElements + 1;
    }

    /** list_get_first. */
    method GetFirst() returns (r: Option<T>)
      requires Valid()
      modifies this, spine
      ensures Valid() && forall n :: n in spine ==> n in old(spine)
      ensures old(content) == [] ==> r == None && content == []
      ensures old(content) != [] ==> r == Some(old(content)[0]) && content == old(content)[1..]
    {
      if nbElements == 0 {
        return None;
      }
      var elem := first;
      assert Linked(spine, content, 0);
      Unlink(elem, 0);
      UpdateDesc(elem.next, last);
      nbElements := nbElements - 1;
      r := Some(elem.data);
    }

    /** list_get_last. */
    method GetLast() returns (r: Option<T>)
      requires Valid()
      modifies this, spine
      ensures Valid() && forall n :: n in spine ==> n in old(spine)
      ensures old(content) == [] ==> r == None && content == []
      ensures old(content) != [] ==>
                r == Some(old(content)[|old(content)| - 1]) && content == old(content)[..|old(content)| - 1]
    {
      if nbElements == 0 {
        return None;
      }
      var elem := last;
      ghost var k := |spine| - 1;
      assert Linked(spine, content, k);
      Unlink(elem, k);
      UpdateDesc(first, elem.prev);
      nbElements := nbElements - 1;
      r := Some(elem.data);
    }

    // ----- Cursors: `elem` is the node at position k, or NULL where there is none -----

    /** iterator_move: the node idx positions away, or NULL when that is outside the list. */
    method Move(elem: Node?<T>, idx: int, ghost k: int) returns (r: Node?<T>)
      requires Valid() && -0x8000_0000 < idx < 0x8000_0000
      requires elem == NodeAt(spine, k)
      ensures r == if elem == null then null else NodeAt(spine, k + idx)
    {
      var left := if idx < 0 then -idx else idx;
      r := elem;
      ghost var at := k;
      while left > 0 && r != null
        invariant left >= 0 && r == NodeAt(spine, at)
        invariant elem == null ==> r == null
        invariant elem != null ==> (if idx < 0 then at - left else at + left) == k + idx || r == null
        invariant elem != null && r == null ==> NodeAt(spine, k + idx) == null
      {
        assert Linked(spine, content, at);
        r := if idx < 0 then r.prev else r.next;
        at := if idx < 0 then at - 1 else at + 1;
        left := left - 1;
      }
    }

    /** iterator_find: the first node whose datum matches. */
    method Find(cmpData: T) returns (r: Node?<T>)
      requires Valid()
      ensures r == NodeAt(spine, FindIndex(comparator, content, cmpData))
    {
      r := first;
      ghost var k := 0;
      while r != null
        invariant 0 <= k <= |spine| && r == NodeAt(spine, k)
        invariant FindIndex(comparator, content, cmpData) == k + FindIndex(comparator, content[k..], cmpData)
        decreases |spine| - k
      {
        assert Linked(spine, content, k);
        if comparator(r.data, cmpData) == 0 {
          return;
        }
        assert content[k..][1..] == content[k + 1..];
        r := r.next;
        k := k + 1;
      }
    }

    /** iterator_edit. */
    method EditAt(elem: Node<T>, newData: T, ghost k: nat)
      requires Valid() && k < |spine| && elem == spine[k]
      modifies this`content, elem`data
      ensures Valid() && content == old(content)[k := newData]
    {
      ghost var c := content;
      elem.data := newData;
      content := content[k := newData];
      forall i | 0 <= i < |spine|
        ensures Linked(spine, content, i)
      {
        assert old(Linked(spine, c, i));
      }
    }

    /** The insertion of iterator_insert between two elements. */
    method InsertBetween(prev: Node<T>, next: Node<T>, data: T, ghost k: nat)
      requires Valid() && 0 < k < |spine| && prev == spine[k - 1] && next == spine[k]
      modifies this, spine
      ensures Valid() && forall n :: n in spine ==> n in old(spine) || fresh(n)
      ensures content == Inserted(old(content), k, data)
      ensures |spine| == |old(spine)| + 1 && spine[k - 1] == prev && spine[k + 1] == next
    {
      var _ := LinkIn(data, prev, next, k);
      nbElements := nbElements + 1;
    }

    /** iterator_insert. */
    method InsertAt(elem: Node?<T>, data: T, after: bool, ghost k: int)
      requires Valid() && elem == NodeAt(spine, k) && (elem == null ==> spine == [])
      modifies this, spine
      ensures Valid() && forall n :: n in spine ==> n in old(spine) || fresh(n)
      ensures content == old(if elem == null then [data] else Inserted(content, if after then k + 1 else k, data))
      ensures elem != null ==> elem == NodeAt(spine, if after then k else k + 1)
    {
      if elem != null {
        assert Linked(spine, content, k);
      }
      if after && elem == last {
        AddLast(data);
      } else if !after && elem == first {
        AddFirst(data);
      } else {
        if after {
          InsertBetween(elem, elem.next, data, k + 1);
        } else {
          InsertBetween(elem.prev, elem, data, k);
        }
      }
    }

    /** iterator_get: removing the last element leaves no current element. */
    method GetAt(elem: Node?<T>, ghost k: int) returns (r: Option<T>, next: Node?<T>)
      requires Valid() && elem == NodeAt(spine, k)
      modifies this, spine
      ensures Valid() && forall n :: n in spine ==> n in old(spine)
      ensures elem == null ==> r == None && next == null && content == old(content)
      ensures elem != null ==> r == Some(old(content)[k]) && content == Removed(old(content), k)
                               && next == NodeAt(spine, k)
    {
      if elem == null {
        return None, null;
      }
      assert Linked(spine, content, k);
      Unlink(elem, k);
      var before, following := elem.prev, elem.next;
      if elem == first {
        UpdateDesc(elem.next, last);
      } else if elem == last {
        UpdateDesc(first, elem.prev);
      }
      nbElements := nbElements - 1;
      r := Some(elem.data);
      next := if elem == last then before else following;
    }

    // ----- Access by index and by match -----

    /** list_add_idx: any index is the front of an empty list. */
    method AddIdx(data: T, idx: nat) returns (ok: bool)
      requires Valid() && idx < U32 && idx != 0x8000_0000
      modifies this, spine
      ensures Valid() && forall n :: n in spine ==> n in old(spine) || fresh(n)
      ensures ok == old(content == [] || idx == |content| || 0 <= ToInt32(idx) < |content|)
      ensures content == old(if !ok then content else if content == [] then [data] else Inserted(content, idx, data))
    {
      if nbElements == 0 || idx == 0 {
        AddFirst(data);
        return true;
      }
      if nbElements == idx {
        AddLast(data);
        return true;
      }
      var it := Move(first, ToInt32(idx), 0);
      if it == null {
        return false;
      }
      InsertAt(it, data, false, idx);
      ok := true;
    }

    /** list_add_find: insertion in ascending order, after all elements that are not greater. */
    method AddFind(data: T)
      requires Valid()
      modifies this, spine
      ensures Valid() && forall n :: n in spine ==> n in old(spine) || fresh(n)
      ensures content == old(Inserted(content, UpperIndex(comparator, content, data), data))
    {
      var elem := first;
      ghost var k := 0;
      while elem != null
        invariant 0 <= k <= |spine| && elem == NodeAt(spine, k)
        invariant UpperIndex(comparator, content, data) == k + UpperIndex(comparator, content[k..], data)
        decreases |spine| - k
      {
        assert Linked(spine, content, k);
        if 0 < comparator(elem.data, data) {
          break;
        }
        assert content[k..][1..] == content[k + 1..];
        elem := elem.next;
        k := k + 1;
      }
      if elem == null {
        InsertAt(last, data, true, |spine| - 1);
      } else {
        InsertAt(elem, data, false, k);
      }
    }

    /** list_edit_first; the C code requires an element. */
    method EditFirst(newData: T)
      requires Valid() && content != []
      modifies this`content, spine
      ensures Valid() && content == old(content)[0 := newData]
    {
      EditAt(first, newData, 0);
    }

    /** list_edit_last; the C code requires an element. */
    method EditLast(newData: T)
      requires Valid() && content != []
      modifies this`content, spine
      ensures Valid() && content == old(content)[|content| - 1 := newData]
    {
      EditAt(last, newData, |spine| - 1);
    }

    /** list_edit_idx. */
    method EditIdx(newData: T, idx: nat) returns (ok: bool)
      requires Valid() && idx < U32 && idx != 0x8000_0000
      modifies this`content, spine
      ensures Valid() && ok == (0 <= ToInt32(idx) < |content|)
      ensures content == if ok then old(content)[idx := newData] else old(content)
    {
      var it := Move(first, ToInt32(idx), 0);
      if it == null {
        return false;
      }
      EditAt(it, newData, idx);
      ok := true;
    }

    /** list_edit_find. */
    method EditFind(newData: T, cmpData: T) returns (ok: bool)
      requires Valid()
      modifies this`content, spine
      ensures Valid()
      ensures var k := FindIndex(comparator, old(content), cmpData);
              && ok == (k < |old(content)|)
              && content == if ok then old(content)[k := newData] else old(content)
    {
      ghost var k := FindIndex(comparator, content, cmpData);
      var it := Find(cmpData);
      if it == null {
        return false;
      }
      EditAt(it, newData, k);
      ok := true;
    }

    /** list_read_first. */
    method ReadFirst() returns (r: Option<T>)
      requires Valid()
      ensures r == if content == [] then None else Some(content[0])
    {
      if first == null {
        return None;
      }
      assert Linked(spine, content, 0);
      r := Some(first.data);
    }

    /** list_read_last. */
    method ReadLast() returns (r: Option<T>)
      requires Valid()
      ensures r == if content == [] then None else Some(content[|content| - 1])
    {
      if last == null {
        return None;
      }
      assert Linked(spine, content, |spine| - 1);
      r := Some(last.data);
    }

    /** list_read_idx. */
    method ReadIdx(idx: nat) returns (r: Option<T>)
      requires Valid() && idx < U32 && idx != 0x8000_0000
      ensures r == if idx < |content| && ToInt32(idx) >= 0 then Some(content[idx]) else None
    {
      if idx >= nbElements {
        return None;
      }
      var it := Move(first, ToInt32(idx), 0);
      if it == null {
        return None;
      }
      assert Linked(spine, content, idx);
      r := Some(it.data);
    }

    /** list_read_find. */
    method ReadFind(cmpData: T) returns (r: Option<T>)
      requires Valid()
      ensures var k := FindIndex(comparator, content, cmpData);
              r == if k < |content| then Some(content[k]) else None
    {
      ghost var k := FindIndex(comparator, content, cmpData);
      var it := Find(cmpData);
      if it == null {
        return None;
      }
      assert Linked(spine, content, k);
      r := Some(it.data);
    }

    /** list_get_idx. */
    method GetIdx(idx: nat) returns (r: Option<T>)
      requires Valid() && idx < U32 && idx != 0x8000_0000
      modifies this, spine
      ensures Valid() && forall n :: n in spine ==> n in old(spine)
      ensures 0 <= ToInt32(idx) < |old(content)| ==>
                r == Some(old(content)[idx]) && content == Removed(old(content), idx)
      ensures !(0 <= ToInt32(idx) < |old(content)|) ==> r == None && content == old(content)
    {
      var it := Move(first, ToInt32(idx), 0);
      if it == null {
        return None;
      }
      var next;
      r, next := GetAt(it, idx);
    }

    /** list_get_find. */
    method GetFind(cmpData: T) returns (r: Option<T>)
      requires Valid()
      modifies this, spine
      ensures Valid() && forall n :: n in spine ==> n in old(spine)
      ensures var k := FindIndex(comparator, old(content), cmpData);
              if k < |old(content)| then r == Some(old(content)[k]) && content == Removed(old(content), k)
              else r == None && content == old(content)
    {
      ghost var k := FindIndex(comparator, content, cmpData);
      var it := Find(cmpData);
      if it == null {
        return None;
      }
      var next;
      r, next := GetAt(it, k);
    }

    /** list_get_size. */
    method GetSize() returns (n: nat)
      requires Valid()
      ensures n == |content|
    {
      n := nbElements;
    }
  }

  /** The conversion keeps the value modulo 2^32 and gives a number of 32 signed bits. */
  lemma ToInt32Exact(u: nat)
    requires u < U32
    ensures -0x8000_0000 <= ToInt32(u) < 0x8000_0000
    ensures ToInt32(u) == u || ToInt32(u) + 0x1_0000_0000 == u
  {
  }
}
