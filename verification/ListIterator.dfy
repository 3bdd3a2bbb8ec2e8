/**
  struct iterator of util/list.c: a cursor that remembers the current node of a list and is
  moved in place.  The list it points into is described by module LinkedList.
 */
module ListIterator {
  import opened Machine
  import opened LinkedList

  class Iterator<T(!new)> {
    const list: List<T>
    var elem: Node?<T>

    ghost var pos: int

    /** The cursor is on the node at `pos`, or on none when `pos` is outside the list. */
    ghost predicate Valid()
      reads this, list, list.spine
    {
      list.Valid() && elem == NodeAt(list.spine, pos)
    }

    ghost predicate OnElement()
      reads this, list
    {
      0 <= pos < |list.content|
    }

    /** iterator_init. */
    constructor (list: List<T>, start: bool)
      requires list.Valid()
      ensures Valid() && this.list == list && pos == (if start then 0 else |list.content| - 1)
    {
      this.list := list;
      elem := if start then list.first else list.last;
      pos := if start then 0 else |list.content| - 1;
    }

    /** iterator_move: outside the list the call fails and the cursor stays. */
    method Move(idx: int) returns (ok: bool)
      requires Valid() && -0x8000_0000 < idx < 0x8000_0000
      modifies this
      ensures Valid()
      ensures ok == old(OnElement() && 0 <= pos + idx < |list.content|)
      ensures pos == if ok then old(pos) + idx else old(pos)
    {
      var target := list.Move(elem, idx, pos);
      if target == null {
        return false;
      }
      elem, pos := target, pos + idx;
      ok := true;
    }

    /** iterator_find: on failure the cursor stays. */
    method Find(cmpData: T) returns (ok: bool)
      requires Valid()
      modifies this
      ensures Valid()
      ensures var k := FindIndex(list.comparator, list.content, cmpData);
              ok == (k < |list.content|) && pos == if ok then k else old(pos)
    {
      var target := list.Find(cmpData);
      if target == null {
        return false;
      }
      elem, pos := target, FindIndex(list.comparator, list.content, cmpData);
      ok := true;
    }

    /** iterator_edit; the C code requires a current element. */
    method Edit(newData: T)
      requires Valid() && OnElement()
      modifies list`content, elem
      ensures Valid() && list.content == old(list.content)[pos := newData]
    {
      list.EditAt(elem, newData, pos);
    }

    /** iterator_read. */
    method Read() returns (r: Option<T>)
      requires Valid()
      ensures r == if OnElement() then Some(list.content[pos]) else None
    {
      if elem == null {
        return None;
      }
      assert Linked(list.spine, list.content, pos);
      r := Some(elem.data);
    }

    /**
      iterator_get: the cursor goes to the element that followed, which after the last one is
      none.  That is the position the source documents exactly when the element is not the last
      of several.
     */
    method Get() returns (r: Option<T>)
      requires Valid()
      modifies this, list, list.spine
      ensures Valid() && pos == old(pos)
      ensures forall n :: n in list.spine ==> n in old(list.spine)
      ensures old(OnElement()) ==>
                r == Some(old(list.content)[pos]) && list.content == Removed(old(list.content), pos)
      ensures !old(OnElement()) ==> r == None && list.content == old(list.content)
      ensures old(OnElement()) ==> (elem == NodeAt(list.spine, Promised(pos, |old(list.content)|)) <==>
                                    pos + 1 < |old(list.content)| || pos == 0)
    {
      if elem == null {
        return None;
      }
      r, elem := list.GetAt(elem, pos);
    }

    /** iterator_insert: the cursor stays on its element, which an insertion before it shifts. */
    method Insert(data: T, after: bool)
      requires Valid() && (OnElement() || list.content == [])
      modifies this`pos, list, list.spine
      ensures Valid()
      ensures forall n :: n in list.spine ==> n in old(list.spine) || fresh(n)
      ensures old(OnElement()) ==>
                && list.content == Inserted(old(list.content), if after then old(pos) + 1 else old(pos), data)
                && pos == if after then old(pos) else old(pos) + 1
      ensures !old(OnElement()) ==> list.content == [data] && pos == -1
    {
      list.InsertAt(elem, data, after, pos);
      if elem == null {
        pos := -1;
      } else if !after {
        pos := pos + 1;
      }
    }
  }

  /** Where the comment of iterator_get puts the cursor: on the previous element after the last of n. */
  function Promised(pos: nat, n: nat): int {
    if pos + 1 == n then pos - 1 else pos
  }

  /** Removing the second of two elements leaves a cursor that reads nothing, though one element is left. */
  method CursorLost<T(!new)>(a: T, b: T, cmp: (T, T) -> int)
    returns (got: Option<T>, current: Option<T>, left: Option<T>)
    ensures got == Some(b) && current == None && left == Some(a)
  {
    var list := new List(cmp);
    list.AddLast(a);
    forall i | 0 <= i < |list.spine|
      ensures fresh(list.spine[i])
    {
      assert list.spine[i] in list.spine;
    }
    list.AddLast(b);
    forall i | 0 <= i < |list.spine|
      ensures fresh(list.spine[i])
    {
      assert list.spine[i] in list.spine;
    }
    var it := new Iterator(list, false);
    got := it.Get();
    current := it.Read();
    left := list.ReadFirst();
  }
}
