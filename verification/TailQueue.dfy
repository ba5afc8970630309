/**
  The singly-linked tail queue macros (STAILQ). The head holds the first element
  and the address of the last `next` link, which is the head's own first pointer
  while the queue is empty; that address is a `Link` here. Every macro is proved
  to do the sequence operation it stands for on `elems`.
*/
module TailQueue {

  class Elem {
    var next: Elem?
  }

  /** The address of a pointer to an element. */
  datatype Link = FirstOf(head: Head) | NextOf(elem: Elem)

  ghost function At(s: seq<Elem>, i: nat): Elem? {
    if i < |s| then s[i] else null
  }

  ghost predicate Distinct(s: seq<Elem>) {
    forall i, j :: 0 <= i < j < |s| ==> s[i] != s[j]
  }

  /** The elements follow each other, and `end` follows the last. */
  ghost predicate Linked(s: seq<Elem>, end: Elem?)
    reads s
  {
    forall i {:trigger s[i].next} :: 0 <= i < |s| ==> s[i].next == if i + 1 < |s| then s[i + 1] else end
  }

  lemma LinkedConcat(a: seq<Elem>, b: seq<Elem>, end: Elem?)
    requires Linked(a, if b == [] then end else b[0]) && Linked(b, end)
    ensures Linked(a + b, end)
  {
    forall i {:trigger (a + b)[i].next} | 0 <= i < |a + b|
      ensures (a + b)[i].next == if i + 1 < |a + b| then (a + b)[i + 1] else end
    {
      if i < |a| {
        assert a[i].next == if i + 1 < |a| then a[i + 1] else if b == [] then end else b[0];
      } else {
        assert b[i - |a|].next == if i - |a| + 1 < |b| then b[i - |a| + 1] else end;
      }
    }
  }

  lemma DistinctConcat(a: seq<Elem>, b: seq<Elem>)
    requires Distinct(a) && Distinct(b) && forall e :: e in a ==> e !in b
    ensures Distinct(a + b)
  {
    forall i, j | 0 <= i < j < |a + b|
      ensures (a + b)[i] != (a + b)[j]
    {
      if i < |a| <= j {
        assert a[i] in a && b[j - |a|] in b;
      }
    }
  }

  class Head {
    var first: Elem?
    var last: Link
    ghost var elems: seq<Elem>

    ghost predicate Valid()
      reads this, elems
    {
      && first == At(elems, 0)
      && Linked(elems, null)
      && Distinct(elems)
      && last == LastLink()
    }

    /** The link behind the last element. */
    ghost function LastLink(): Link
      reads this
    {
      if elems == [] then FirstOf(this) else NextOf(elems[|elems| - 1])
    }

    /** STAILQ_INIT, on storage with any contents. */
    constructor ()
      ensures Valid() && elems == []
    {
      first, elems := null, [];
      last := FirstOf(this);
    }

    /** STAILQ_INIT */
    method Init()
      modifies this
      ensures Valid() && elems == []
    {
      first := null;
      last := FirstOf(this);
      elems := [];
    }

    /** STAILQ_EMPTY */
    predicate Empty()
      reads this
    {
      first == null
    }

    /** STAILQ_LAST: the element that contains the last link. */
    method Last() returns (r: Elem?)
      requires Valid()
      ensures r == if elems == [] then null else elems[|elems| - 1]
    {
      r := if Empty() then null else last.elem;
    }

    /** STAILQ_INSERT_HEAD */
    method InsertHead(elm: Elem)
      requires Valid() && elm !in elems
      modifies this, elm
      ensures Valid() && elems == [elm] + old(elems)
    {
      elm.next := first;
      if elm.next == null {
        last := NextOf(elm);
      }
      first := elm;
      elems := [elm] + elems;
      assert forall i :: 0 < i < |elems| ==> elems[i] == old(elems)[i - 1];
    }

    /** STAILQ_INSERT_TAIL: the new element is stored through the last link, wherever that is. */
    method InsertTail(elm: Elem)
      requires Valid() && elm !in elems
      modifies this, elm, elems`next
      ensures Valid() && elems == old(elems) + [elm]
    {
      elm.next := null;
      StoreAtLast(elm);
      last := NextOf(elm);
      elems := elems + [elm];
    }

    /** `*stqh_last = elm` */
    method StoreAtLast(elm: Elem?)
      requires last == LastLink()
      modifies `first, (if elems == [] then {} else {elems[|elems| - 1]})`next
      ensures if elems == [] then first == elm else first == old(first) && elems[|elems| - 1].next == elm
    {
      match last {
        case FirstOf(h) => h.first := elm;
        case NextOf(e) => e.next := elm;
      }
    }

    /** STAILQ_INSERT_AFTER */
    method InsertAfter(tqelm: Elem, elm: Elem, ghost k: nat)
      requires Valid() && k < |elems| && elems[k] == tqelm && elm !in elems
      modifies `last, `elems, elm`next, tqelm`next
      ensures Valid() && elems == old(elems)[..k + 1] + [elm] + old(elems)[k + 1..]
    {
      elm.next := tqelm.next;
      if elm.next == null {
        last := NextOf(elm);
      }
      tqelm.next := elm;
      ghost var was := elems;
      elems := was[..k + 1] + [elm] + was[k + 1..];
      assert forall i :: 0 <= i < |elems| ==> elems[i] == if i <= k then was[i] else if i == k + 1 then elm else was[i - 1];
    }

    /** STAILQ_INSERT_CHAIN_HEAD: a chain of elements already linked to each other goes in front. */
    method InsertChainHead(chead: Elem, ctail: Elem, ghost chain: seq<Elem>)
      requires Valid() && chain != [] && chain[0] == chead && chain[|chain| - 1] == ctail
      requires Linked(chain, ctail.next) && Distinct(chain) && forall e :: e in chain ==> e !in elems
      modifies this, ctail
      ensures Valid() && elems == chain + old(elems)
    {
      ctail.next := first;
      if ctail.next == null {
        last := NextOf(ctail);
      }
      first := chead;
      assert ctail in chain;
      assert Linked(elems, null);
      DistinctConcat(chain, elems);
      LinkedConcat(chain, elems, null);
      elems := chain + elems;
    }

    /** STAILQ_REMOVE_HEAD */
    method RemoveHead()
      requires Valid() && elems != []
      modifies this
      ensures Valid() && elems == old(elems)[1..]
    {
      first := first.next;
      if first == null {
        last := FirstOf(this);
      }
      elems := elems[1..];
      assert forall i :: 0 <= i < |elems| ==> elems[i] == old(elems)[i + 1];
    }

    /** STAILQ_REMOVE_AFTER */
    method RemoveAfter(elm: Elem, ghost k: nat)
      requires Valid() && k + 1 < |elems| && elems[k] == elm
      modifies `last, `elems, elm`next
      ensures Valid() && elems == old(elems)[..k + 1] + old(elems)[k + 2..]
    {
      elm.next := elm.next.next;
      if elm.next == null {
        last := NextOf(elm);
      }
      ghost var was := elems;
      elems := was[..k + 1] + was[k + 2..];
      assert forall i :: 0 <= i < |elems| ==> elems[i] == if i <= k then was[i] else was[i + 1];
    }

    /** STAILQ_REMOVE */
    method Remove(elm: Elem, ghost k: nat)
      requires Valid() && k < |elems| && elems[k] == elm
      modifies this, elems`next
      ensures Valid() && elems == old(elems)[..k] + old(elems)[k + 1..]
    {
      if first == elm {
        assert k == 0;
        RemoveHead();
      } else {
        var curelm := first;
        ghost var i := 0;
        while curelm.next != elm
          invariant 0 <= i < k && curelm == elems[i]
          decreases k - i
        {
          curelm := curelm.next;
          i := i + 1;
        }
        assert i + 1 == k;
        RemoveAfter(curelm, i);
      }
    }

    /** STAILQ_CONCAT: the second queue is emptied onto the end of this one. */
    method Concat(other: Head)
      requires Valid() && other.Valid() && this != other && forall e :: e in elems ==> e !in other.elems
      modifies this, other, elems`next
      ensures Valid() && elems == old(elems) + old(other.elems)
      ensures other.Valid() && other.elems == []
    {
      if !other.Empty() {
        StoreAtLast(other.first);
        last := other.last;
        ghost var front, back := elems, other.elems;
        assert front != [] ==> front[|front| - 1] in front;
        assert Linked(front, back[0]) && Linked(back, null);
        DistinctConcat(front, back);
        LinkedConcat(front, back, null);
        elems := front + back;
        other.Init();
      }
    }

    /** STAILQ_SWAP: an empty queue's last link must be moved from one head to the other. */
    method Swap(other: Head)
      requires Valid() && other.Valid() && this != other
      modifies this, other
      ensures Valid() && elems == old(other.elems)
      ensures other.Valid() && other.elems == old(elems)
    {
      var swapFirst := first;
      var swapLast := last;
      first := other.first;
      last := other.last;
      other.first := swapFirst;
      other.last := swapLast;
      if Empty() {
        last := FirstOf(this);
      }
      if other.Empty() {
        other.last := FirstOf(other);
      }
      elems, other.elems := other.elems, elems;
    }
  }
}
