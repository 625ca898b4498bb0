/**
 * A doubly-linked list built as a ring around a sentinel node, with a small
 * free-list that recycles removed nodes.
 *
 * Each List carries a ghost sequence `elems` of its real nodes, front to
 * back, and a ghost footprint `Repr`.  `Valid()` ties the pointer fields of
 * the sentinel and of every node in `elems` to that sequence, so every
 * operation can be specified by what it does to `elems` (and to `Values()`,
 * the values held by those nodes).
 */
module LinkedList {
  import opened ListModel

  /** A list node: two ring pointers, the owning list, and a public value. */
  class Element<E(0)> {
    var next: Element?<E>
    var prev: Element?<E>
    var list: List?<E>
    var Value: E

    /** A fresh detached node holding the zero value of E. */
    constructor ()
      ensures next == null && prev == null && list == null
    {
      next, prev, list := null, null, null;
    }

    /** The following node, or null at the back of the list or when detached. */
    function Next(): (r: Element?<E>)
      reads this
      ensures list == null ==> r == null
      ensures r != null ==> r == next && r != list.root
    {
      if list != null && next != list.root then next else null
    }

    /** The preceding node, or null at the front of the list or when detached. */
    function Prev(): (r: Element?<E>)
      reads this
      ensures list == null ==> r == null
      ensures r != null ==> r == prev && r != list.root
    {
      if list != null && prev != list.root then prev else null
    }
  }

  /** The values held by a sequence of nodes. */
  ghost function ValuesOf<E(0)>(s: seq<Element<E>>): (vs: seq<E>)
    reads s`Value
    ensures |vs| == |s|
    ensures forall i {:trigger s[i].Value} :: 0 <= i < |s| ==> vs[i] == s[i].Value
  {
    if |s| == 0 then [] else ValuesOf(s[..|s| - 1]) + [s[|s| - 1].Value]
  }

  /** Values follow a node through linking. */
  lemma ValuesOfInsert<E(0)>(s: seq<Element<E>>, k: nat, x: Element<E>, vs: seq<E>)
    requires k <= |s| && |vs| == |s|
    requires forall j :: 0 <= j < |s| ==> s[j].Value == vs[j]
    ensures ValuesOf(InsertAt(s, k, x)) == InsertAt(vs, k, x.Value)
  {
    var r, w := ValuesOf(InsertAt(s, k, x)), InsertAt(vs, k, x.Value);
    forall j | 0 <= j < |r| ensures r[j] == w[j] {
      if j < k {
        assert InsertAt(s, k, x)[j] == s[j];
      } else if j > k {
        assert InsertAt(s, k, x)[j] == s[j - 1];
      }
    }
  }

  /** Values follow the nodes through unlinking. */
  lemma ValuesOfRemove<E(0)>(s: seq<Element<E>>, k: nat, vs: seq<E>)
    requires k < |s| && |vs| == |s|
    requires forall j :: 0 <= j < |s| ==> s[j].Value == vs[j]
    ensures ValuesOf(RemoveAt(s, k)) == RemoveAt(vs, k)
  {
    var r, w := ValuesOf(RemoveAt(s, k)), RemoveAt(vs, k);
    forall j | 0 <= j < |r| ensures r[j] == w[j] {
      if j < k {
        assert RemoveAt(s, k)[j] == s[j];
      } else {
        assert RemoveAt(s, k)[j] == s[j + 1];
      }
    }
  }

  /** Values follow the nodes through a relink. */
  lemma ValuesOfRelink<E(0)>(s: seq<Element<E>>, i: nat, p: nat, vs: seq<E>)
    requires i < |s| && p <= |s| && |vs| == |s|
    requires forall j :: 0 <= j < |s| ==> s[j].Value == vs[j]
    ensures ValuesOf(Relink(s, i, p)) == Relink(vs, i, p)
  {
    var r, w := ValuesOf(Relink(s, i, p)), Relink(vs, i, p);
    forall t | 0 <= t < |r| ensures r[t] == w[t] {
      RelinkAt(s, i, p, t);
      RelinkAt(vs, i, p, t);
    }
  }

  class List<E(0)> {
    /** Sentinel: its next is the front node, its prev the back node. */
    const root: Element<E>
    var len: int
    var epool: seq<Element<E>>

    ghost var elems: seq<Element<E>>
    ghost var Repr: set<object>

    /** The ring invariant, the length, the back-references and the pool. */
    ghost predicate Valid()
      reads this`len
      reads this`Repr, this`elems, this`epool, root`next, root`prev, root`list
      reads elems`next, elems`prev, elems`list, epool`next, epool`prev, epool`list
      ensures Valid() ==> this in Repr
    {
      Wired() && len == |elems|
    }

    /** Everything but the length counter: footprint, ring, back-references and pool. */
    ghost predicate Wired()
      reads this`Repr, this`elems, this`epool, root`next, root`prev, root`list
      reads elems`next, elems`prev, elems`list, epool`next, epool`prev, epool`list
    {
      Footprint() && Ring() && Owned() && PoolOk()
    }

    /** Repr holds the list, its sentinel, its nodes and its pooled nodes. */
    ghost predicate Footprint()
      reads this`Repr, this`elems, this`epool
    {
      && this in Repr && root in Repr
      && (forall i :: 0 <= i < |elems| ==> elems[i] in Repr)
      && (forall i :: 0 <= i < |epool| ==> epool[i] in Repr)
    }

    /**
     * The ring: sentinel, elems[0], ..., elems[|elems| - 1], back to the
     * sentinel, linked both ways.  That the ring visits every node once
     * follows (RingDistinct).
     */
    ghost predicate Ring()
      reads this`elems, root`next, root`prev, elems`next, elems`prev
    {
      && root.next == (if |elems| == 0 then root else elems[0])
      && root.prev == (if |elems| == 0 then root else elems[|elems| - 1])
      && (forall i {:trigger elems[i].next} :: 0 <= i < |elems| ==> elems[i].next == Succ(i))
      && (forall i {:trigger elems[i].prev} :: 0 <= i < |elems| ==> elems[i].prev == Pred(i))
      && root !in elems
    }

    /** Back-references: the sentinel belongs to no list, every real node to this one. */
    ghost predicate Owned()
      reads this`elems, root`list, elems`list
    {
      && root.list == null
      && (forall i :: 0 <= i < |elems| ==> elems[i].list == this)
    }

    /** Owned, except that node `x` may not point back at this list yet. */
    ghost predicate OwnedBut(x: Element<E>)
      reads this`elems, root`list, elems`list
    {
      && root.list == null
      && (forall i :: 0 <= i < |elems| && elems[i] != x ==> elems[i].list == this)
    }

    /** The pool holds at most PoolSize distinct, fully detached nodes. */
    ghost predicate PoolOk()
      reads this`epool, epool`next, epool`prev, epool`list
    {
      && |epool| <= PoolSize && Distinct(epool)
      && (forall i :: 0 <= i < |epool| ==>
            epool[i].next == null && epool[i].prev == null && epool[i].list == null)
    }

    /** The ring neighbour after the node at index `i`: the next node, or the sentinel at the back. */
    ghost function Succ(i: int): Element<E>
      reads this`elems
      requires 0 <= i < |elems|
    {
      if i + 1 < |elems| then elems[i + 1] else root
    }

    /** The ring neighbour before the node at index `i`: the previous node, or the sentinel at the front. */
    ghost function Pred(i: int): Element<E>
      reads this`elems
      requires 0 <= i < |elems|
    {
      if i == 0 then root else elems[i - 1]
    }

    /** The values held by the real nodes, front to back. */
    ghost function Values(): (vs: seq<E>)
      reads this`elems, elems`Value
    {
      ValuesOf(elems)
    }

    /** New: an empty ring (sentinel linked to itself) and an empty pool. */
    constructor ()
      ensures Valid() && fresh(Repr)
      ensures elems == [] && epool == [] && len == 0
    {
      root := new Element<E>();
      len := 0;
      epool := [];
      elems := [];
      Repr := {this, root};
      new;
      root.next := root;
      root.prev := root;
    }

    /**
     * Init clears the list.  Nodes that were in the list keep their stale
     * back-reference to it and are no longer part of `elems`.
     */
    method Init() returns (r: List<E>)
      requires Valid()
      modifies this`len, this`epool, this`elems, root`next, root`prev
      ensures Valid() && r == this
      ensures elems == [] && epool == [] && len == 0
    {
      root.next := root;
      root.prev := root;
      len := 0;
      epool := [];
      elems := [];
      r := this;
    }

    /** The number of real nodes. */
    function Len(): (n: int)
      reads this, root, elems, epool
      requires Valid()
      ensures n == |elems| && n >= 0
    {
      len
    }

    /** The front node, or null if the list is empty. */
    function Front(): (r: Element?<E>)
      reads this, root, elems, epool
      requires Valid()
      ensures r == null <==> |elems| == 0
      ensures r != null ==> r == elems[0]
    {
      if len == 0 then null else root.next
    }

    /** The back node, or null if the list is empty. */
    function Back(): (r: Element?<E>)
      reads this, root, elems, epool
      requires Valid()
      ensures r == null <==> |elems| == 0
      ensures r != null ==> r == elems[|elems| - 1]
    {
      if len == 0 then null else root.prev
    }

    /** Next on a node of this list follows the sequence and ends with null. */
    lemma NextOf(k: nat)
      requires Valid() && k < |elems|
      ensures elems[k].Next() == if k + 1 < |elems| then elems[k + 1] else null
    {
    }

    /** Prev on a node of this list follows the sequence backwards and ends with null. */
    lemma PrevOf(k: nat)
      requires Valid() && k < |elems|
      ensures elems[k].Prev() == if k > 0 then elems[k - 1] else null
    {
    }

    /**
     * Two indices holding the same node have the same successors, step by
     * step, up to the back of the sequence.
     */
    lemma {:induction false} SameTail(i: nat, j: nat, t: nat)
      requires Ring() && i < j && j + t < |elems| && elems[i] == elems[j]
      ensures elems[i + t] == elems[j + t]
      ensures elems[i + t].next == Succ(i + t) && elems[j + t].next == Succ(j + t)
      decreases t
    {
      if t > 0 {
        SameTail(i, j, t - 1);
        assert elems[i + t - 1].next == Succ(i + t - 1);
        assert elems[j + t - 1].next == Succ(j + t - 1);
      }
    }

    /** The ring visits every node once: a repeated node would lead back to the sentinel too early. */
    lemma RingDistinct()
      requires Ring()
      ensures Distinct(elems)
    {
      forall a, b | 0 <= a < |elems| && 0 <= b < |elems| && elems[a] == elems[b] ensures a == b {
        if a != b {
          var i, j := if a < b then a else b, if a < b then b else a;
          var t := |elems| - 1 - j;
          SameTail(i, j, t);
          assert false;
        }
      }
    }

    /**
     * Every node of the ring, sentinel included, is the prev of its next and
     * the next of its prev.
     */
    lemma RingLinksBothWays()
      requires Valid()
      ensures root.next.prev == root && root.prev.next == root
      ensures forall i :: 0 <= i < |elems| ==> elems[i].next.prev == elems[i] && elems[i].prev.next == elems[i]
    {
      forall i | 0 <= i < |elems| ensures elems[i].next.prev == elems[i] && elems[i].prev.next == elems[i] {
        if i + 1 < |elems| {
          assert elems[i + 1].prev == Pred(i + 1);
        }
        if i > 0 {
          assert elems[i - 1].next == Succ(i - 1);
        }
      }
      if |elems| > 0 {
        assert elems[0].prev == Pred(0);
        assert elems[|elems| - 1].next == Succ(|elems| - 1);
      }
    }

    /** The node reached from `x` by `k` steps along `next` (null once a step leaves Repr). */
    ghost function Forward(x: Element?<E>, k: nat): Element?<E>
      reads this, Repr
    {
      if k == 0 then x
      else
        var y := Forward(x, k - 1);
        if y != null && y in Repr then y.next else null
    }

    /** The node reached from `x` by `k` steps along `prev`. */
    ghost function Backward(x: Element?<E>, k: nat): Element?<E>
      reads this, Repr
    {
      if k == 0 then x
      else
        var y := Backward(x, k - 1);
        if y != null && y in Repr then y.prev else null
    }

    /** `k` steps along `next` from the sentinel reach the node at index k - 1. */
    lemma {:induction false} ForwardSteps(k: nat)
      requires Valid() && 0 < k <= len
      ensures Forward(root, k) == elems[k - 1]
    {
      if k > 1 {
        ForwardSteps(k - 1);
      }
    }

    /**
     * Following `next` from the sentinel visits exactly the `len` real nodes
     * in order and then comes back to the sentinel.
     */
    lemma ForwardRing()
      requires Valid()
      ensures forall k :: 0 < k <= len ==> Forward(root, k) == elems[k - 1] != root
      ensures Forward(root, len + 1) == root
    {
      forall k | 0 < k <= len ensures Forward(root, k) == elems[k - 1] {
        ForwardSteps(k);
      }
      if len > 0 {
        ForwardSteps(len);
      }
    }

    /** `k` steps along `prev` from the sentinel reach the node at index len - k. */
    lemma {:induction false} BackwardSteps(k: nat)
      requires Valid() && 0 < k <= len
      ensures Backward(root, k) == elems[len - k]
    {
      if k > 1 {
        BackwardSteps(k - 1);
      }
    }

    /** Following `prev` from the sentinel visits the real nodes back to front, then the sentinel. */
    lemma BackwardRing()
      requires Valid()
      ensures forall k :: 0 < k <= len ==> Backward(root, k) == elems[len - k] != root
      ensures Backward(root, len + 1) == root
    {
      forall k | 0 < k <= len ensures Backward(root, k) == elems[len - k] {
        BackwardSteps(k);
      }
      if len > 0 {
        BackwardSteps(len);
      }
    }

    // -------------------------------------------------------------------
    // Pointer surgery on the ring.  Each primitive performs the field
    // writes of the source; the two-state lemmas below show that the new
    // links are exactly the ring of the new node sequence.

    /** The neighbours of the anchor at ring position `p`. */
    lemma AnchorLinks(p: nat)
      requires Ring() && p <= |elems|
      ensures (if p == 0 then root else elems[p - 1]).next == (if p < |elems| then elems[p] else root)
      ensures (if p < |elems| then elems[p] else root).prev == (if p == 0 then root else elems[p - 1])
    {
      if p > 0 {
        assert elems[p - 1].next == Succ(p - 1);
      }
      if p < |elems| {
        assert elems[p].prev == Pred(p);
      }
    }

    /** Pooled nodes are neither the sentinel nor linked into the ring. */
    lemma PoolDetached()
      requires Wired()
      ensures forall k :: 0 <= k < |epool| ==> epool[k] != root && epool[k] !in elems
    {
    }

    /** Once the linked node points back at this list, the invariant is whole again. */
    lemma Adopted(e: Element<E>)
      requires Footprint() && Ring() && PoolOk() && OwnedBut(e) && e.list == this && len == |elems|
      ensures Valid()
    {
    }

    /**
     * The invariant after `e` was linked between `at` (ring position `p` of
     * `s`) and its successor `n`: the writes touched only the `next` of `e`
     * and `at` and the `prev` of `e` and `n`.  The back-reference of `e` is
     * not set yet.
     */
    twostate lemma Linked(new s: seq<Element<E>>, p: nat, new e: Element<E>, new at: Element<E>, new n: Element<E>)
      requires old(Wired()) && old(elems) == s && old(Repr) == Repr && old(epool) == epool && Distinct(s)
      requires p <= |s| && at == (if p == 0 then root else s[p - 1]) && n == (if p < |s| then s[p] else root)
      requires e in Repr && e != root && e !in s && e !in epool
      requires elems == InsertAt(s, p, e)
      requires e.next == n && e.prev == at && at.next == e && n.prev == e
      requires forall o: Element<E> :: old(allocated(o)) && o != e && o != at ==> o.next == old(o.next)
      requires forall o: Element<E> :: old(allocated(o)) && o != e && o != n ==> o.prev == old(o.prev)
      requires forall o: Element<E> :: old(allocated(o)) ==> o.list == old(o.list)
      ensures Footprint() && Ring() && PoolOk() && OwnedBut(e)
    {
      forall j | 0 <= j < |elems| ensures elems[j].next == Succ(j) {
        if j + 1 < p {
          assert s[j] != at && old(s[j].next) == s[j + 1];
        } else if j > p {
          assert s[j - 1] != at;
          assert old(s[j - 1].next) == if j < |s| then s[j] else root;
        }
      }
      forall j | 0 <= j < |elems| ensures elems[j].prev == Pred(j) {
        if j < p {
          assert s[j] != n && old(s[j].prev) == if j == 0 then root else s[j - 1];
        } else if j > p + 1 {
          assert s[j - 1] != n && old(s[j - 1].prev) == s[j - 2];
        }
      }
      forall j | 0 <= j < |elems| ensures elems[j] in Repr && (elems[j] != e ==> elems[j].list == this) {
        if j != p {
          var j' := if j < p then j else j - 1;
          assert elems[j] == s[j'];
        }
      }
      forall k | 0 <= k < |epool|
        ensures epool[k].next == null && epool[k].prev == null && epool[k].list == null
      {
        assert old(epool[k].next) == null && old(epool[k].prev) == null;
        forall j | 0 <= j < |s| ensures s[j] != epool[k] {
          assert old(s[j].list) == this;
        }
      }
    }

    /**
     * link puts `e`, a node in no ring, between `at` (ring position `p`) and
     * its successor.  It leaves the back-reference of `e` alone.
     */
    method link(e: Element<E>, at: Element<E>, ghost p: nat)
      requires Wired()
      requires p <= |elems| && at == (if p == 0 then root else elems[p - 1])
      requires e in Repr && e != root && e !in elems && e !in epool
      modifies this`elems, e`next, e`prev, at`next, at.next`prev
      ensures Footprint() && Ring() && PoolOk() && OwnedBut(e)
      ensures elems == InsertAt(old(elems), p, e)
    {
      ghost var s := elems;
      ghost var n := at.next;
      RingDistinct();
      assert n == (if p < |s| then s[p] else root) by {
        AnchorLinks(p);
      }
      e.prev := at;
      e.next := at.next;
      e.prev.next := e;
      e.next.prev := e;
      elems := InsertAt(elems, p, e);
      Linked(s, p, e, at, n);
    }

    /** insert links `e` after `at`, which sits at ring position `p`. */
    method insert(e: Element<E>, at: Element<E>, ghost p: nat) returns (r: Element<E>)
      requires Valid()
      requires p <= |elems| && at == (if p == 0 then root else elems[p - 1])
      requires e in Repr && e != root && e !in elems && e !in epool
      modifies this`len, this`elems, e`next, e`prev, e`list, at`next, at.next`prev
      ensures Valid()
      ensures r == e && e.list == this
      ensures elems == InsertAt(old(elems), p, e) && len == old(len) + 1
    {
      link(e, at, p);
      e.list := this;
      len := len + 1;
      Adopted(e);
      r := e;
    }

    /** poolElement offers a detached node to the pool, which keeps it unless full. */
    method poolElement(e: Element<E>)
      requires |epool| <= PoolSize
      modifies this`epool
      ensures epool == PoolPush(old(epool), e)
    {
      if |epool| == PoolSize {
        return;
      }
      epool := epool + [e];
    }

    /** newElement pops the most recently pooled node, or allocates a fresh one. */
    method newElement() returns (e: Element<E>)
      requires Valid()
      modifies this`epool, this`Repr
      ensures Valid() && Repr == old(Repr) + {e} && fresh(Repr - old(Repr))
      ensures e != root && e !in elems && e !in epool
      ensures e.next == null && e.prev == null && e.list == null
      ensures old(|epool|) == 0 ==> fresh(e) && epool == []
      ensures old(|epool|) > 0 ==>
                e == old(epool[|epool| - 1]) && epool == old(epool[..|epool| - 1])
    {
      PoolDetached();
      if |epool| == 0 {
        e := new Element<E>();
        Repr := Repr + {e};
        return;
      }
      e := epool[|epool| - 1];
      epool := epool[..|epool| - 1];
    }

    /** insertValue links a pooled or fresh node holding `v` after `at` (ring position `p`). */
    method insertValue(v: E, at: Element<E>, ghost p: nat) returns (r: Element<E>)
      requires Valid()
      requires p <= |elems| && at == (if p == 0 then root else elems[p - 1])
      modifies Repr
      ensures Valid() && fresh(Repr - old(Repr)) && Repr == old(Repr) + {r}
      ensures elems == InsertAt(old(elems), p, r) && len == old(len) + 1
      ensures Values() == InsertAt(old(Values()), p, v)
      ensures r.list == this && r.Value == v
      ensures forall k :: 0 <= k < old(|elems|) ==> old(elems[k]).Value == old(elems[k].Value)
      ensures old(|epool|) == 0 ==> fresh(r) && epool == []
      ensures old(|epool|) > 0 ==>
                r == old(epool[|epool| - 1]) && epool == old(epool[..|epool| - 1])
    {
      ghost var s, vs := elems, Values();
      assert at in Repr && at.next in Repr by {
        AnchorLinks(p);
      }
      var e := newElement();
      e.Value := v;
      forall j | 0 <= j < |s| ensures s[j].Value == vs[j] {
        assert s[j] != e;
      }
      r := insert(e, at, p);
      assert Values() == InsertAt(vs, p, v) by {
        ValuesOfInsert(s, p, e, vs);
      }
    }

    /**
     * The invariant (but for the length) after the node at index `i` of `s`
     * was bypassed: its old neighbours `a` and `b` now point at each other.
     */
    twostate lemma Unlinked(new s: seq<Element<E>>, i: nat, new a: Element<E>, new b: Element<E>)
      requires old(Wired()) && old(elems) == s && old(epool) == epool && old(Repr) == Repr && Distinct(s)
      requires i < |s| && a == old(s[i].prev) && b == old(s[i].next)
      requires elems == RemoveAt(s, i) && a.next == b && b.prev == a
      requires forall o: Element<E> :: old(allocated(o)) && o != a ==> o.next == old(o.next)
      requires forall o: Element<E> :: old(allocated(o)) && o != b ==> o.prev == old(o.prev)
      requires forall o: Element<E> :: old(allocated(o)) ==> o.list == old(o.list)
      ensures Wired() && s[i] !in elems
    {
      assert a == old(Pred(i)) && b == old(Succ(i));
      RemoveAtDistinct(s, i);
      forall j | 0 <= j < |elems| ensures elems[j].next == Succ(j) {
        if j + 1 < i {
          assert s[j] != a && old(s[j].next) == s[j + 1];
        } else if j >= i {
          assert s[j + 1] != a;
          assert old(s[j + 1].next) == if j + 2 < |s| then s[j + 2] else root;
        }
      }
      forall j | 0 <= j < |elems| ensures elems[j].prev == Pred(j) {
        if j < i {
          assert s[j] != b && old(s[j].prev) == if j == 0 then root else s[j - 1];
        } else if j > i {
          assert s[j + 1] != b && old(s[j + 1].prev) == s[j];
        }
      }
      forall j | 0 <= j < |elems| ensures elems[j].list == this && elems[j] in Repr {
        var j' := if j < i then j else j + 1;
        assert elems[j] == s[j'];
      }
      forall k | 0 <= k < |epool|
        ensures epool[k].next == null && epool[k].prev == null && epool[k].list == null
      {
        assert old(epool[k].next) == null && old(epool[k].list) == null;
        forall j | 0 <= j < |s| ensures s[j] != epool[k] {
          assert old(s[j].list) == this;
        }
      }
    }

    /**
     * The invariant (but for the length) after the detached node `e`, its
     * links and back-reference cleared, was offered to the pool.
     */
    twostate lemma Pooled(new e: Element<E>)
      requires old(allocated(e)) && old(Wired()) && old(e.list) == this
      requires e in Repr && e !in elems && e != root
      requires elems == old(elems) && Repr == old(Repr) && epool == PoolPush(old(epool), e)
      requires e.next == null && e.prev == null && e.list == null
      requires forall o: Element<E> :: old(allocated(o)) && o != e ==>
                 o.next == old(o.next) && o.prev == old(o.prev) && o.list == old(o.list)
      ensures Wired()
    {
      var pool := old(epool);
      forall k | 0 <= k < |pool| ensures pool[k] != e {
        assert old(pool[k].list) == null;
      }
      PoolPushDistinct(pool, e);
      forall k | 0 <= k < |epool|
        ensures epool[k] in Repr && epool[k].next == null && epool[k].prev == null && epool[k].list == null
      {
        if k < |pool| {
          assert epool[k] == pool[k];
        }
      }
    }

    /** unlink bypasses `e`, found at index `i`: its neighbours now point at each other. */
    method unlink(e: Element<E>, ghost i: nat)
      requires Wired() && i < |elems| && elems[i] == e
      modifies this`elems, e.prev`next, e.next`prev
      ensures Wired() && elems == RemoveAt(old(elems), i) && e !in elems
      ensures e.next == old(e.next) && e.prev == old(e.prev)
    {
      ghost var s := elems;
      ghost var a, b := e.prev, e.next;
      RingDistinct();
      assert a != e && b != e by {
        assert a == Pred(i) && b == Succ(i);
      }
      e.prev.next := e.next;
      e.next.prev := e.prev;
      elems := RemoveAt(s, i);
      Unlinked(s, i, a, b);
    }

    /** remove unlinks `e`, found at index `i`, clears its pointers and offers it to the pool. */
    method remove(e: Element<E>, ghost i: nat)
      requires Valid() && i < |elems| && elems[i] == e
      modifies this`len, this`elems, this`epool, e`next, e`prev, e`list, e.prev`next, e.next`prev
      ensures Valid()
      ensures elems == RemoveAt(old(elems), i) && len == old(len) - 1
      ensures e.next == null && e.prev == null && e.list == null
      ensures epool == PoolPush(old(epool), e)
    {
      unlink(e, i);
      label Unlinked:
      e.next := null;
      e.prev := null;
      e.list := null;
      poolElement(e);
      len := len - 1;
      Pooled@Unlinked(e);
    }

    /** move unlinks `e` (index `i`) and links it again after `at` (ring position `p`). */
    method move(e: Element<E>, at: Element<E>, ghost i: nat, ghost p: nat)
      requires Valid() && i < |elems| && elems[i] == e
      requires p <= |elems| && at == (if p == 0 then root else elems[p - 1])
      modifies this`elems, e`next, e`prev, e.prev`next, e.next`prev, at`next, at.next`prev
      ensures Valid()
      ensures elems == Relink(old(elems), i, p)
    {
      RingDistinct();
      if e == at {
        RelinkInPlace(elems, i, p);
        return;
      }
      ghost var q := Dest(i, p);
      assert q <= |RemoveAt(elems, i)| && at == (if q == 0 then root else RemoveAt(elems, i)[q - 1]) by {
        assert p != i + 1;
        RelinkAnchor(elems, i, p);
      }
      assert e !in epool by {
        PoolDetached();
      }
      unlink(e, i);
      link(e, at, q);
      Adopted(e);
    }

    // -------------------------------------------------------------------
    // The public operations

    /** The ring neighbours of the node at index `i` are in the footprint. */
    lemma NeighboursInRepr(i: nat)
      requires Wired() && i < |elems|
      ensures elems[i].prev == Pred(i) && elems[i].prev in Repr
      ensures elems[i].next == Succ(i) && elems[i].next in Repr
    {
    }

    /** Neighbouring nodes of the sequence are linked to each other both ways. */
    lemma Adjacent(d: nat)
      requires Valid() && d + 1 < |elems|
      ensures elems[d].next == elems[d + 1] && elems[d + 1].prev == elems[d]
    {
      assert elems[d].next == Succ(d) && elems[d + 1].prev == Pred(d + 1);
    }

    /** After relinking node `i` of `s` behind node `k`, node `k` links forward to it. */
    lemma LinkedBehind(s: seq<Element<E>>, i: nat, k: nat)
      requires Valid() && i < |s| && k < |s| && k != i && elems == Relink(s, i, k + 1)
      ensures s[k].next == s[i]
    {
      RelinkPlacesAfter(s, i, k + 1);
      Adjacent(Dest(i, k + 1) - 1);
    }

    /**
     * Remove unlinks `e` if it belongs to this list (and offers it to the
     * pool); either way it returns the value of `e`.
     */
    method Remove(e: Element<E>) returns (v: E)
      requires Valid()
      requires e.list == this ==> e in elems
      modifies Repr
      ensures Valid() && Repr == old(Repr)
      ensures v == e.Value == old(e.Value)
      ensures old(e.list) == this ==>
                && elems == RemoveAt(old(elems), IndexOf(old(elems), e))
                && Values() == RemoveAt(old(Values()), IndexOf(old(elems), e))
                && e.next == null && e.prev == null && e.list == null
                && epool == PoolPush(old(epool), e)
      ensures old(e.list) != this ==>
                elems == old(elems) && Values() == old(Values()) && epool == old(epool)
    {
      if e.list == this {
        ghost var s := elems;
        ghost var i := IndexOf(s, e);
        assert e.prev in Repr && e.next in Repr by {
          NeighboursInRepr(i);
        }
        ghost var vs := Values();
        remove(e, i);
        ValuesOfRemove(s, i, vs);
      }
      v := e.Value;
    }

    /** PushFront links a new node holding `v` at the front and returns it. */
    method PushFront(v: E) returns (r: Element<E>)
      requires Valid()
      modifies Repr
      ensures Valid() && fresh(Repr - old(Repr)) && Repr == old(Repr) + {r}
      ensures elems == [r] + old(elems) && Values() == [v] + old(Values())
      ensures r.list == this && r.Value == v
      ensures forall k :: 0 <= k < old(|elems|) ==> old(elems[k]).Value == old(elems[k].Value)
      ensures old(|epool|) == 0 ==> fresh(r) && epool == []
      ensures old(|epool|) > 0 ==>
                r == old(epool[|epool| - 1]) && epool == old(epool[..|epool| - 1])
    {
      ghost var s, vs := elems, Values();
      r := insertValue(v, root, 0);
      InsertAtFront(s, r);
      InsertAtFront(vs, v);
    }

    /** PushBack links a new node holding `v` at the back and returns it. */
    method PushBack(v: E) returns (r: Element<E>)
      requires Valid()
      modifies Repr
      ensures Valid() && fresh(Repr - old(Repr)) && Repr == old(Repr) + {r}
      ensures elems == old(elems) + [r] && Values() == old(Values()) + [v]
      ensures r.list == this && r.Value == v
      ensures forall k :: 0 <= k < old(|elems|) ==> old(elems[k]).Value == old(elems[k].Value)
      ensures old(|epool|) == 0 ==> fresh(r) && epool == []
      ensures old(|epool|) > 0 ==>
                r == old(epool[|epool| - 1]) && epool == old(epool[..|epool| - 1])
    {
      ghost var s, vs := elems, Values();
      r := insertValue(v, root.prev, |elems|);
      InsertAtBack(s, r);
      InsertAtBack(vs, v);
    }

    /**
     * InsertBefore links a new node holding `v` directly in front of `mark`
     * and returns it; if `mark` is not in this list it returns null and
     * changes nothing.
     */
    method InsertBefore(v: E, mark: Element<E>) returns (r: Element?<E>)
      requires Valid()
      requires mark.list == this ==> mark in elems
      modifies Repr
      ensures Valid() && fresh(Repr - old(Repr))
      ensures old(mark.list) == this ==>
                && r != null && r.list == this && r.Value == v && r.next == mark
                && elems == InsertAt(old(elems), IndexOf(old(elems), mark), r)
                && Values() == InsertAt(old(Values()), IndexOf(old(elems), mark), v)
      ensures old(mark.list) != this ==>
                r == null && elems == old(elems) && Values() == old(Values()) && epool == old(epool)
    {
      if mark.list != this {
        return null;
      }
      ghost var k := IndexOf(elems, mark);
      assert mark.prev == (if k == 0 then root else elems[k - 1]) by {
        NeighboursInRepr(k);
      }
      r := insertValue(v, mark.prev, k);
      assert elems[k].next == Succ(k);
    }

    /**
     * InsertAfter links a new node holding `v` directly behind `mark` and
     * returns it; if `mark` is not in this list it returns null and changes
     * nothing.
     */
    method InsertAfter(v: E, mark: Element<E>) returns (r: Element?<E>)
      requires Valid()
      requires mark.list == this ==> mark in elems
      modifies Repr
      ensures Valid() && fresh(Repr - old(Repr))
      ensures old(mark.list) == this ==>
                && r != null && r.list == this && r.Value == v && mark.next == r
                && elems == InsertAt(old(elems), IndexOf(old(elems), mark) + 1, r)
                && Values() == InsertAt(old(Values()), IndexOf(old(elems), mark) + 1, v)
      ensures old(mark.list) != this ==>
                r == null && elems == old(elems) && Values() == old(Values()) && epool == old(epool)
    {
      if mark.list != this {
        return null;
      }
      ghost var k := IndexOf(elems, mark);
      r := insertValue(v, mark, k + 1);
      assert elems[k].next == Succ(k);
    }

    /**
     * relocate is move with the facts its callers need: the frame lies in
     * Repr and the values travel with the nodes.
     */
    method relocate(e: Element<E>, at: Element<E>, ghost i: nat, ghost p: nat)
      requires Valid() && i < |elems| && elems[i] == e
      requires p <= |elems| && at == (if p == 0 then root else elems[p - 1])
      modifies Repr
      ensures Valid() && Repr == old(Repr) && epool == old(epool)
      ensures elems == Relink(old(elems), i, p)
      ensures Values() == Relink(old(Values()), i, p)
    {
      ghost var s, vs := elems, Values();
      assert e.prev in Repr && e.next in Repr && at in Repr && at.next in Repr by {
        NeighboursInRepr(i);
        AnchorLinks(p);
      }
      move(e, at, i, p);
      ValuesOfRelink(s, i, p, vs);
    }

    /** MoveToFront makes `e` the front node; if `e` is not in this list nothing changes. */
    method MoveToFront(e: Element<E>)
      requires Valid()
      requires e.list == this ==> e in elems
      modifies Repr
      ensures Valid() && Repr == old(Repr) && epool == old(epool)
      ensures old(e.list) == this ==>
                var i := IndexOf(old(elems), e);
                && elems == [e] + RemoveAt(old(elems), i)
                && Values() == [old(Values())[i]] + RemoveAt(old(Values()), i)
      ensures old(e.list) != this ==> elems == old(elems) && Values() == old(Values())
    {
      ghost var s, vs := elems, Values();
      if e.list != this || root.next == e {
        if e.list == this {
          RingDistinct();
          IndexOfDistinct(s, 0);
          RelinkInPlace(s, 0, 0);
          RelinkToFront(s, 0);
          RelinkInPlace(vs, 0, 0);
          RelinkToFront(vs, 0);
        }
        return;
      }
      ghost var i := IndexOf(s, e);
      relocate(e, root, i, 0);
      RelinkToFront(s, i);
      RelinkToFront(vs, i);
    }

    /** MoveToBack makes `e` the back node; if `e` is not in this list nothing changes. */
    method MoveToBack(e: Element<E>)
      requires Valid()
      requires e.list == this ==> e in elems
      modifies Repr
      ensures Valid() && Repr == old(Repr) && epool == old(epool)
      ensures old(e.list) == this ==>
                var i := IndexOf(old(elems), e);
                && elems == RemoveAt(old(elems), i) + [e]
                && Values() == RemoveAt(old(Values()), i) + [old(Values())[i]]
      ensures old(e.list) != this ==> elems == old(elems) && Values() == old(Values())
    {
      ghost var s, vs := elems, Values();
      if e.list != this || root.prev == e {
        if e.list == this {
          ghost var n := |s| - 1;
          RingDistinct();
          IndexOfDistinct(s, n);
          RelinkInPlace(s, n, n + 1);
          RelinkToBack(s, n);
          RelinkToBack(vs, n);
          RelinkInPlace(vs, n, n + 1);
        }
        return;
      }
      ghost var i := IndexOf(s, e);
      relocate(e, root.prev, i, |s|);
      RelinkToBack(s, i);
      RelinkToBack(vs, i);
    }

    /**
     * MoveBefore puts `e` directly in front of `mark`; if either is not in
     * this list, or they are the same node, nothing changes.
     */
    method MoveBefore(e: Element<E>, mark: Element<E>)
      requires Valid()
      requires e.list == this ==> e in elems
      requires mark.list == this ==> mark in elems
      modifies Repr
      ensures Valid() && Repr == old(Repr) && epool == old(epool)
      ensures old(e.list) == this && e != mark && old(mark.list) == this ==>
                && elems == Relink(old(elems), IndexOf(old(elems), e), IndexOf(old(elems), mark))
                && Values() == Relink(old(Values()), IndexOf(old(elems), e), IndexOf(old(elems), mark))
                && e.next == mark
      ensures !(old(e.list) == this && e != mark && old(mark.list) == this) ==>
                elems == old(elems) && Values() == old(Values())
    {
      if e.list != this || e == mark || mark.list != this {
        return;
      }
      ghost var s := elems;
      ghost var i, k := IndexOf(s, e), IndexOf(s, mark);
      assert mark.prev == (if k == 0 then root else s[k - 1]) by {
        NeighboursInRepr(k);
      }
      relocate(e, mark.prev, i, k);
      ghost var d := Dest(i, k);
      assert d + 1 < |elems| && elems[d] == e && elems[d + 1] == mark by {
        RelinkPlacesBefore(s, i, k);
      }
      Adjacent(d);
    }

    /**
     * MoveAfter puts `e` directly behind `mark`; if either is not in this
     * list, or they are the same node, nothing changes.
     */
    method MoveAfter(e: Element<E>, mark: Element<E>)
      requires Valid()
      requires e.list == this ==> e in elems
      requires mark.list == this ==> mark in elems
      modifies Repr
      ensures Valid() && Repr == old(Repr) && epool == old(epool)
      ensures old(e.list) == this && e != mark && old(mark.list) == this ==>
                && elems == Relink(old(elems), IndexOf(old(elems), e), IndexOf(old(elems), mark) + 1)
                && Values() == Relink(old(Values()), IndexOf(old(elems), e), IndexOf(old(elems), mark) + 1)
                && mark.next == e
      ensures !(old(e.list) == this && e != mark && old(mark.list) == this) ==>
                elems == old(elems) && Values() == old(Values())
    {
      if e.list != this || e == mark || mark.list != this {
        return;
      }
      ghost var s := elems;
      ghost var i, k := IndexOf(s, e), IndexOf(s, mark);
      relocate(e, mark, i, k + 1);
      LinkedBehind(s, i, k);
    }

    /** A list none of whose footprint was written is still valid, with the same nodes and values. */
    twostate lemma Undisturbed()
      requires old(Valid()) && unchanged(old(Repr))
      ensures Valid() && Repr == old(Repr) && elems == old(elems) && Values() == old(Values())
    {
    }

    /**
     * PushBackList appends copies of the values of `other`, front to back.
     * `other` may be this list: the walk stops after the original length, so
     * the copies made on the way are not copied again.  The model runs the
     * walk in copyBackSelf or copyBackFrom, depending on that aliasing.
     */
    method PushBackList(other: List<E>)
      requires Valid() && other.Valid()
      requires other == this || Repr !! other.Repr
      modifies Repr
      ensures Valid() && fresh(Repr - old(Repr))
      ensures Values() == old(Values()) + old(other.Values())
      ensures |elems| == old(|elems|) + old(|other.elems|) && elems[..old(|elems|)] == old(elems)
      ensures other != this ==>
                other.Valid() && other.elems == old(other.elems) && other.Values() == old(other.Values())
    {
      if other == this {
        copyBackSelf();
      } else {
        copyBackFrom(other);
      }
    }

    /**
     * One round of the PushBackList walk over this list: the value of the
     * original node `n - i` (n the original length) is appended, and the
     * walk goes on from the node after it.
     */
    method copyToBack(e: Element<E>, ghost s0: seq<Element<E>>, ghost vs0: seq<E>, ghost i: nat)
      returns (p: Element?<E>)
      requires Valid() && |vs0| == |s0| && 0 < i <= |s0|
      requires |elems| == |s0| + (|s0| - i) && elems[..|s0|] == s0
      requires Values() == vs0 + vs0[..|s0| - i] && e == elems[|s0| - i]
      modifies Repr
      ensures Valid() && fresh(Repr - old(Repr))
      ensures |elems| == |s0| + (|s0| - i + 1) && elems[..|s0|] == s0
      ensures Values() == vs0 + vs0[..|s0| - i + 1] && p == elems[|s0| - i + 1]
    {
      assert e.Value == vs0[|s0| - i] by {
        assert Values()[|s0| - i] == vs0[|s0| - i];
      }
      ghost var s1 := elems;
      var r := PushBack(e.Value);
      CopyBackStep(vs0, vs0, |s0| - i);
      PrefixKept(s1, r, |s0|);
      NextOf(|s0| - i);
      p := e.Next();
    }

    /** The PushBackList walk over this list itself: n rounds for the n original nodes. */
    method copyBackSelf()
      requires Valid()
      modifies Repr
      ensures Valid() && fresh(Repr - old(Repr))
      ensures Values() == old(Values()) + old(Values())
      ensures |elems| == 2 * old(|elems|) && elems[..old(|elems|)] == old(elems)
    {
      ghost var s0, vs0 := elems, Values();
      ghost var n := |s0|;
      var i, e := Len(), Front();
      while i > 0
        invariant 0 <= i <= n
        invariant Valid() && fresh(Repr - old(Repr))
        invariant |elems| == n + (n - i) && elems[..n] == s0
        invariant Values() == vs0 + vs0[..n - i]
        invariant i > 0 ==> e == elems[n - i]
        decreases i
      {
        var p := copyToBack(e, s0, vs0, i);
        i, e := i - 1, p;
      }
      assert vs0[..n] == vs0;
    }

    /**
     * One round of the PushBackList walk over another list `other`, whose
     * nodes and values are `src` and `ov`: the value of its node
     * `|src| - i` is appended to this list, and the walk goes on from the
     * node after it.
     */
    method copyToBackFrom(other: List<E>, e: Element<E>, ghost s0: seq<Element<E>>, ghost vs0: seq<E>,
                          ghost src: seq<Element<E>>, ghost ov: seq<E>, ghost i: nat)
      returns (p: Element?<E>)
      requires Valid() && other.Valid() && Repr !! other.Repr
      requires other.elems == src && other.Values() == ov && 0 < i <= |src|
      requires |elems| == |s0| + (|src| - i) && elems[..|s0|] == s0
      requires Values() == vs0 + ov[..|src| - i] && e == src[|src| - i]
      modifies Repr
      ensures Valid() && fresh(Repr - old(Repr)) && Repr !! other.Repr
      ensures other.Valid() && other.elems == src && other.Values() == ov
      ensures |elems| == |s0| + (|src| - i + 1) && elems[..|s0|] == s0
      ensures Values() == vs0 + ov[..|src| - i + 1]
      ensures p == if i > 1 then src[|src| - i + 1] else null
    {
      assert e.Value == ov[|src| - i];
      ghost var s1 := elems;
      var r := PushBack(e.Value);
      other.Undisturbed();
      CopyBackStep(vs0, ov, |src| - i);
      PrefixKept(s1, r, |s0|);
      other.NextOf(|src| - i);
      p := e.Next();
    }

    /** The PushBackList walk over a list other than this one, which it leaves untouched. */
    method copyBackFrom(other: List<E>)
      requires Valid() && other.Valid() && Repr !! other.Repr
      modifies Repr
      ensures Valid() && fresh(Repr - old(Repr))
      ensures Values() == old(Values()) + old(other.Values())
      ensures |elems| == old(|elems|) + old(|other.elems|) && elems[..old(|elems|)] == old(elems)
      ensures other.Valid() && other.elems == old(other.elems) && other.Values() == old(other.Values())
    {
      ghost var s0, vs0, src, ov := elems, Values(), other.elems, other.Values();
      ghost var n := |src|;
      var i, e := other.Len(), other.Front();
      while i > 0
        invariant 0 <= i <= n
        invariant Valid() && fresh(Repr - old(Repr)) && Repr !! other.Repr
        invariant other.Valid() && other.elems == src && other.Values() == ov
        invariant |elems| == |s0| + (n - i) && elems[..|s0|] == s0
        invariant Values() == vs0 + ov[..n - i]
        invariant i > 0 ==> e == src[n - i]
        decreases i
      {
        var p := copyToBackFrom(other, e, s0, vs0, src, ov, i);
        i, e := i - 1, p;
      }
      assert ov[..n] == ov;
    }

    /**
     * PushFrontList prepends copies of the values of `other`, keeping their
     * order, by walking `other` from the back.  `other` may be this list;
     * the walk runs in copyFrontSelf or copyFrontFrom.
     */
    method PushFrontList(other: List<E>)
      requires Valid() && other.Valid()
      requires other == this || Repr !! other.Repr
      modifies Repr
      ensures Valid() && fresh(Repr - old(Repr))
      ensures Values() == old(other.Values()) + old(Values())
      ensures |elems| == old(|other.elems|) + old(|elems|) && elems[old(|other.elems|)..] == old(elems)
      ensures other != this ==>
                other.Valid() && other.elems == old(other.elems) && other.Values() == old(other.Values())
    {
      ghost var s0 := elems;
      ghost var copies;
      if other == this {
        copies := copyFrontSelf();
      } else {
        copies := copyFrontFrom(other);
      }
      assert elems[|copies|..] == s0;
    }

    /**
     * One round of the PushFrontList walk over this list, whose original
     * nodes and values are `s0` and `vs0`: the list holds the copies of
     * nodes `i` onwards in front of `s0`; the value of node `i - 1` is
     * prepended, and the walk goes on from the node before it.
     */
    method copyToFront(e: Element<E>, ghost s0: seq<Element<E>>, ghost vs0: seq<E>,
                       ghost copies: seq<Element<E>>, ghost i: nat)
      returns (p: Element?<E>, ghost copies': seq<Element<E>>)
      requires Valid() && |vs0| == |s0| && 0 < i <= |s0|
      requires elems == copies + s0 && |copies| == |s0| - i && Values() == vs0[i..] + vs0
      requires e == elems[|s0| - 1]
      modifies Repr
      ensures Valid() && fresh(Repr - old(Repr))
      ensures elems == copies' + s0 && |copies'| == |copies| + 1 && Values() == vs0[i - 1..] + vs0
      ensures p == elems[|s0| - 1]
    {
      assert e.Value == vs0[i - 1] by {
        assert Values()[|s0| - 1] == vs0[i - 1];
      }
      var r := PushFront(e.Value);
      PrependJoin(r, copies, s0);
      PrependJoin(vs0[i - 1], vs0[i..], vs0);
      SuffixStep(vs0, i);
      copies' := [r] + copies;
      PrevOf(|s0|);
      p := e.Prev();
    }

    /** The PushFrontList walk over this list itself, from its original back node. */
    method copyFrontSelf() returns (ghost copies: seq<Element<E>>)
      requires Valid()
      modifies Repr
      ensures Valid() && fresh(Repr - old(Repr))
      ensures elems == copies + old(elems) && |copies| == old(|elems|)
      ensures Values() == old(Values()) + old(Values())
    {
      ghost var s0, vs0 := elems, Values();
      ghost var n := |s0|;
      copies := [];
      var i, e := Len(), Back();
      while i > 0
        invariant 0 <= i <= n
        invariant Valid() && fresh(Repr - old(Repr))
        invariant elems == copies + s0 && |copies| == n - i && Values() == vs0[i..] + vs0
        invariant i > 0 ==> e == elems[n - 1]
        decreases i
      {
        var p;
        p, copies := copyToFront(e, s0, vs0, copies, i);
        i, e := i - 1, p;
      }
      assert vs0[0..] == vs0;
    }

    /**
     * One round of the PushFrontList walk over another list `other`, whose
     * nodes and values are `src` and `ov`: this list holds the copies of
     * nodes `i` onwards in front of its original nodes `s0`; the value of
     * node `i - 1` is prepended as the new node `r`, and the walk goes on
     * from the node before it.
     */
    method copyToFrontFrom(other: List<E>, e: Element<E>, ghost src: seq<Element<E>>, ghost ov: seq<E>,
                           ghost s0: seq<Element<E>>, ghost vs0: seq<E>, ghost copies: seq<Element<E>>, ghost i: nat)
      returns (r: Element<E>, p: Element?<E>, ghost copies': seq<Element<E>>)
      requires Valid() && other.Valid() && Repr !! other.Repr
      requires other.elems == src && other.Values() == ov && 0 < i <= |src| && e == src[i - 1]
      requires elems == copies + s0 && Values() == ov[i..] + vs0
      modifies Repr
      ensures Valid() && fresh(Repr - old(Repr)) && Repr !! other.Repr
      ensures other.Valid() && other.elems == src && other.Values() == ov
      ensures elems == copies' + s0 && |copies'| == |copies| + 1 && Values() == ov[i - 1..] + vs0
      ensures p == if i > 1 then src[i - 2] else null
    {
      assert e.Value == ov[i - 1];
      r := PushFront(e.Value);
      other.Undisturbed();
      other.PrevOf(i - 1);
      p := e.Prev();
      PrependJoin(r, copies, s0);
      PrependJoin(ov[i - 1], ov[i..], vs0);
      SuffixStep(ov, i);
      copies' := [r] + copies;
    }

    /**
     * The PushFrontList walk over a list other than this one, which it
     * leaves untouched; `copies` are the new nodes, in front of the old ones.
     */
    method copyFrontFrom(other: List<E>) returns (ghost copies: seq<Element<E>>)
      requires Valid() && other.Valid() && Repr !! other.Repr
      modifies Repr
      ensures Valid() && fresh(Repr - old(Repr))
      ensures elems == copies + old(elems) && |copies| == old(|other.elems|)
      ensures Values() == old(other.Values()) + old(Values())
      ensures other.Valid() && other.elems == old(other.elems) && other.Values() == old(other.Values())
    {
      ghost var s0, vs0, src, ov := elems, Values(), other.elems, other.Values();
      ghost var n := |src|;
      copies := [];
      var i, e := other.Len(), other.Back();
      while i > 0
        invariant 0 <= i <= n
        invariant Valid() && fresh(Repr - old(Repr)) && Repr !! other.Repr
        invariant other.Valid() && other.elems == src && other.Values() == ov
        invariant elems == copies + s0 && |copies| == n - i && Values() == ov[i..] + vs0
        invariant i > 0 ==> e == src[i - 1]
        decreases i
      {
        var r, p;
        r, p, copies := copyToFrontFrom(other, e, src, ov, s0, vs0, copies, i);
        i, e := i - 1, p;
      }
      assert ov[0..] == ov;
    }
  }
}
