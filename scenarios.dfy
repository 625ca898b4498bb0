/**
 * Client code of the list: the front-to-back and back-to-front iteration
 * idioms of the package documentation, and short programs that exercise
 * the public operations on concrete values.  Each program states what it
 * observes through the iteration, Len, Front and Back.
 */
module Scenarios {
  import opened ListModel
  import opened LinkedList

  /** Walks the list from Front along Next until null, collecting the values. */
  method ValuesForward<E(0)>(l: List<E>) returns (vs: seq<E>)
    requires l.Valid()
    ensures vs == l.Values()
  {
    vs := [];
    var e := l.Front();
    ghost var k := 0;
    while e != null
      invariant 0 <= k <= |l.elems|
      invariant e == if k < |l.elems| then l.elems[k] else null
      invariant vs == l.Values()[..k]
      decreases |l.elems| - k
    {
      l.NextOf(k);
      vs := vs + [e.Value];
      e := e.Next();
      k := k + 1;
    }
    assert l.Values()[..k] == l.Values();
  }

  /** Walks the list from Back along Prev until null, collecting the values back to front. */
  method ValuesBackward<E(0)>(l: List<E>) returns (vs: seq<E>)
    requires l.Valid()
    ensures |vs| == |l.elems|
    ensures forall k :: 0 <= k < |vs| ==> vs[k] == l.Values()[|vs| - 1 - k]
  {
    vs := [];
    var e := l.Back();
    ghost var k := |l.elems|;
    while e != null
      invariant 0 <= k <= |l.elems|
      invariant e == if k > 0 then l.elems[k - 1] else null
      invariant |vs| == |l.elems| - k
      invariant forall j :: 0 <= j < |vs| ==> vs[j] == l.Values()[|l.elems| - 1 - j]
      decreases k
    {
      l.PrevOf(k - 1);
      vs := vs + [e.Value];
      e := e.Prev();
      k := k - 1;
    }
  }

  /** A new list holding 1, 2, 3 and its three nodes. */
  method OneTwoThree() returns (l: List<int>, a: Element<int>, b: Element<int>, c: Element<int>)
    ensures l.Valid() && l.elems == [a, b, c] && l.Values() == [1, 2, 3]
    ensures l.epool == [] && fresh(l.Repr)
  {
    l := ListOf([1, 2, 3]);
    l.NextOf(0);
    a, c := l.Front(), l.Back();
    b := a.Next();
    assert l.elems == [a, b, c];
  }

  /** Pushing 1, 2, 3 at the back: they come out in that order, 1 at the front and 3 at the back. */
  method PushThree() returns (vs: seq<int>, n: int, front: int, back: int)
    ensures vs == [1, 2, 3] && n == 3 && front == 1 && back == 3
  {
    var l := ListOf([1, 2, 3]);
    vs := ValuesForward(l);
    n := l.Len();
    var f, k := l.Front(), l.Back();
    front, back := f.Value, k.Value;
  }

  /** A new list built by pushing each value of `vs` at the front in turn: it holds `vs` reversed. */
  method ReversedOf(vs: seq<int>) returns (l: List<int>)
    ensures l.Valid() && |l.Values()| == |vs| && fresh(l.Repr)
    ensures forall k :: 0 <= k < |vs| ==> l.Values()[k] == vs[|vs| - 1 - k]
  {
    l := new List<int>();
    var k := 0;
    while k < |vs|
      invariant 0 <= k <= |vs|
      invariant l.Valid() && |l.Values()| == k && l.epool == [] && fresh(l.Repr)
      invariant forall j :: 0 <= j < k ==> l.Values()[j] == vs[k - 1 - j]
    {
      var r := l.PushFront(vs[k]);
      k := k + 1;
    }
  }

  /** Pushing 1, 2, 3 at the front reverses their order; walking backwards reverses it again. */
  method PushFrontThree() returns (forward: seq<int>, backward: seq<int>)
    ensures forward == [3, 2, 1] && backward == [1, 2, 3]
  {
    var l := ReversedOf([1, 2, 3]);
    forward := ValuesForward(l);
    backward := ValuesBackward(l);
  }

  /** Moving the back node of 1, 2, 3 to the front gives 3, 1, 2. */
  method MovedToFront() returns (l: List<int>, a: Element<int>)
    ensures l.Valid() && l.Values() == [3, 1, 2] && l.elems[1] == a && fresh(l.Repr)
  {
    var b, c;
    l, a, b, c := OneTwoThree();
    l.RingDistinct();
    IndexOfDistinct(l.elems, 2);
    l.MoveToFront(c);
    assert RemoveAt([1, 2, 3], 2) == [1, 2];
  }

  /** Moving the back node to the front keeps the length and is seen by the forward walk. */
  method MoveBackToFront() returns (vs: seq<int>, n: int)
    ensures vs == [3, 1, 2] && n == 3
  {
    var l, a := MovedToFront();
    vs := ValuesForward(l);
    n := l.Len();
  }

  /**
   * After 3, 1, 2, removing the node of 1 leaves 3, 2 of length 2, and
   * removing it again leaves the list as it was.
   */
  method RemoveAfterMove() returns (vs: seq<int>, n: int, ws: seq<int>, m: int)
    ensures vs == [3, 2] && n == 2 && ws == [3, 2] && m == 2
  {
    var l, a := MovedToFront();
    l.RingDistinct();
    IndexOfDistinct(l.elems, 1);
    var v := l.Remove(a);
    assert RemoveAt([3, 1, 2], 1) == [3, 2];
    vs := ValuesForward(l);
    n := l.Len();
    v := l.Remove(a);
    ws := ValuesForward(l);
    m := l.Len();
  }

  /** Removing the middle node of 1, 2, 3 returns 2, unlinks it and puts it in the pool. */
  method RemoveMiddle() returns (l: List<int>, b: Element<int>, v: int)
    ensures l.Valid() && l.Values() == [1, 3] && l.epool == [b] && b.list == null && fresh(l.Repr)
    ensures v == 2 && b.Value == 2
  {
    var a, c;
    l, a, b, c := OneTwoThree();
    l.RingDistinct();
    IndexOfDistinct(l.elems, 1);
    v := l.Remove(b);
    assert RemoveAt([1, 2, 3], 1) == [1, 3];
  }

  /**
   * Removing a node a second time finds that it no longer belongs to the
   * list: nothing changes, and the value it holds is still returned.
   */
  method RemoveTwice() returns (first: int, second: int, vs: seq<int>)
    ensures first == 2 && second == 2 && vs == [1, 3]
  {
    var l, b;
    l, b, first := RemoveMiddle();
    second := l.Remove(b);
    vs := ValuesForward(l);
  }

  /** The next push after a removal links the removed node again, from the pool. */
  method Recycle() returns (same: bool, vs: seq<int>)
    ensures same && vs == [7, 1, 3]
  {
    var l, b, v := RemoveMiddle();
    var r := l.PushFront(7);
    same := r == b;
    vs := ValuesForward(l);
  }

  /** A new list holding `vs`, built by pushing each value at the back in turn. */
  method ListOf(vs: seq<int>) returns (l: List<int>)
    ensures l.Valid() && l.Values() == vs && l.epool == [] && fresh(l.Repr)
  {
    l := new List<int>();
    var k := 0;
    while k < |vs|
      invariant 0 <= k <= |vs|
      invariant l.Valid() && l.Values() == vs[..k] && l.epool == [] && fresh(l.Repr)
    {
      var r := l.PushBack(vs[k]);
      assert vs[..k + 1] == vs[..k] + [vs[k]];
      k := k + 1;
    }
    assert vs[..k] == vs;
  }

  /** Two new lists holding `xs` and `ys`, sharing no node. */
  method TwoLists(xs: seq<int>, ys: seq<int>) returns (l: List<int>, m: List<int>)
    ensures l.Valid() && l.Values() == xs && m.Valid() && m.Values() == ys
    ensures l != m && l.Repr !! m.Repr && fresh(l.Repr) && fresh(m.Repr)
  {
    m := ListOf(ys);
    l := ListOf(xs);
  }

  /** Splicing a list holding 9 behind 1, 2 gives 1, 2, 9 and leaves the source list alone. */
  method Splice() returns (vs: seq<int>, ws: seq<int>)
    ensures vs == [1, 2, 9] && ws == [9]
  {
    var l, m := TwoLists([1, 2], [9]);
    l.PushBackList(m);
    vs := ValuesForward(l);
    ws := ValuesForward(m);
  }

  /** Splicing 1, 2 in front of 9 gives 1, 2, 9: the copies keep their order. */
  method SpliceFront() returns (vs: seq<int>)
    ensures vs == [1, 2, 9]
  {
    var l, m := TwoLists([9], [1, 2]);
    l.PushFrontList(m);
    vs := ValuesForward(l);
  }

  /** A list spliced onto its own back holds its values twice over. */
  method SelfSpliceBack() returns (vs: seq<int>)
    ensures vs == [1, 2, 1, 2]
  {
    var l := ListOf([1, 2]);
    l.PushBackList(l);
    vs := ValuesForward(l);
  }

  /** A list spliced onto its own front holds its values twice over. */
  method SelfSpliceFront() returns (vs: seq<int>)
    ensures vs == [1, 2, 1, 2]
  {
    var l := ListOf([1, 2]);
    l.PushFrontList(l);
    vs := ValuesForward(l);
  }

  /** Inserting 5 before the middle node of 1, 2, 3 gives 1, 5, 2, 3. */
  method InsertBeforeMiddle() returns (l: List<int>, b: Element<int>)
    ensures l.Valid() && l.Values() == [1, 5, 2, 3] && l.elems[2] == b && fresh(l.Repr)
  {
    var a, c;
    l, a, b, c := OneTwoThree();
    l.RingDistinct();
    IndexOfDistinct(l.elems, 1);
    var x := l.InsertBefore(5, b);
    assert InsertAt([1, 2, 3], 1, 5) == [1, 5, 2, 3];
  }

  /** Inserting 4 after the mark that 5 was inserted before gives 1, 5, 2, 4, 3. */
  method AroundMark() returns (vs: seq<int>)
    ensures vs == [1, 5, 2, 4, 3]
  {
    var l, b := InsertBeforeMiddle();
    l.RingDistinct();
    IndexOfDistinct(l.elems, 2);
    var y := l.InsertAfter(4, b);
    assert InsertAt([1, 5, 2, 3], 3, 4) == [1, 5, 2, 4, 3];
    vs := ValuesForward(l);
  }

  /** Moving the back node of 1, 2, 3 in front of the front node gives 3, 1, 2. */
  method MoveBackBeforeFront() returns (vs: seq<int>)
    ensures vs == [3, 1, 2]
  {
    var l, a, b, c := OneTwoThree();
    l.RingDistinct();
    IndexOfDistinct(l.elems, 0);
    IndexOfDistinct(l.elems, 2);
    l.MoveBefore(c, a);
    assert Relink([1, 2, 3], 2, 0) == [3, 1, 2];
    vs := ValuesForward(l);
  }

  /** Moving the front node of 1, 2, 3 behind the middle node gives 2, 1, 3. */
  method MovedAfterMiddle() returns (l: List<int>, a: Element<int>)
    ensures l.Valid() && l.Values() == [2, 1, 3] && l.elems[1] == a && fresh(l.Repr)
  {
    var b, c;
    l, a, b, c := OneTwoThree();
    l.RingDistinct();
    IndexOfDistinct(l.elems, 0);
    IndexOfDistinct(l.elems, 1);
    l.MoveAfter(a, b);
    assert Relink([1, 2, 3], 0, 2) == [2, 1, 3];
    assert Relink([a, b, c], 0, 2) == [b, a, c];
  }

  /** The forward walk sees 2, 1, 3, and moving a node behind itself changes nothing. */
  method MoveFrontAfterMiddle() returns (vs: seq<int>, ws: seq<int>)
    ensures vs == [2, 1, 3] && ws == [2, 1, 3]
  {
    var l, a := MovedAfterMiddle();
    vs := ValuesForward(l);
    l.MoveAfter(a, a);
    ws := ValuesForward(l);
  }

  /** Removing the front node until there is none empties the list; the removed nodes fill the pool. */
  method RemoveAll(l: List<int>)
    requires l.Valid()
    modifies l.Repr
    ensures l.Valid() && l.Values() == [] && l.Repr == old(l.Repr)
  {
    var e := l.Front();
    while e != null
      invariant l.Valid() && l.Repr == old(l.Repr)
      invariant e == if |l.elems| == 0 then null else l.elems[0]
      decreases |l.elems|
    {
      l.RingDistinct();
      IndexOfDistinct(l.elems, 0);
      var v := l.Remove(e);
      e := l.Front();
    }
  }

  /** Pushing each value of `vs` at the back, whatever the pool holds, appends exactly `vs`. */
  method PushAll(l: List<int>, vs: seq<int>)
    requires l.Valid()
    modifies l.Repr
    ensures l.Valid() && l.Values() == old(l.Values()) + vs && fresh(l.Repr - old(l.Repr))
  {
    ghost var vs0 := l.Values();
    var k := 0;
    while k < |vs|
      invariant 0 <= k <= |vs|
      invariant l.Valid() && l.Values() == vs0 + vs[..k] && fresh(l.Repr - old(l.Repr))
    {
      var r := l.PushBack(vs[k]);
      assert vs[..k + 1] == vs[..k] + [vs[k]];
      k := k + 1;
    }
    assert vs[..k] == vs;
  }

  /**
   * Recycling is invisible in the values: a list emptied by removals and
   * filled again by pushes reads the same as a new list given the same pushes.
   */
  method RecyclingTransparent(earlier: seq<int>, vs: seq<int>) returns (recycled: seq<int>, direct: seq<int>)
    ensures recycled == direct == vs
  {
    var l := ListOf(earlier);
    RemoveAll(l);
    PushAll(l, vs);
    recycled := ValuesForward(l);
    var m := ListOf(vs);
    direct := ValuesForward(m);
  }

  /** Pushing a value and removing the node it returned restores the values. */
  method PushRemove(l: List<int>, v: int) returns (w: int)
    requires l.Valid()
    modifies l.Repr
    ensures l.Valid() && l.Values() == old(l.Values()) && w == v
  {
    ghost var vs := l.Values();
    var r := l.PushBack(v);
    l.RingDistinct();
    IndexOfDistinct(l.elems, |l.elems| - 1);
    w := l.Remove(r);
    assert RemoveAt(vs + [v], |vs|) == vs;
  }
}
