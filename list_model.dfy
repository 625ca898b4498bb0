/**
 * The abstract view of a doubly-linked list: the sequence of its real
 * (non-sentinel) nodes, front to back.  Every pointer-rewriting primitive of
 * the list is specified here as a function on that sequence, and the
 * properties the list operations promise are proved once, as lemmas, on
 * these functions.
 *
 * Ring positions: a node is linked "after" some anchor.  Position 0 names the
 * sentinel (so linking after it makes the node the front), position j + 1
 * names the node at index j.
 */
module ListModel {

  /** Capacity of the free-list of recycled nodes. */
  const PoolSize: nat := 4

  /** No node occurs twice. */
  ghost predicate Distinct<T>(s: seq<T>) {
    forall i, j :: 0 <= i < |s| && 0 <= j < |s| && s[i] == s[j] ==> i == j
  }

  /** A position of `x` in `s`; in a sequence without duplicates it is the only one. */
  ghost function IndexOf<T>(s: seq<T>, x: T): (i: nat)
    requires x in s
    ensures i < |s| && s[i] == x
  {
    var i :| 0 <= i < |s| && s[i] == x; i
  }

  /** In a sequence without duplicates, the index of the node at `k` is `k`. */
  lemma IndexOfDistinct<T>(s: seq<T>, k: nat)
    requires Distinct(s) && k < |s|
    ensures IndexOf(s, s[k]) == k
  {
  }

  /** `x` linked after ring position `k`: it becomes the node at index `k`. */
  function InsertAt<T>(s: seq<T>, k: nat, x: T): (r: seq<T>)
    requires k <= |s|
    ensures |r| == |s| + 1 && r[k] == x
    ensures forall j {:trigger r[j]} :: 0 <= j < k ==> r[j] == s[j]
    ensures forall j {:trigger r[j]} :: k < j < |r| ==> r[j] == s[j - 1]
  {
    s[..k] + [x] + s[k..]
  }

  /** The node at index `k` unlinked. */
  function RemoveAt<T>(s: seq<T>, k: nat): (r: seq<T>)
    requires k < |s|
    ensures |r| == |s| - 1
    ensures forall j {:trigger r[j]} :: 0 <= j < k ==> r[j] == s[j]
    ensures forall j {:trigger r[j]} :: k <= j < |r| ==> r[j] == s[j + 1]
  {
    s[..k] + s[k + 1..]
  }

  /**
   * Where the node at index `i` lands when it is relinked after ring
   * position `p`: positions behind it shift down by one once it is unlinked.
   */
  function Dest(i: nat, p: nat): nat {
    if p <= i then p else p - 1
  }

  /** The node at index `i` unlinked and linked again after ring position `p`. */
  function Relink<T>(s: seq<T>, i: nat, p: nat): (r: seq<T>)
    requires i < |s| && p <= |s|
    ensures |r| == |s|
  {
    InsertAt(RemoveAt(s, i), Dest(i, p), s[i])
  }

  /** The index in `s` whose node ends up at index `t` of `Relink(s, i, p)`. */
  function RelinkSource(i: nat, p: nat, t: nat): nat {
    var d := Dest(i, p);
    if t == d then i
    else
      var u := if t < d then t else t - 1;  // index in RemoveAt(s, i)
      if u < i then u else u + 1
  }

  /** Free-list after a removed node is offered: accepted unless full. */
  function PoolPush<T>(pool: seq<T>, e: T): (r: seq<T>)
    requires |pool| <= PoolSize
    ensures |r| <= PoolSize
    ensures |r| == if |pool| + 1 < PoolSize then |pool| + 1 else PoolSize
    ensures r[..|pool|] == pool
    ensures |pool| < PoolSize ==> r[|pool|] == e
  {
    if |pool| == PoolSize then pool else pool + [e]
  }

  // ---------------------------------------------------------------------
  // Lemmas about the primitives

  /** Linking a node not yet in the list keeps nodes unique. */
  lemma InsertAtDistinct<T>(s: seq<T>, k: nat, x: T)
    requires k <= |s| && Distinct(s) && x !in s
    ensures Distinct(InsertAt(s, k, x))
  {
    var r := InsertAt(s, k, x);
    forall a, b | 0 <= a < |r| && 0 <= b < |r| && r[a] == r[b] ensures a == b {
      if a != k && b != k {
        var a' := if a < k then a else a - 1;
        var b' := if b < k then b else b - 1;
        assert r[a] == s[a'] && r[b] == s[b'];
      }
    }
  }

  /** Linking after the sentinel prepends. */
  lemma InsertAtFront<T>(s: seq<T>, x: T)
    ensures InsertAt(s, 0, x) == [x] + s
  {
    assert s[..0] == [] && s[0..] == s;
  }

  /** Linking after the last node appends. */
  lemma InsertAtBack<T>(s: seq<T>, x: T)
    ensures InsertAt(s, |s|, x) == s + [x]
  {
    assert s[..|s|] == s && s[|s|..] == [];
  }

  /** Copying one more value of `b` to the back of `a + b[..k]`. */
  lemma CopyBackStep<T>(a: seq<T>, b: seq<T>, k: nat)
    requires k < |b|
    ensures (a + b[..k]) + [b[k]] == a + b[..k + 1]
  {
    assert b[..k + 1] == b[..k] + [b[k]];
  }

  /** Copying one more value of `b`, walking backwards, to the front of `b[k..] + a`. */
  lemma CopyFrontStep<T>(a: seq<T>, b: seq<T>, k: nat)
    requires 0 < k <= |b|
    ensures [b[k - 1]] + (b[k..] + a) == b[k - 1..] + a
  {
    assert b[k - 1..] == [b[k - 1]] + b[k..];
  }

  /** Prepending to a concatenation prepends to its first part. */
  lemma PrependJoin<T>(x: T, a: seq<T>, b: seq<T>)
    ensures [x] + (a + b) == ([x] + a) + b
  {
  }

  /** A suffix one longer is the suffix with its first element prepended. */
  lemma SuffixStep<T>(b: seq<T>, k: nat)
    requires 0 < k <= |b|
    ensures [b[k - 1]] + b[k..] == b[k - 1..]
  {
  }

  /** Appending leaves a prefix alone. */
  lemma PrefixKept<T>(s: seq<T>, x: T, m: nat)
    requires m <= |s|
    ensures (s + [x])[..m] == s[..m]
  {
  }

  /** Prepending shifts every suffix by one. */
  lemma SuffixKept<T>(x: T, s: seq<T>, m: nat)
    requires m <= |s|
    ensures ([x] + s)[m + 1..] == s[m..]
  {
  }

  /** Linking adds exactly the linked node. */
  lemma InsertAtMultiset<T>(s: seq<T>, k: nat, x: T)
    requires k <= |s|
    ensures multiset(InsertAt(s, k, x)) == multiset(s) + multiset{x}
  {
    var r := InsertAt(s, k, x);
    calc {
      multiset(r);
      multiset(s[..k] + [x] + s[k..]);
      multiset(s[..k]) + multiset{x} + multiset(s[k..]);
      { assert s == s[..k] + s[k..]; }
      multiset(s) + multiset{x};
    }
  }

  /** Unlinking keeps nodes unique, and the unlinked node is gone. */
  lemma RemoveAtDistinct<T>(s: seq<T>, k: nat)
    requires k < |s| && Distinct(s)
    ensures Distinct(RemoveAt(s, k))
    ensures s[k] !in RemoveAt(s, k)
  {
    var r := RemoveAt(s, k);
    forall a, b | 0 <= a < |r| && 0 <= b < |r| && r[a] == r[b] ensures a == b {
      var a' := if a < k then a else a + 1;
      var b' := if b < k then b else b + 1;
      assert r[a] == s[a'] && r[b] == s[b'];
    }
    forall j | 0 <= j < |r| ensures r[j] != s[k] {
      var j' := if j < k then j else j + 1;
      assert r[j] == s[j'] && j' != k;
    }
  }

  /** Unlinking removes exactly the unlinked node. */
  lemma RemoveAtMultiset<T>(s: seq<T>, k: nat)
    requires k < |s|
    ensures multiset(RemoveAt(s, k)) == multiset(s) - multiset{s[k]}
  {
    var r := RemoveAt(s, k);
    calc {
      multiset(s);
      { assert s == s[..k] + [s[k]] + s[k + 1..]; }
      multiset(s[..k]) + multiset{s[k]} + multiset(s[k + 1..]);
      multiset(r) + multiset{s[k]};
    }
  }

  /** Offering a node that is not pooled yet keeps the pool free of duplicates. */
  lemma PoolPushDistinct<T>(pool: seq<T>, e: T)
    requires |pool| <= PoolSize && Distinct(pool) && e !in pool
    ensures Distinct(PoolPush(pool, e))
  {
    if |pool| < PoolSize {
      var r := pool + [e];
      forall x, y | 0 <= x < |r| && 0 <= y < |r| && r[x] == r[y] ensures x == y {
        if x < |pool| && y < |pool| {
          assert r[x] == pool[x] && r[y] == pool[y];
        }
      }
    }
  }

  /** Push then remove of the pushed node: the sequence is back where it was. */
  lemma RemoveInsertRoundTrip<T>(s: seq<T>, k: nat, x: T)
    requires k <= |s|
    ensures RemoveAt(InsertAt(s, k, x), k) == s
  {
    var r := RemoveAt(InsertAt(s, k, x), k);
    forall j | 0 <= j < |s| ensures r[j] == s[j] {
      if j >= k {
        assert r[j] == InsertAt(s, k, x)[j + 1];
      }
    }
  }

  /** Unlink then relink at the same place: the sequence is unchanged. */
  lemma InsertRemoveRoundTrip<T>(s: seq<T>, k: nat)
    requires k < |s|
    ensures InsertAt(RemoveAt(s, k), k, s[k]) == s
  {
    var u := RemoveAt(s, k);
    var r := InsertAt(u, k, s[k]);
    forall j | 0 <= j < |s| ensures r[j] == s[j] {
      if j > k {
        assert r[j] == u[j - 1];
      }
    }
  }

  /** Relinking after the node itself or after its predecessor changes nothing. */
  lemma RelinkInPlace<T>(s: seq<T>, i: nat, p: nat)
    requires i < |s| && (p == i || p == i + 1)
    ensures Relink(s, i, p) == s
  {
    InsertRemoveRoundTrip(s, i);
  }

  /** Index-by-index description of a relink. */
  lemma RelinkAt<T>(s: seq<T>, i: nat, p: nat, t: nat)
    requires i < |s| && p <= |s| && t < |s|
    ensures RelinkSource(i, p, t) < |s|
    ensures Relink(s, i, p)[t] == s[RelinkSource(i, p, t)]
  {
    var d := Dest(i, p);
    var u := RemoveAt(s, i);
    if t < d {
      assert Relink(s, i, p)[t] == u[t];
    } else if t > d {
      assert Relink(s, i, p)[t] == u[t - 1];
    }
  }

  /** A relink is a permutation: same length, same nodes, still unique. */
  lemma RelinkPermutes<T>(s: seq<T>, i: nat, p: nat)
    requires i < |s| && p <= |s| && Distinct(s)
    ensures multiset(Relink(s, i, p)) == multiset(s)
    ensures Distinct(Relink(s, i, p))
  {
    RemoveAtDistinct(s, i);
    RemoveAtMultiset(s, i);
    var u := RemoveAt(s, i);
    InsertAtDistinct(u, Dest(i, p), s[i]);
    InsertAtMultiset(u, Dest(i, p), s[i]);
    assert s[i] in multiset(s);
    assert multiset(s) - multiset{s[i]} + multiset{s[i]} == multiset(s);
  }

  /**
   * After a relink the moved node sits right after its anchor: at the front
   * when the anchor is the sentinel, directly behind the anchor node otherwise.
   */
  lemma RelinkPlacesAfter<T>(s: seq<T>, i: nat, p: nat)
    requires i < |s| && p <= |s| && p != i + 1
    ensures Dest(i, p) < |s|
    ensures Relink(s, i, p)[Dest(i, p)] == s[i]
    ensures p == 0 ==> Dest(i, p) == 0
    ensures p > 0 ==> Dest(i, p) > 0 && Relink(s, i, p)[Dest(i, p) - 1] == s[p - 1]
  {
    var u := RemoveAt(s, i);
    if p > 0 {
      if p <= i {
        assert u[p - 1] == s[p - 1];
      } else {
        assert u[p - 2] == s[p - 1];
      }
    }
  }

  /**
   * The anchor of a relink, seen in the sequence with the node unlinked:
   * ring position `p` of `s` is ring position `Dest(i, p)` of `RemoveAt(s, i)`.
   */
  lemma RelinkAnchor<T>(s: seq<T>, i: nat, p: nat)
    requires i < |s| && p <= |s| && p != i + 1
    ensures Dest(i, p) <= |RemoveAt(s, i)|
    ensures Dest(i, p) == 0 <==> p == 0
    ensures p > 0 ==> RemoveAt(s, i)[Dest(i, p) - 1] == s[p - 1]
  {
  }

  /** Apart from the moved node, the relative order of all nodes is unchanged. */
  lemma RelinkKeepsOthers<T>(s: seq<T>, i: nat, p: nat)
    requires i < |s| && p <= |s|
    ensures RemoveAt(Relink(s, i, p), Dest(i, p)) == RemoveAt(s, i)
  {
    RemoveInsertRoundTrip(RemoveAt(s, i), Dest(i, p), s[i]);
  }

  /**
   * Relinking after the ring position just before the node at index `p`
   * (some other node) puts the moved node directly in front of that node.
   */
  lemma RelinkPlacesBefore<T>(s: seq<T>, i: nat, p: nat)
    requires i < |s| && p < |s| && p != i
    ensures Dest(i, p) + 1 < |s|
    ensures Relink(s, i, p)[Dest(i, p)] == s[i]
    ensures Relink(s, i, p)[Dest(i, p) + 1] == s[p]
  {
    var u := RemoveAt(s, i);
    if p == i + 1 {
      RelinkInPlace(s, i, p);
    } else if p < i {
      assert Relink(s, i, p)[p + 1] == u[p];
    } else {
      assert Relink(s, i, p)[p] == u[p - 1];
    }
  }

  /** Relinking after the sentinel makes the node the front. */
  lemma RelinkToFront<T>(s: seq<T>, i: nat)
    requires i < |s|
    ensures Relink(s, i, 0) == [s[i]] + RemoveAt(s, i)
  {
    InsertAtFront(RemoveAt(s, i), s[i]);
  }

  /** Relinking after the last node makes the node the back. */
  lemma RelinkToBack<T>(s: seq<T>, i: nat)
    requires i < |s|
    ensures Relink(s, i, |s|) == RemoveAt(s, i) + [s[i]]
  {
    InsertAtBack(RemoveAt(s, i), s[i]);
  }
}
