/** What Insert, Remove and Value promise, proved on the tree model:
    lookups before and after, the count invariant, pruning, and Remove undoing Insert. */
module TrieFacts {
  import opened Keys
  import opened TrieModel

  // ---------------------------------------------------------------------------
  // Counts

  lemma {:induction false} SumNonNeg(c: seq<Tree>)
    requires forall k :: 0 <= k < |c| ==> Count(c[k]) >= 0
    ensures SumCounts(c) >= 0
    decreases |c|
  {
    if c != [] {
      SumNonNeg(c[..|c| - 1]);
    }
  }

  /** The count invariant implies the count bound. */
  lemma {:induction false} CountedAtLeast(t: Tree)
    requires Counted(t)
    ensures CountsAtLeast(t)
  {
    if t.Node? {
      forall k | 0 <= k < |t.child|
        ensures CountsAtLeast(t.child[k])
      {
        CountedAtLeast(t.child[k]);
      }
    }
  }

  /** Under the count bound no count is negative. */
  lemma {:induction false} CountNonNeg(t: Tree)
    requires CountsAtLeast(t)
    ensures Count(t) >= 0
  {
    if t.Node? {
      forall k | 0 <= k < |t.child|
        ensures Count(t.child[k]) >= 0
      {
        CountNonNeg(t.child[k]);
      }
      SumNonNeg(t.child);
    }
  }

  /** A sum of non-negative counts is zero only when every count is. */
  lemma {:induction false} SumZero(c: seq<Tree>, k: int)
    requires forall m :: 0 <= m < |c| ==> Count(c[m]) >= 0
    requires SumCounts(c) == 0 && 0 <= k < |c|
    ensures Count(c[k]) == 0
    decreases |c|
  {
    SumNonNeg(c[..|c| - 1]);
    if k < |c| - 1 {
      assert c[..|c| - 1][k] == c[k];
      SumZero(c[..|c| - 1], k);
    }
  }

  /** Replacing one child changes the sum by the difference of the two counts. */
  lemma {:induction false} SumUpdate(c: seq<Tree>, i: int, x: Tree)
    requires 0 <= i < |c|
    ensures SumCounts(c[i := x]) == SumCounts(c) - Count(c[i]) + Count(x)
    decreases |c|
  {
    var last := |c| - 1;
    if i == last {
      assert c[i := x][..last] == c[..last];
    } else {
      assert c[i := x][..last] == c[..last][i := x];
      SumUpdate(c[..last], i, x);
    }
  }

  lemma {:induction false} SumAllNil(c: seq<Tree>)
    requires forall k :: 0 <= k < |c| ==> c[k] == Nil
    ensures SumCounts(c) == 0
    decreases |c|
  {
    if c != [] {
      SumAllNil(c[..|c| - 1]);
    }
  }

  /** A fresh node satisfies the invariant: MakeEmpty starts from a valid trie. */
  lemma EmptyNodeInv()
    ensures Inv(EmptyNode()) && Reachable(EmptyNode()) && Count(EmptyNode()) == 0
  {
    SumAllNil(EmptyNode().child);
  }

  /** A trie whose root counts nothing is exactly a fresh node: no value, no links. */
  lemma {:induction false} EmptyIsFresh(t: Tree)
    requires Inv(t) && t.numValues == 0
    ensures t == EmptyNode()
  {
    CountedAtLeast(t);
    forall k | 0 <= k < 26
      ensures Count(t.child[k]) >= 0
    {
      CountNonNeg(t.child[k]);
    }
    SumNonNeg(t.child);
    forall k | 0 <= k < 26
      ensures t.child[k] == Nil
    {
      SumZero(t.child, k);
    }
    assert t.child == EmptyNode().child;
  }

  /** Under the count bound a subtree that counts nothing holds no value. */
  lemma {:induction false} ZeroCountHoldsNothing(t: Tree, s: string)
    requires Wf(t) && CountsAtLeast(t) && Count(t) == 0 && IsKey(s)
    ensures Lookup(t, s) == 0
    decreases s
  {
    if t.Node? {
      forall k | 0 <= k < 26
        ensures Count(t.child[k]) >= 0
      {
        CountNonNeg(t.child[k]);
      }
      SumNonNeg(t.child);
      if s != [] {
        var i := Idx(s[0]);
        SumZero(t.child, i);
        ZeroCountHoldsNothing(t.child[i], s[1..]);
      }
    }
  }

  // ---------------------------------------------------------------------------
  // Value

  /** Value returns the value of the node the key reaches, or the default when the
      descent falls off a missing link. */
  lemma {:induction false} LookupIsDescend(t: Tree, s: string)
    requires Wf(t) && IsKey(s)
    ensures Lookup(t, s) == if Descend(t, s).Nil? then 0 else Descend(t, s).value
    decreases s
  {
    if t.Node? && s != [] {
      LookupIsDescend(t.child[Idx(s[0])], s[1..]);
    }
  }

  /** As soon as a link on the key's path is missing, Value gives the default. */
  lemma {:induction false} MissingLinkMeansDefault(t: Tree, s: string, n: nat)
    requires Wf(t) && IsKey(s) && n <= |s| && Descend(t, s[..n]).Nil?
    ensures Lookup(t, s) == 0
    decreases s
  {
    if t.Node? {
      assert n != 0;
      assert s[..n][0] == s[0] && s[..n][1..] == s[1..][..n - 1];
      MissingLinkMeansDefault(t.child[Idx(s[0])], s[1..], n - 1);
    }
  }

  /** Descending one more letter from the node a prefix reaches. */
  lemma {:induction false} DescendStep(t: Tree, s: string, n: nat)
    requires Wf(t) && IsKey(s) && n < |s|
    ensures var d := Descend(t, s[..n]);
      Descend(t, s[..n + 1]) == if d.Nil? then Nil else d.child[Idx(s[n])]
    decreases s
  {
    if t.Node? && n > 0 {
      assert s[..n][1..] == s[1..][..n - 1];
      assert s[..n + 1][1..] == s[1..][..n];
      DescendStep(t.child[Idx(s[0])], s[1..], n - 1);
    }
  }

  // ---------------------------------------------------------------------------
  // Insert

  /** Insert below a missing link always succeeds and leaves a chain counting one value. */
  lemma {:induction false} InsertNilSucceeds(s: string, v: int)
    requires IsKey(s)
    ensures Insert(Nil, s, v).0 && Insert(Nil, s, v).1.numValues == 1
    decreases s
  {
    if s != [] {
      InsertNilSucceeds(s[1..], v);
    }
  }

  /** Insert succeeds exactly when the key holds the default; it then stores v and
      counts one more value; a refused Insert changes nothing. */
  lemma {:induction false} InsertLookup(t: Tree, s: string, v: int)
    requires Wf(t) && IsKey(s)
    ensures var r := Insert(t, s, v);
      && (r.0 <==> Lookup(t, s) == 0)
      && Lookup(r.1, s) == (if r.0 then v else Lookup(t, s))
      && Count(r.1) == Count(t) + (if r.0 then 1 else 0)
      && (!r.0 ==> r.1 == t)
    decreases s
  {
    if s != [] {
      var n := if t.Nil? then EmptyNode() else t;
      var i := Idx(s[0]);
      InsertLookup(n.child[i], s[1..], v);
      if !Insert(n.child[i], s[1..], v).0 {
        assert n.child[i := n.child[i]] == n.child;
      }
    }
  }

  /** Insert leaves the value of every other key as it was. */
  lemma {:induction false} InsertOther(t: Tree, s: string, v: int, s2: string)
    requires Wf(t) && IsKey(s) && IsKey(s2) && Fold(s) != Fold(s2)
    ensures Lookup(Insert(t, s, v).1, s2) == Lookup(t, s2)
    decreases s
  {
    var n := if t.Nil? then EmptyNode() else t;
    if s != [] && s2 != [] {
      FoldDiffers(s, s2);
      var i := Idx(s[0]);
      if i == Idx(s2[0]) {
        InsertOther(n.child[i], s[1..], v, s2[1..]);
      }
    }
  }

  /** Insert of a non-default value keeps the count invariant. */
  lemma {:induction false} InsertCounted(t: Tree, s: string, v: int)
    requires Wf(t) && Counted(t) && IsKey(s) && v != 0
    ensures Counted(Insert(t, s, v).1)
    decreases s
  {
    var n := if t.Nil? then EmptyNode() else t;
    EmptyNodeInv();
    if s != [] {
      var i := Idx(s[0]);
      var sub := Insert(n.child[i], s[1..], v);
      InsertCounted(n.child[i], s[1..], v);
      InsertLookup(n.child[i], s[1..], v);
      SumUpdate(n.child, i, sub.1);
      var r := Insert(t, s, v).1;
      assert r.child == n.child[i := sub.1];
      forall k | 0 <= k < |r.child|
        ensures Counted(r.child[k])
      {
      }
    }
  }

  /** Insert keeps every node below the root counting at least one value. */
  lemma {:induction false} InsertPruned(t: Tree, s: string, v: int)
    requires Wf(t) && Pruned(t) && IsKey(s)
    ensures Pruned(Insert(t, s, v).1)
    decreases s
  {
    var n := if t.Nil? then EmptyNode() else t;
    if s != [] {
      var i := Idx(s[0]);
      InsertPruned(n.child[i], s[1..], v);
      InsertLookup(n.child[i], s[1..], v);
      if n.child[i].Nil? {
        InsertNilSucceeds(s[1..], v);
      }
    }
  }

  /** Insert of any value, the default included, keeps the count bound. */
  lemma {:induction false} InsertAtLeast(t: Tree, s: string, v: int)
    requires Wf(t) && CountsAtLeast(t) && IsKey(s)
    ensures CountsAtLeast(Insert(t, s, v).1)
    decreases s
  {
    var n := if t.Nil? then EmptyNode() else t;
    EmptyNodeInv();
    if s != [] {
      var i := Idx(s[0]);
      var sub := Insert(n.child[i], s[1..], v);
      InsertAtLeast(n.child[i], s[1..], v);
      InsertLookup(n.child[i], s[1..], v);
      SumUpdate(n.child, i, sub.1);
      var r := Insert(t, s, v).1;
      assert r.child == n.child[i := sub.1];
      forall k | 0 <= k < |r.child|
        ensures CountsAtLeast(r.child[k])
      {
      }
    }
  }

  /** Insert of any value keeps a reachable trie reachable. */
  lemma InsertReachable(t: Tree, s: string, v: int)
    requires Reachable(t) && IsKey(s)
    ensures Reachable(Insert(t, s, v).1)
  {
    InsertAtLeast(t, s, v);
    InsertPruned(t, s, v);
  }

  /** Insert of a non-default value preserves the trie invariant. */
  lemma InsertInv(t: Tree, s: string, v: int)
    requires Inv(t) && IsKey(s) && v != 0
    ensures Inv(Insert(t, s, v).1)
  {
    InsertCounted(t, s, v);
    InsertPruned(t, s, v);
  }

  // ---------------------------------------------------------------------------
  // Remove

  /** Remove succeeds exactly when the key holds a value; afterwards the key holds the
      default, and the count drops by one on success. */
  lemma {:induction false} RemoveLookup(t: Tree, s: string)
    requires Wf(t) && IsKey(s)
    ensures var r := Remove(t, s);
      && (r.0 <==> Lookup(t, s) != 0)
      && Lookup(r.1, s) == 0
      && Count(r.1) == Count(t) - (if r.0 then 1 else 0)
    decreases s
  {
    if t.Node? && s != [] {
      RemoveLookup(t.child[Idx(s[0])], s[1..]);
    }
  }

  /** Remove keeps the count invariant. */
  lemma {:induction false} RemoveCounted(t: Tree, s: string)
    requires Wf(t) && Counted(t) && IsKey(s)
    ensures Counted(Remove(t, s).1)
    decreases s
  {
    if t.Node? && s != [] {
      var i := Idx(s[0]);
      var sub := Remove(t.child[i], s[1..]);
      RemoveCounted(t.child[i], s[1..]);
      RemoveLookup(t.child[i], s[1..]);
      if sub.0 {
        var x := if sub.1.numValues == 0 then Nil else sub.1;
        SumUpdate(t.child, i, x);
        var r := Remove(t, s).1;
        assert r.child == t.child[i := x];
        forall k | 0 <= k < |r.child|
          ensures Counted(r.child[k])
        {
        }
      }
    }
  }

  /** Remove keeps the count bound. */
  lemma {:induction false} RemoveAtLeast(t: Tree, s: string)
    requires Wf(t) && CountsAtLeast(t) && IsKey(s)
    ensures CountsAtLeast(Remove(t, s).1)
    decreases s
  {
    if t.Node? && s != [] {
      var i := Idx(s[0]);
      var sub := Remove(t.child[i], s[1..]);
      RemoveAtLeast(t.child[i], s[1..]);
      RemoveLookup(t.child[i], s[1..]);
      if sub.0 {
        var x := if sub.1.numValues == 0 then Nil else sub.1;
        SumUpdate(t.child, i, x);
        var r := Remove(t, s).1;
        assert r.child == t.child[i := x];
        forall k | 0 <= k < |r.child|
          ensures CountsAtLeast(r.child[k])
        {
        }
      }
    }
  }

  /** Remove unlinks every child on the path whose count reaches zero, so no node below
      the root is left counting nothing. */
  lemma {:induction false} RemovePruned(t: Tree, s: string)
    requires Wf(t) && CountsAtLeast(t) && Pruned(t) && IsKey(s)
    ensures Pruned(Remove(t, s).1)
    decreases s
  {
    if t.Node? && s != [] {
      var i := Idx(s[0]);
      var sub := Remove(t.child[i], s[1..]);
      RemovePruned(t.child[i], s[1..]);
      RemoveAtLeast(t.child[i], s[1..]);
      CountNonNeg(sub.1);
    }
  }

  /** Remove preserves the trie invariant. */
  lemma RemoveInv(t: Tree, s: string)
    requires Inv(t) && IsKey(s)
    ensures Inv(Remove(t, s).1)
  {
    CountedAtLeast(t);
    RemoveCounted(t, s);
    RemovePruned(t, s);
  }

  /** Remove keeps a reachable trie reachable. */
  lemma RemoveReachable(t: Tree, s: string)
    requires Reachable(t) && IsKey(s)
    ensures Reachable(Remove(t, s).1)
  {
    RemoveAtLeast(t, s);
    RemovePruned(t, s);
  }

  /** Remove leaves the value of every other key as it was: a child it unlinks held
      nothing but the removed key. */
  lemma {:induction false} RemoveOther(t: Tree, s: string, s2: string)
    requires Wf(t) && CountsAtLeast(t) && IsKey(s) && IsKey(s2) && Fold(s) != Fold(s2)
    ensures Lookup(Remove(t, s).1, s2) == Lookup(t, s2)
    decreases s
  {
    if t.Node? && s != [] && s2 != [] {
      FoldDiffers(s, s2);
      var i := Idx(s[0]);
      if i == Idx(s2[0]) {
        var sub := Remove(t.child[i], s[1..]);
        RemoveOther(t.child[i], s[1..], s2[1..]);
        if sub.0 && sub.1.numValues == 0 {
          RemoveAtLeast(t.child[i], s[1..]);
          ZeroCountHoldsNothing(sub.1, s2[1..]);
        }
      }
    }
  }

  // ---------------------------------------------------------------------------
  // Remove undoes Insert

  lemma {:induction false} RemoveUndoesInsertNil(s: string, v: int)
    requires IsKey(s) && v != 0
    ensures var r := Remove(Insert(Nil, s, v).1, s);
      r.0 && r.1.Node? && r.1.numValues == 0
    decreases s
  {
    if s != [] {
      RemoveUndoesInsertNil(s[1..], v);
    }
  }

  /** Removing a key just inserted gives back exactly the trie before the Insert:
      the nodes Insert created are unlinked again and every count is restored. */
  lemma {:induction false} RemoveUndoesInsert(t: Tree, s: string, v: int)
    requires Wf(t) && t.Node? && Pruned(t) && IsKey(s) && v != 0 && Insert(t, s, v).0
    ensures Remove(Insert(t, s, v).1, s) == (true, t)
    decreases s
  {
    if s != [] {
      var i := Idx(s[0]);
      var c := t.child[i];
      if c.Nil? {
        RemoveUndoesInsertNil(s[1..], v);
      } else {
        RemoveUndoesInsert(c, s[1..], v);
      }
      assert t.child[i := Insert(c, s[1..], v).1][i := c] == t.child;
    }
  }

  /** Insert accepts the default value 0 as a value: the key is counted, yet Value still
      reports it absent and Remove refuses it, so the count invariant no longer holds. */
  lemma ZeroInsertDrift()
    ensures var r := Insert(EmptyNode(), "a", 0);
      && r.0 && r.1.numValues == 1 && Lookup(r.1, "a") == 0
      && !Remove(r.1, "a").0 && !Counted(r.1)
  {
    var r := Insert(EmptyNode(), "a", 0);
    var a := r.1.child[0];
    assert a == Node(0, 1, seq(26, _ => Nil));
    SumAllNil(a.child);
    assert !Counted(a);
  }
}
