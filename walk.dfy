/** What Autocomplete promises, proved on the tree model: the walk lists exactly the
    stored keys that StringCompare accepts, in increasing lexicographic order, and with
    the empty prefix it lists as many keys as the root counts. */
module WalkFacts {
  import opened Keys
  import opened TrieModel

  // ---------------------------------------------------------------------------
  // Shape: every listed key extends the key of the node it was found under

  lemma {:induction false} WalkShape(t: Tree, p: string, key: string)
    requires Wf(t)
    ensures forall x :: x in Walk(t, p, key) ==>
      |key| <= |x| && x[..|key|] == key && AllLower(x[|key|..])
    decreases t, 1
  {
    if t.Node? {
      ChildrenShape(t, p, key, 26);
    }
  }

  /** The first n children list keys one letter longer than `key` at least, whose next
      letter selects one of those n slots. */
  lemma {:induction false} ChildrenShape(t: Tree, p: string, key: string, n: nat)
    requires Wf(t) && t.Node? && n <= 26
    ensures forall x :: x in WalkChildren(t, p, key, n) ==>
      && |key| < |x| && x[..|key|] == key && AllLower(x[|key|..])
      && IsLower(x[|key|]) && Idx(x[|key|]) < n
    decreases t, 0, n
  {
    if n > 0 {
      var k := n - 1;
      var key' := key + [Letter(k)];
      ChildrenShape(t, p, key, k);
      WalkShape(t.child[k], p, key');
      forall x | x in Walk(t.child[k], p, key')
        ensures && |key| < |x| && x[..|key|] == key && AllLower(x[|key|..])
                && IsLower(x[|key|]) && Idx(x[|key|]) < n
      {
        assert x[..|key|] == x[..|key'|][..|key|];
        assert x[|key|] == x[..|key'|][|key|] == Letter(k);
        assert x[|key|..] == [x[|key|]] + x[|key'|..];
      }
    }
  }

  // ---------------------------------------------------------------------------
  // Order

  lemma SortedConcat(a: seq<string>, b: seq<string>)
    requires Sorted(a) && Sorted(b)
    requires forall x, y :: x in a && y in b ==> LexLess(x, y)
    ensures Sorted(a + b)
  {
    forall i, j | 0 <= i < j < |a + b|
      ensures LexLess((a + b)[i], (a + b)[j])
    {
      if j >= |a| && i < |a| {
        assert (a + b)[i] in a && (a + b)[j] in b;
      }
    }
  }

  /** Autocomplete lists keys in increasing lexicographic order (pre-order over slots
      0 .. 25), so no key is listed twice. */
  lemma {:induction false} WalkSorted(t: Tree, p: string, key: string)
    requires Wf(t)
    ensures Sorted(Walk(t, p, key))
    decreases t, 1
  {
    if t.Node? {
      var own := if t.value != 0 && HasPrefix(p, key) then [key] else [];
      ChildrenSorted(t, p, key, 26);
      ChildrenShape(t, p, key, 26);
      forall x, y | x in own && y in WalkChildren(t, p, key, 26)
        ensures LexLess(x, y)
      {
        LexLessPrefix(x, y);
      }
      SortedConcat(own, WalkChildren(t, p, key, 26));
    }
  }

  lemma {:induction false} ChildrenSorted(t: Tree, p: string, key: string, n: nat)
    requires Wf(t) && t.Node? && n <= 26
    ensures Sorted(WalkChildren(t, p, key, n))
    decreases t, 0, n
  {
    if n > 0 {
      var k := n - 1;
      var key' := key + [Letter(k)];
      var front := WalkChildren(t, p, key, k);
      var back := Walk(t.child[k], p, key');
      ChildrenSorted(t, p, key, k);
      WalkSorted(t.child[k], p, key');
      ChildrenShape(t, p, key, k);
      WalkShape(t.child[k], p, key');
      forall x, y | x in front && y in back
        ensures LexLess(x, y)
      {
        assert y[..|key|] == y[..|key'|][..|key|];
        assert y[|key|] == y[..|key'|][|key|] == Letter(k);
        LexLessAt(x, y, |key|);
      }
      SortedConcat(front, back);
    }
  }

  // ---------------------------------------------------------------------------
  // Contents

  /** A key one letter or more below `key` is listed by the children exactly when its next
      letter is a slot among the first n and the child in that slot lists it. */
  lemma {:induction false} ChildrenMember(t: Tree, p: string, key: string, s: string, n: nat)
    requires Wf(t) && t.Node? && n <= 26 && s != []
    ensures key + s in WalkChildren(t, p, key, n) <==>
      IsLower(s[0]) && Idx(s[0]) < n && key + s in Walk(t.child[Idx(s[0])], p, key + [s[0]])
    decreases n
  {
    var x := key + s;
    if n > 0 {
      var k := n - 1;
      var key' := key + [Letter(k)];
      ChildrenMember(t, p, key, s, k);
      assert WalkChildren(t, p, key, n) == WalkChildren(t, p, key, k) + Walk(t.child[k], p, key');
      if x in Walk(t.child[k], p, key') {
        WalkShape(t.child[k], p, key');
        assert x[|key|] == x[..|key'|][|key|] == Letter(k);
        assert s[0] == x[|key|];
        LetterIdx(s[0]);
      }
      if IsLower(s[0]) && Idx(s[0]) == k {
        LetterIdx(s[0]);
        assert key + [s[0]] == key';
      }
    }
  }

  /** Autocomplete lists `key + s` exactly when s is in lower case, the node stores a value
      under s, and StringCompare accepts the whole key. */
  lemma {:induction false} WalkMember(t: Tree, p: string, key: string, s: string)
    requires Wf(t)
    ensures key + s in Walk(t, p, key) <==>
      AllLower(s) && Lookup(t, s) != 0 && HasPrefix(p, key + s)
    decreases s
  {
    if t.Node? {
      var own := if t.value != 0 && HasPrefix(p, key) then [key] else [];
      assert Walk(t, p, key) == own + WalkChildren(t, p, key, 26);
      if s == [] {
        assert key + s == key;
        ChildrenShape(t, p, key, 26);
      } else {
        ChildrenMember(t, p, key, s, 26);
        assert |key + s| > |key|;
        if IsLower(s[0]) {
          var i := Idx(s[0]);
          assert (key + [s[0]]) + s[1..] == key + s;
          WalkMember(t.child[i], p, key + [s[0]], s[1..]);
          assert AllLower(s) <==> AllLower(s[1..]);
        }
      }
    }
  }

  /** Autocomplete(prefix) lists exactly the stored keys that StringCompare accepts. */
  lemma AutocompleteMember(t: Tree, p: string, x: string)
    requires Wf(t)
    ensures x in Walk(t, p, []) <==> AllLower(x) && Lookup(t, x) != 0 && HasPrefix(p, x)
  {
    assert [] + x == x;
    WalkMember(t, p, [], x);
  }

  // ---------------------------------------------------------------------------
  // Count

  /** Under the count invariant the walk with the empty prefix lists as many keys as the
      subtree counts. */
  lemma {:induction false} WalkCount(t: Tree, key: string)
    requires Wf(t) && Counted(t)
    ensures |Walk(t, [], key)| == Count(t)
    decreases t, 1
  {
    if t.Node? {
      ChildrenCount(t, key, 26);
      assert t.child[..26] == t.child;
    }
  }

  lemma {:induction false} ChildrenCount(t: Tree, key: string, n: nat)
    requires Wf(t) && t.Node? && Counted(t) && n <= 26
    ensures |WalkChildren(t, [], key, n)| == SumCounts(t.child[..n])
    decreases t, 0, n
  {
    if n > 0 {
      ChildrenCount(t, key, n - 1);
      WalkCount(t.child[n - 1], key + [Letter(n - 1)]);
      assert t.child[..n][..n - 1] == t.child[..n - 1];
    }
  }

  /** Under the count bound alone (Insert of the default value included) the walk with
      the empty prefix lists at most as many keys as the subtree counts. */
  lemma {:induction false} WalkCountAtMost(t: Tree, key: string)
    requires Wf(t) && CountsAtLeast(t)
    ensures |Walk(t, [], key)| <= Count(t)
    decreases t, 1
  {
    if t.Node? {
      ChildrenCountAtMost(t, key, 26);
      assert t.child[..26] == t.child;
    }
  }

  lemma {:induction false} ChildrenCountAtMost(t: Tree, key: string, n: nat)
    requires Wf(t) && t.Node? && CountsAtLeast(t) && n <= 26
    ensures |WalkChildren(t, [], key, n)| <= SumCounts(t.child[..n])
    decreases t, 0, n
  {
    if n > 0 {
      ChildrenCountAtMost(t, key, n - 1);
      WalkCountAtMost(t.child[n - 1], key + [Letter(n - 1)]);
      assert t.child[..n][..n - 1] == t.child[..n - 1];
    }
  }

  /** Size() is the number of distinct stored keys: Autocomplete("") lists each stored key
      once, and lists Size() of them. */
  lemma SizeIsKeyCount(t: Tree)
    requires Inv(t)
    ensures var all := Walk(t, [], []);
      && |all| == t.numValues
      && (forall i, j :: 0 <= i < j < |all| ==> all[i] != all[j])
      && (forall x :: x in all <==> AllLower(x) && Lookup(t, x) != 0)
  {
    WalkCount(t, []);
    WalkSorted(t, [], []);
    SortedDistinct(Walk(t, [], []));
    forall x
      ensures x in Walk(t, [], []) <==> AllLower(x) && Lookup(t, x) != 0
    {
      AutocompleteMember(t, [], x);
    }
  }

  /** Under the invariant the root counts nothing exactly when no key holds a value. */
  lemma EmptyIffNoKeys(t: Tree)
    requires Inv(t)
    ensures t.numValues == 0 <==> forall x :: AllLower(x) ==> Lookup(t, x) == 0
  {
    SizeIsKeyCount(t);
    var all := Walk(t, [], []);
    if t.numValues != 0 {
      assert all[0] in all;
    }
  }
}
