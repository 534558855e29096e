/** The Trie class: linked Node objects with a 26-slot child array each, updated in place.
    Every Node keeps a ghost Model, the tree its subtree stands for, and every method is
    proved to compute the corresponding function of TrieModel. */
module RWayTrie {
  import opened Keys
  import opened TrieModel
  import opened TrieFacts
  import opened WalkFacts

  /** StringCompare: false when the key is shorter than the prefix, false at the first
      position where the lowered prefix character differs from the key's, true otherwise. */
  method StringCompare(prefix: string, key: string) returns (r: bool)
    ensures r == HasPrefix(prefix, key)
  {
    if |key| < |prefix| {
      return false;
    }
    for i := 0 to |prefix|
      invariant forall k :: 0 <= k < i ==> Lower(prefix[k]) == key[k]
    {
      if Lower(prefix[i]) != key[i] {
        return false;
      }
    }
    return true;
  }

  class Node {
    var value: int
    var numValues: int
    var child: array<Node?>

    ghost var Model: Tree
    ghost var Repr: set<object>

    /** The node owns its child array and its children; sibling subtrees share nothing,
        and Model is the tree the subtree stands for. */
    ghost predicate Valid()
      reads this, Repr
      ensures Valid() ==> this in Repr && Model.Node?
      decreases Repr
    {
      && this in Repr && child in Repr && child.Length == 26
      && Model.Node? && Wf(Model)
      && Model.value == value && Model.numValues == numValues
      && (forall i :: 0 <= i < 26 ==>
            if child[i] == null then Model.child[i] == Nil
            else
              && child[i] in Repr && child[i].Repr <= Repr
              && this !in child[i].Repr && child !in child[i].Repr
              && child[i].Valid() && Model.child[i] == child[i].Model)
      && (forall i, j :: 0 <= i < 26 && 0 <= j < 26 && i != j && child[i] != null && child[j] != null ==>
            child[i].Repr !! child[j].Repr)
    }

    /** new Node(): default value, count 0, 26 null links. */
    constructor ()
      ensures Valid() && fresh(Repr)
      ensures Model == EmptyNode()
    {
      value := 0;
      numValues := 0;
      child := new Node?[26](_ => null);
      Model := EmptyNode();
      new;
      Repr := {this, child};
    }

    /** Creates a new Node in slot i if the link is null; the tree the node stands for
        then has an empty node in place of the missing link. */
    method Link(i: int)
      requires Valid() && 0 <= i < 26
      modifies this, child
      ensures Valid() && fresh(Repr - old(Repr)) && child == old(child) && child[i] != null
      ensures Model == old(Model).(child := old(Model).child[i := if old(Model).child[i].Nil? then EmptyNode() else old(Model).child[i]])
    {
      if child[i] == null {
        var n := new Node();
        child[i] := n;
        Repr := Repr + n.Repr;
        Model := Model.(child := Model.child[i := n.Model]);
        ChildLinked(this, i);
      }
    }

    /** The private Insert(p, key, j, value), with p as this. */
    method Insert(key: string, j: nat, v: int) returns (ok: bool)
      requires Valid() && IsKey(key) && j <= |key|
      modifies Repr
      ensures Valid() && fresh(Repr - old(Repr))
      ensures (ok, Model) == TrieModel.Insert(old(Model), key[j..], v)
      decreases |key| - j
    {
      if j == |key| {
        if value == 0 {
          value := v;
          numValues := numValues + 1;
          Model := Model.(value := value, numValues := numValues);
          ok := true;
        } else {
          ok := false;
        }
      } else {
        var i := Idx(key[j]);
        ghost var s := key[j..];
        assert s[0] == key[j] && s[1..] == key[j + 1..];
        Link(i);
        InsertStep(old(Model), s, v);
        label Before:
        ok := child[i].Insert(key, j + 1, v);
        Repr := Repr + child[i].Repr;
        if ok {
          numValues := numValues + 1;
        }
        Model := old(Model).(numValues := numValues, child := old(Model).child[i := child[i].Model]);
        ChildUpdated@Before(this, i, child[i]);
      }
    }

    /** The private Remove(p, key, j), with p as this; a null p is the caller's missing link. */
    method Remove(key: string, j: nat) returns (ok: bool)
      requires Valid() && IsKey(key) && j <= |key|
      modifies Repr
      ensures Valid() && Repr == old(Repr)
      ensures (ok, Model) == TrieModel.Remove(old(Model), key[j..])
      decreases |key| - j
    {
      if j == |key| {
        if value != 0 {
          value := 0;
          numValues := numValues - 1;
          Model := Model.(value := value, numValues := numValues);
          ok := true;
        } else {
          ok := false;
        }
      } else {
        var i := Idx(key[j]);
        ghost var s := key[j..];
        assert s[0] == key[j] && s[1..] == key[j + 1..];
        var c := child[i];
        RemoveStep(old(Model), s);
        if c == null {
          ok := false;
        } else {
          assert c.Model == old(Model).child[i];
          label Before:
          ok := c.Remove(key, j + 1);
          if ok {
            if c.numValues == 0 {
              child[i] := null;
            }
            numValues := numValues - 1;
          } else {
            assert old(Model).child[i := c.Model] == old(Model).child;
          }
          Model := old(Model).(numValues := numValues,
                               child := old(Model).child[i := if child[i] == null then Nil else c.Model]);
          ChildUpdated@Before(this, i, c);
        }
      }
    }

    /** The private Autocomplete(p, prefix, key, list) on a non-null p: the keys found
        below this node are appended to the list, own key first, then slots 0 .. 25.
        A null child adds nothing, so it is skipped. */
    method Autocomplete(prefix: string, key: string, acc: seq<string>) returns (list: seq<string>)
      requires Valid()
      ensures list == acc + Walk(Model, prefix, key)
      decreases Repr
    {
      list := acc;
      var compare := StringCompare(prefix, key);
      if value != 0 && compare {
        list := list + [key];
      }
      ghost var own := list;
      for i := 0 to 26
        invariant list == own + WalkChildren(Model, prefix, key, i)
      {
        if child[i] != null {
          list := child[i].Autocomplete(prefix, key + [Letter(i)], list);
        }
      }
    }
  }

  /** The Trie: a root Node that is never null and never unlinked. */
  class Trie {
    var root: Node

    ghost var Repr: set<object>

    /** The trie owns its root's nodes, and the tree they stand for is reachable: the
        counts bound the values below, and no node below the root counts zero. */
    ghost predicate Valid()
      reads this, Repr
    {
      && this in Repr && root in Repr && root.Repr <= Repr && this !in root.Repr
      && root.Valid() && Reachable(root.Model)
    }

    /** The tree the trie stands for. */
    ghost function Model(): Tree
      reads this, root
    {
      root.Model
    }

    /** new Trie(), which runs MakeEmpty: the root is a fresh empty node. */
    constructor ()
      ensures Valid() && fresh(Repr)
      ensures Model() == EmptyNode() && Inv(Model())
    {
      var r := new Node();
      root := r;
      Repr := {this} + r.Repr;
      EmptyNodeInv();
    }

    /** MakeEmpty: the old nodes are dropped and the root is a fresh empty node, so no key
        holds a value and the size is 0. */
    method MakeEmpty()
      requires Valid()
      modifies this
      ensures Valid() && fresh(Repr - {this})
      ensures Model() == EmptyNode() && Inv(Model())
      ensures forall k :: IsKey(k) ==> Lookup(Model(), k) == 0
    {
      root := new Node();
      Repr := {this} + root.Repr;
      EmptyNodeInv();
      forall k | IsKey(k)
        ensures Lookup(Model(), k) == 0
      {
        ZeroCountHoldsNothing(Model(), k);
      }
    }

    /** Insert(key, value): refused when the key already holds a value; otherwise the key
        holds v, the size grows by one, and no other key changes. The count invariant is
        kept as long as v is not the default 0. */
    method Insert(key: string, v: int) returns (ok: bool)
      requires Valid() && IsKey(key)
      modifies Repr
      ensures Valid() && fresh(Repr - old(Repr))
      ensures (ok, Model()) == TrieModel.Insert(old(Model()), key, v)
      ensures ok <==> old(Lookup(Model(), key)) == 0
      ensures Lookup(Model(), key) == if ok then v else old(Lookup(Model(), key))
      ensures Model().numValues == old(Model().numValues) + (if ok then 1 else 0)
      ensures !ok ==> Model() == old(Model())
      ensures Pruned(Model())
      ensures forall k :: IsKey(k) && Fold(k) != Fold(key) ==> Lookup(Model(), k) == old(Lookup(Model(), k))
      ensures old(Inv(Model())) && v != 0 ==> Inv(Model())
    {
      assert key[0..] == key;
      ok := root.Insert(key, 0, v);
      Repr := Repr + root.Repr;
      InsertReachable(old(Model()), key, v);
      InsertLookup(old(Model()), key, v);
      forall k | IsKey(k) && Fold(k) != Fold(key)
        ensures Lookup(Model(), k) == Lookup(old(Model()), k)
      {
        InsertOther(old(Model()), key, v, k);
      }
      if old(Inv(Model())) && v != 0 {
        InsertInv(old(Model()), key, v);
      }
    }

    /** Value(key): follows one link per letter; a missing link gives the default 0,
        otherwise the value of the node reached. */
    method Value(key: string) returns (r: int)
      requires Valid() && IsKey(key)
      ensures r == Lookup(Model(), key)
    {
      var p: Node := root;
      for n := 0 to |key|
        invariant p.Valid() && p.Model == Descend(root.Model, key[..n])
      {
        var i := Idx(key[n]);
        DescendStep(root.Model, key, n);
        if p.child[i] == null {
          MissingLinkMeansDefault(root.Model, key, n + 1);
          return 0;
        }
        p := p.child[i];
      }
      assert key[..|key|] == key;
      LookupIsDescend(root.Model, key);
      return p.value;
    }

    /** Remove(key): refused when the key holds no value (a missing link included);
        otherwise the key holds the default, the size drops by one, and nodes left
        counting nothing are unlinked. No other key changes. */
    method Remove(key: string) returns (ok: bool)
      requires Valid() && IsKey(key)
      modifies Repr
      ensures Valid() && Repr == old(Repr)
      ensures (ok, Model()) == TrieModel.Remove(old(Model()), key)
      ensures ok <==> old(Lookup(Model(), key)) != 0
      ensures Lookup(Model(), key) == 0
      ensures Model().numValues == old(Model().numValues) - (if ok then 1 else 0)
      ensures !ok ==> Model() == old(Model())
      ensures forall k :: IsKey(k) && Fold(k) != Fold(key) ==> Lookup(Model(), k) == old(Lookup(Model(), k))
      ensures Pruned(Model())
      ensures old(Inv(Model())) ==> Inv(Model())
    {
      assert key[0..] == key;
      ok := root.Remove(key, 0);
      RemoveReachable(old(Model()), key);
      RemoveLookup(old(Model()), key);
      forall k | IsKey(k) && Fold(k) != Fold(key)
        ensures Lookup(Model(), k) == Lookup(old(Model()), k)
      {
        RemoveOther(old(Model()), key, k);
      }
      if old(Inv(Model())) {
        RemoveInv(old(Model()), key);
      }
    }

    /** Autocomplete(prefix): the stored keys, in lower case, that StringCompare accepts,
        listed in increasing lexicographic order. */
    method Autocomplete(prefix: string) returns (list: seq<string>)
      requires Valid()
      ensures list == Walk(Model(), prefix, [])
      ensures Sorted(list)
      ensures forall x :: x in list <==> AllLower(x) && Lookup(Model(), x) != 0 && HasPrefix(prefix, x)
    {
      list := root.Autocomplete(prefix, [], []);
      WalkSorted(Model(), prefix, []);
      forall x
        ensures x in list <==> AllLower(x) && Lookup(Model(), x) != 0 && HasPrefix(prefix, x)
      {
        AutocompleteMember(Model(), prefix, x);
      }
    }

    /** Empty(): the root counts no value. Then no key holds a value; under the count
        invariant the converse holds too, and the trie is a fresh empty node. */
    function Empty(): (r: bool)
      requires Valid()
      reads this, Repr
      ensures r ==> forall x :: IsKey(x) ==> Lookup(Model(), x) == 0
      ensures Inv(Model()) ==> (r <==> Model() == EmptyNode())
      ensures Inv(Model()) ==> (r <==> forall x :: AllLower(x) ==> Lookup(Model(), x) == 0)
    {
      assert root.numValues == 0 ==> forall x :: IsKey(x) ==> Lookup(Model(), x) == 0 by {
        if root.numValues == 0 {
          forall x | IsKey(x)
            ensures Lookup(Model(), x) == 0
          {
            ZeroCountHoldsNothing(Model(), x);
          }
        }
      }
      assert Inv(Model()) ==> (root.numValues == 0 <==> Model() == EmptyNode()) by {
        if Inv(Model()) {
          EmptyNodeInv();
          if root.numValues == 0 {
            EmptyIsFresh(Model());
          }
        }
      }
      assert Inv(Model()) ==> (root.numValues == 0 <==> forall x :: AllLower(x) ==> Lookup(Model(), x) == 0) by {
        if Inv(Model()) {
          EmptyIffNoKeys(Model());
        }
      }
      root.numValues == 0
    }

    /** Size(): the root's count. It is at least the number of keys Autocomplete("") lists;
        under the count invariant it is exactly that number. */
    function Size(): (n: int)
      requires Valid()
      reads this, Repr
      ensures n >= |Walk(Model(), [], [])|
      ensures Inv(Model()) ==> n == |Walk(Model(), [], [])|
    {
      assert root.numValues >= |Walk(Model(), [], [])| by {
        WalkCountAtMost(Model(), []);
      }
      assert Inv(Model()) ==> root.numValues == |Walk(Model(), [], [])| by {
        if Inv(Model()) {
          SizeIsKeyCount(Model());
        }
      }
      root.numValues
    }
  }

  /** Re-establishes a node's invariant after a fresh node was linked into the empty slot i. */
  twostate lemma ChildLinked(p: Node, new i: int)
    requires 0 <= i < 26
    requires old(p.Valid()) && old(p.child[i]) == null
    requires p.child == old(p.child) && p.value == old(p.value) && p.numValues == old(p.numValues)
    requires forall k :: 0 <= k < 26 && k != i ==> p.child[k] == old(p.child[k])
    requires p.child[i] != null && fresh(p.child[i]) && p.child[i].Valid() && fresh(p.child[i].Repr)
    requires forall o :: o in old(p.Repr) && o != p && o != p.child ==> unchanged(o)
    requires p.Repr == old(p.Repr) + p.child[i].Repr
    requires p.Model == old(p.Model).(child := old(p.Model).child[i := p.child[i].Model])
    ensures p.Valid()
  {
  }

  /** Re-establishes a node's invariant after its child c in slot i was updated in place
      (and possibly unlinked): c's footprint grew only by fresh objects, nothing else the
      node owns changed, and the node's Model records the new subtree. */
  twostate lemma ChildUpdated(p: Node, new i: int, new c: Node)
    requires 0 <= i < 26
    requires old(p.Valid()) && old(p.child[i]) == c
    requires p.child == old(p.child) && p.value == old(p.value)
    requires forall k :: 0 <= k < 26 && k != i ==> p.child[k] == old(p.child[k])
    requires p.child[i] == c || p.child[i] == null
    requires c.Valid() && fresh(c.Repr - old(p.child[i].Repr))
    requires forall o :: o in old(p.Repr) && o !in old(p.child[i].Repr) && o != p && o != p.child ==> unchanged(o)
    requires p.Repr == old(p.Repr) + c.Repr
    requires p.Model == old(p.Model).(numValues := p.numValues,
                                      child := old(p.Model).child[i := if p.child[i] == null then Nil else c.Model])
    ensures p.Valid()
  {
  }
}
