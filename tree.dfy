/** The value-level view of a trie: what the linked Node objects hold, as a tree.
    Each operation here follows the recursion of the Trie class line for line;
    the Node class in trie.dfy is proved to compute exactly these trees. */
module TrieModel {
  import opened Keys

  /** Nil stands for a null child link. In a Node, value 0 (default(int)) means that no key
      ends here, numValues is the node's count of values in its subtree, and child has one
      slot per letter. */
  datatype Tree = Nil | Node(value: int, numValues: int, child: seq<Tree>)

  /** Every node has exactly 26 child slots. */
  predicate Wf(t: Tree) {
    t.Node? ==> |t.child| == 26 && forall i :: 0 <= i < 26 ==> Wf(t.child[i])
  }

  /** The node `new Node()` creates: default value, count 0, all links null. */
  function EmptyNode(): (t: Tree)
    ensures Wf(t) && t.Node?
  {
    Node(0, 0, seq(26, _ => Nil))
  }

  /** The subtree count as the parent sees it: a null link counts nothing. */
  function Count(t: Tree): int {
    if t.Nil? then 0 else t.numValues
  }

  /** The sum of the counts of a run of child slots. */
  function SumCounts(c: seq<Tree>): int {
    if c == [] then 0 else SumCounts(c[..|c| - 1]) + Count(c[|c| - 1])
  }

  /** The count invariant: each node counts its own value (when not the default)
      plus its children's counts. */
  predicate Counted(t: Tree) {
    t.Node? ==>
      && t.numValues == (if t.value != 0 then 1 else 0) + SumCounts(t.child)
      && forall i :: 0 <= i < |t.child| ==> Counted(t.child[i])
  }

  /** No node below the root has a count of zero: such nodes are unlinked by Remove. */
  predicate Pruned(t: Tree) {
    t.Node? ==>
      forall i :: 0 <= i < |t.child| ==>
        (t.child[i].Node? ==> t.child[i].numValues > 0) && Pruned(t.child[i])
  }

  /** What every trie reachable from MakeEmpty by Insert (of non-default values) and
      Remove satisfies. */
  predicate Inv(t: Tree) {
    Wf(t) && t.Node? && Counted(t) && Pruned(t)
  }

  /** The count bound that survives Insert of the default value as well: each node counts
      at least its own value plus its children's counts. */
  predicate CountsAtLeast(t: Tree) {
    t.Node? ==>
      && t.numValues >= (if t.value != 0 then 1 else 0) + SumCounts(t.child)
      && forall i :: 0 <= i < |t.child| ==> CountsAtLeast(t.child[i])
  }

  /** What every trie reachable from MakeEmpty by Insert (of any value) and Remove
      satisfies. */
  predicate Reachable(t: Tree) {
    Wf(t) && t.Node? && CountsAtLeast(t) && Pruned(t)
  }

  /** Value: descend one link per letter; a missing link or a default value means
      the key is absent, and both give 0. */
  function Lookup(t: Tree, s: string): int
    requires Wf(t) && IsKey(s)
  {
    if t.Nil? then 0
    else if s == [] then t.value
    else Lookup(t.child[Idx(s[0])], s[1..])
  }

  /** The node a key reaches, or Nil when a link on its path is missing. */
  function Descend(t: Tree, s: string): (r: Tree)
    requires Wf(t) && IsKey(s)
    ensures Wf(r)
  {
    if t.Nil? || s == [] then t
    else Descend(t.child[Idx(s[0])], s[1..])
  }

  /** The private Insert on the tree under one link: a missing node is created first,
      a key that already has a value is refused, and on success every node on the path
      counts one more value. Returns the success flag and the new subtree. */
  function Insert(t: Tree, s: string, v: int): (r: (bool, Tree))
    requires Wf(t) && IsKey(s)
    ensures Wf(r.1) && r.1.Node?
    decreases s
  {
    var n := if t.Nil? then EmptyNode() else t;
    if s == [] then
      if n.value == 0 then (true, n.(value := v, numValues := n.numValues + 1))
      else (false, n)
    else
      var i := Idx(s[0]);
      var sub := Insert(n.child[i], s[1..], v);
      (sub.0, n.(numValues := if sub.0 then n.numValues + 1 else n.numValues,
                 child := n.child[i := sub.1]))
  }

  /** The private Remove on the tree under one link: a missing link or a default value
      at the end refuses; otherwise the value is cleared, every node on the path counts
      one value less, and a child whose count drops to zero is unlinked. */
  function Remove(t: Tree, s: string): (r: (bool, Tree))
    requires Wf(t) && IsKey(s)
    ensures Wf(r.1) && (r.1.Node? <==> t.Node?)
    ensures !r.0 ==> r.1 == t
    decreases s
  {
    if t.Nil? then (false, t)
    else if s == [] then
      if t.value != 0 then (true, t.(value := 0, numValues := t.numValues - 1))
      else (false, t)
    else
      var i := Idx(s[0]);
      var sub := Remove(t.child[i], s[1..]);
      if sub.0 then
        (true, t.(numValues := t.numValues - 1,
                  child := t.child[i := if sub.1.numValues == 0 then Nil else sub.1]))
      else (false, t)
  }

  /** The private Autocomplete: a pre-order walk that lists `key` when the node holds a
      value and StringCompare accepts it, then walks children 0 .. 25 with the letter
      of each appended to the key. */
  function Walk(t: Tree, prefix: string, key: string): seq<string>
    requires Wf(t)
    decreases t, 1
  {
    if t.Nil? then []
    else (if t.value != 0 && HasPrefix(prefix, key) then [key] else [])
         + WalkChildren(t, prefix, key, 26)
  }

  /** The keys the walk lists under the first n children of t, in slot order. */
  function WalkChildren(t: Tree, prefix: string, key: string, n: nat): seq<string>
    requires Wf(t) && t.Node? && n <= 26
    decreases t, 0, n
  {
    if n == 0 then []
    else WalkChildren(t, prefix, key, n - 1) + Walk(t.child[n - 1], prefix, key + [Letter(n - 1)])
  }

  /** One level of Insert below an existing node: a missing child behaves as a fresh empty node. */
  lemma InsertStep(t: Tree, s: string, v: int)
    requires Wf(t) && t.Node? && IsKey(s) && s != []
    ensures
      var i := Idx(s[0]);
      var sub := Insert(if t.child[i].Nil? then EmptyNode() else t.child[i], s[1..], v);
      Insert(t, s, v) == (sub.0, t.(numValues := if sub.0 then t.numValues + 1 else t.numValues,
                                    child := t.child[i := sub.1]))
  {
  }

  /** One level of Remove below an existing node. */
  lemma RemoveStep(t: Tree, s: string)
    requires Wf(t) && t.Node? && IsKey(s) && s != []
    ensures
      var i := Idx(s[0]);
      var sub := Remove(t.child[i], s[1..]);
      Remove(t, s) == if sub.0 then
                        (true, t.(numValues := t.numValues - 1,
                                  child := t.child[i := if sub.1.numValues == 0 then Nil else sub.1]))
                      else (false, t)
  {
  }
}
