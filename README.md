# R-way trie, modelled in Dafny

This project models the 26-way trie of the R-Way Tree program: the class `Trie<T>` and its
inner class `Node` in `RWayTree/RWayTree/Program.cs`, with the value type `T` fixed to `int`.
Its default value `0` is the trie's sentinel for "no value here", as `default(T)` is in the
source.

A `Node` holds a value, a count of the values stored in its subtree (`numValues`), and an
array of 26 child links, one per letter. A key is read one letter at a time.
`Char.ToLower(c) - 'a'` picks the child link, so keys are case-insensitive. The operations
modelled are:

- `Insert`, which creates missing nodes on the way down and refuses a key that already holds
  a value;
- `Value`, the lookup;
- `Remove`, which unlinks a child whose count drops to zero;
- `Autocomplete` with its helper `StringCompare`;
- `MakeEmpty`, `Empty` and `Size`.

The model has two layers.

- `tree.dfy` (module `TrieModel`) describes the nodes as an immutable tree value `Tree`.
  `Nil` stands for a null link. The functions `Insert`, `Remove` and `Walk` follow the
  source's recursions branch for branch. `Lookup` is the recursive form of `Value`'s loop
  over the key's letters.
- `trie.dfy` (module `RWayTrie`) is the imperative program. `Node` is a class with the
  fields `value`, `numValues` and `child: array<Node?>`, updated in place, and `Trie` owns
  the root. Every node carries a ghost `Model: Tree` and a ghost footprint `Repr`. Each
  method is proved to compute exactly the corresponding `TrieModel` function on the old
  model.

The properties the source promises are proved about the tree functions:

- `facts.dfy` (module `TrieFacts`) covers Insert, Remove, Value and the count invariant.
- `walk.dfy` (module `WalkFacts`) covers Autocomplete.

The public methods of `RWayTrie.Trie` restate those properties in their postconditions.
`keys.dfy` (module `Keys`) holds the letter-to-slot mapping, `StringCompare`'s
specification `HasPrefix`, and the lexicographic order on keys.

Two invariants describe the counts and links.

- `TrieModel.Reachable` holds in every state the public operations can reach, whatever
  values are inserted. Each node counts at least its own value plus its children's counts
  (`CountsAtLeast`), and no node below the root counts zero (`Pruned`). `RWayTrie.Trie`
  keeps it as part of its validity.
- `TrieModel.Inv` is the exact count invariant. Each node's `numValues` is its own value
  (1 if it is not the default) plus the counts of its children (`Counted`), and the trie
  is `Pruned`. `Insert` keeps it only when the inserted value is not the default `0`; see
  `TrieFacts.ZeroInsertDrift` and "Left out". The exact relation between `Size`/`Empty`
  and the stored keys is stated under it.

Two behaviours of the code are worth stating up front:

- A key absent from the trie reads as the default value `0`. There is no separate
  "not found" result.
- Keys are strings of ASCII letters (`Keys.IsKey`). "Left out" says what the code does
  with other characters.

## Model

| member | source | states |
|---|---|---|
| Keys.Lower | RWayTree/RWayTree/Program.cs:107 | `Char.ToLower` maps exactly the letters to lower-case letters and leaves lower-case letters unchanged |
| Keys.Idx | RWayTree/RWayTree/Program.cs:107 | `ToLower(c) - 'a'` of a letter is a slot index in 0 .. 25 |
| Keys.Letter | RWayTree/RWayTree/Program.cs:260 | `(char)(i + 'a')` is a lower-case letter that selects slot i again |
| Keys.LetterIdx | RWayTree/RWayTree/Program.cs:258-261 | the letter Autocomplete appends for a letter's slot is that letter lowered |
| Keys.IdxInjective | RWayTree/RWayTree/Program.cs:107 | two letters select the same slot exactly when they are equal after lowering |
| Keys.HasPrefix | RWayTree/RWayTree/Program.cs:269-283 | what StringCompare decides: the key is at least as long as the prefix and starts with the prefix lowered character by character |
| TrieModel.EmptyNode | RWayTree/RWayTree/Program.cs:55-60 | `new Node()`: default value, count 0, 26 null links |
| TrieModel.Counted | RWayTree/RWayTree/Program.cs:47 | the exact count invariant: a node counts its own value plus its children's counts |
| TrieModel.Pruned | RWayTree/RWayTree/Program.cs:195-196 | no node below the root counts zero, the state Remove's unlinking maintains |
| TrieModel.Inv | RWayTree/RWayTree/Program.cs:44-61 | a node with 26 slots everywhere, exactly counted and pruned |
| TrieModel.CountsAtLeast | RWayTree/RWayTree/Program.cs:47 | the count bound every reachable trie keeps: a node counts at least its own value plus its children's counts |
| TrieModel.Reachable | RWayTree/RWayTree/Program.cs:44-61 | a node with 26 slots everywhere, satisfying the count bound and pruned |
| TrieModel.Lookup | RWayTree/RWayTree/Program.cs:130-149 | Value's loop as a recursion: one link per letter, the default on a missing link, else the value reached |
| TrieModel.Walk | RWayTree/RWayTree/Program.cs:247-265 | the private Autocomplete on one link: nothing for null, else the node's key if it holds a value and StringCompare accepts it, then the children's walks |
| TrieModel.WalkChildren | RWayTree/RWayTree/Program.cs:258-261 | the loop over slots 0 .. n-1, each walked with its letter appended to the key |
| TrieModel.Insert | RWayTree/RWayTree/Program.cs:87-124 | the private Insert on a subtree (a missing node is created first) always yields a well-formed node |
| TrieModel.Remove | RWayTree/RWayTree/Program.cs:164-203 | the private Remove keeps a node a node and a null link null, and a refused Remove returns the subtree unchanged |
| TrieFacts.CountedAtLeast | RWayTree/RWayTree/Program.cs:47 | the exact count invariant implies the count bound |
| TrieFacts.CountNonNeg | RWayTree/RWayTree/Program.cs:47 | under the count bound no node counts a negative number of values |
| TrieFacts.EmptyNodeInv | RWayTree/RWayTree/Program.cs:55-60 | a new Node satisfies both invariants and counts zero values |
| TrieFacts.EmptyIsFresh | RWayTree/RWayTree/Program.cs:298-301 | under the invariant a root counting zero values is exactly a fresh empty node with no links |
| TrieFacts.ZeroCountHoldsNothing | RWayTree/RWayTree/Program.cs:195-196 | under the count bound a subtree counting zero holds no value under any key, which is why Remove may unlink it |
| TrieFacts.LookupIsDescend | RWayTree/RWayTree/Program.cs:130-149 | Value returns the value of the node the key's letters lead to, or the default when a link is missing |
| TrieFacts.MissingLinkMeansDefault | RWayTree/RWayTree/Program.cs:139-143 | once a link on the key's path is null, the key's value is the default |
| TrieFacts.DescendStep | RWayTree/RWayTree/Program.cs:136-146 | one more letter of Value's loop follows one more child link, or stays off the trie |
| TrieFacts.InsertNilSucceeds | RWayTree/RWayTree/Program.cs:109-112 | Insert below a missing link always succeeds and builds a chain counting one value |
| TrieFacts.InsertLookup | RWayTree/RWayTree/Program.cs:87-124 | Insert succeeds exactly when the key holds the default; the key then holds v and the count grows by one; a refused (duplicate) Insert changes nothing |
| TrieFacts.InsertOther | RWayTree/RWayTree/Program.cs:87-124 | Insert leaves the value of every key that differs from it after lowering as it was |
| TrieFacts.InsertCounted | RWayTree/RWayTree/Program.cs:97-118 | Insert of a non-default value keeps the count invariant (one more at every node on the path) |
| TrieFacts.InsertPruned | RWayTree/RWayTree/Program.cs:109-123 | Insert never leaves a zero-count node below the root |
| TrieFacts.InsertAtLeast | RWayTree/RWayTree/Program.cs:97-118 | Insert of any value, the default included, keeps the count bound |
| TrieFacts.InsertReachable | RWayTree/RWayTree/Program.cs:87-124 | Insert of any value keeps a reachable trie reachable |
| TrieFacts.InsertInv | RWayTree/RWayTree/Program.cs:87-124 | Insert of a non-default value keeps the whole invariant |
| TrieFacts.RemoveLookup | RWayTree/RWayTree/Program.cs:164-203 | Remove succeeds exactly when the key holds a value; afterwards the key holds the default and the count is one less on success |
| TrieFacts.RemoveCounted | RWayTree/RWayTree/Program.cs:177-197 | Remove keeps the count invariant |
| TrieFacts.RemoveAtLeast | RWayTree/RWayTree/Program.cs:177-197 | Remove keeps the count bound |
| TrieFacts.RemovePruned | RWayTree/RWayTree/Program.cs:195-196 | under the count bound, Remove unlinks every child whose count drops to zero, so no zero-count node remains below the root |
| TrieFacts.RemoveReachable | RWayTree/RWayTree/Program.cs:164-203 | Remove keeps a reachable trie reachable |
| TrieFacts.RemoveInv | RWayTree/RWayTree/Program.cs:164-203 | Remove keeps the whole invariant |
| TrieFacts.RemoveOther | RWayTree/RWayTree/Program.cs:164-203 | under the count bound (so in every reachable trie) Remove leaves every other key's value as it was |
| TrieFacts.RemoveUndoesInsertNil | RWayTree/RWayTree/Program.cs:164-203 | removing a key just inserted below a missing link unlinks the whole new chain |
| TrieFacts.RemoveUndoesInsert | RWayTree/RWayTree/Program.cs:164-203 | Remove after a successful Insert of a non-default value restores exactly the trie before it, nodes and counts |
| TrieFacts.ZeroInsertDrift | RWayTree/RWayTree/Program.cs:93-98 | inserting the default value succeeds and is counted, yet Value reports the key absent, Remove refuses it, and the count invariant is broken |
| WalkFacts.WalkShape | RWayTree/RWayTree/Program.cs:258-261 | every key Autocomplete lists below a node extends that node's key with lower-case letters |
| WalkFacts.ChildrenShape | RWayTree/RWayTree/Program.cs:258-261 | the keys listed by the first n children are longer than the node's key, and their next letter selects one of those n slots |
| WalkFacts.WalkSorted | RWayTree/RWayTree/Program.cs:247-265 | the pre-order walk lists keys in strictly increasing lexicographic order |
| WalkFacts.ChildrenSorted | RWayTree/RWayTree/Program.cs:258-261 | walking the children in slot order 0 .. 25 lists keys in strictly increasing order |
| WalkFacts.ChildrenMember | RWayTree/RWayTree/Program.cs:258-261 | a longer key is listed by the children exactly when the child its next letter selects lists it |
| WalkFacts.WalkMember | RWayTree/RWayTree/Program.cs:247-265 | the walk below a node lists key + s exactly when s is lower case, holds a value there, and StringCompare accepts key + s |
| WalkFacts.AutocompleteMember | RWayTree/RWayTree/Program.cs:241-245 | Autocomplete(prefix) lists exactly the stored lower-case keys that StringCompare accepts |
| WalkFacts.WalkCount | RWayTree/RWayTree/Program.cs:247-265 | under the count invariant the walk with the empty prefix lists as many keys as the subtree counts |
| WalkFacts.ChildrenCount | RWayTree/RWayTree/Program.cs:258-261 | the first n children list as many keys as their counts add up to |
| WalkFacts.WalkCountAtMost | RWayTree/RWayTree/Program.cs:247-265 | under the count bound the walk with the empty prefix lists at most as many keys as the subtree counts |
| WalkFacts.ChildrenCountAtMost | RWayTree/RWayTree/Program.cs:258-261 | the first n children list at most as many keys as their counts add up to |
| WalkFacts.SizeIsKeyCount | RWayTree/RWayTree/Program.cs:307-310 | under the invariant the root count is the number of stored keys, each listed once by Autocomplete("") |
| WalkFacts.EmptyIffNoKeys | RWayTree/RWayTree/Program.cs:298-301 | under the invariant the root counts zero exactly when no key holds a value |
| RWayTrie.StringCompare | RWayTree/RWayTree/Program.cs:269-283 | returns true exactly when the key is at least as long as the prefix and starts with the prefix lowered character by character |
| RWayTrie.Node.constructor | RWayTree/RWayTree/Program.cs:55-60 | a new Node holds the default value, counts zero and has 26 null links |
| RWayTrie.Node.Link | RWayTree/RWayTree/Program.cs:111-112 | a null link is replaced by a fresh empty node, and nothing else changes |
| RWayTrie.Node.Insert | RWayTree/RWayTree/Program.cs:87-124 | the in-place Insert returns the flag and leaves the subtree that TrieModel.Insert computes, allocating only fresh nodes |
| RWayTrie.Node.Remove | RWayTree/RWayTree/Program.cs:164-203 | the in-place Remove returns the flag and leaves the subtree that TrieModel.Remove computes, allocating nothing |
| RWayTrie.Node.Autocomplete | RWayTree/RWayTree/Program.cs:247-265 | appends to the list exactly the keys of the pre-order walk of this subtree |
| RWayTrie.Trie.constructor | RWayTree/RWayTree/Program.cs:67-70 | a new Trie has a fresh empty root, is valid (so reachable) and satisfies the exact count invariant |
| RWayTrie.Trie.MakeEmpty | RWayTree/RWayTree/Program.cs:289-292 | the root is a fresh empty node: the trie is valid (so reachable), exactly counted, and no key holds a value |
| RWayTrie.Trie.Insert | RWayTree/RWayTree/Program.cs:76-79 | succeeds exactly when the key held the default; the key then holds v, Size grows by one and no other key changes; a refused Insert changes nothing; the trie stays reachable and pruned, and exactly counted when v is not 0 |
| RWayTrie.Trie.Value | RWayTree/RWayTree/Program.cs:130-149 | the loop over the key's letters returns the key's value, or the default when a link is missing |
| RWayTrie.Trie.Remove | RWayTree/RWayTree/Program.cs:155-158 | succeeds exactly when the key held a value; afterwards the key holds the default, Size drops by one on success, every other key keeps its value, the trie stays reachable and pruned, and the exact count invariant is kept |
| RWayTrie.Trie.Autocomplete | RWayTree/RWayTree/Program.cs:241-245 | returns, sorted and without duplicates, exactly the stored keys in lower case that StringCompare accepts |
| RWayTrie.Trie.Empty | RWayTree/RWayTree/Program.cs:298-301 | when true, no key holds a value; under the exact count invariant, true exactly when no key holds a value and exactly when the trie is a fresh empty node |
| RWayTrie.Trie.Size | RWayTree/RWayTree/Program.cs:307-310 | at least the number of keys Autocomplete("") lists; under the exact count invariant, exactly that number |
| RWayTrie.ChildLinked | RWayTree/RWayTree/Program.cs:109-112 | linking a fresh empty node into a null slot keeps a node's ownership and model invariant |
| RWayTrie.ChildUpdated | RWayTree/RWayTree/Program.cs:115-119 | updating one child in place, or unlinking it, keeps the parent's ownership and model invariant |

## Left out

- `PartialMatch` (lines 208-236) is not modelled: it needs .NET regular expressions (`Regex.IsMatch`), which have no counterpart here. It is the same pre-order walk as Autocomplete with a different test.
- `Print` (lines 315-335), the console messages written by `Value`, the menu program (`Program`, `Main`) and `MyGlobals` are left out: they are console input and output only.
- The value type `T` is fixed to `int`, with `0` as `default(T)` and `==` for `Equals`.
- `numValues` is an unbounded integer. The source's 32-bit `int` would overflow only after more than 2^31 successful inserts.
- `Keys.Lower` models `Char.ToLower` on ASCII letters only. Culture-specific and non-ASCII case mappings are not modelled. In the source some non-ASCII characters lower to a letter (the Kelvin sign U+212A lowers to 'k') and so act as that letter. The model treats them as non-letters.
- RWayTrie.Trie.Insert: keys must consist of ASCII letters (`IsKey`). For any other character the source computes a slot outside the 26-slot array and throws when its descent reaches that character. Insert always reaches it, after linking nodes for the letters before it. That exception path is not modelled.
- RWayTrie.Trie.Value: keys must consist of ASCII letters. The source stops at the first missing link, so a key with a non-letter after a missing link returns the default 0 without an exception; `Value("q1")` on an empty trie returns 0. Only a descent that reaches the non-letter throws. Neither case is modelled.
- RWayTrie.Trie.Remove: keys must consist of ASCII letters. As with Value, the source returns false at a missing link before a non-letter (`Remove("q1")` on an empty trie returns false) and throws only when its descent reaches the non-letter. Neither case is modelled.
- RWayTrie.Trie.Insert: the exact count invariant is kept only when the inserted value is not the default `0`. Inserting `0` succeeds and is counted, but leaves the key reading as absent and unremovable (`TrieFacts.ZeroInsertDrift`). The source does not guard against this, and the model keeps that behaviour. The weaker `Reachable` invariant survives it, and every other promise of Insert and Remove holds in all reachable states.
- RWayTrie.Trie.Size: after such an insert, Size counts more than the stored keys. So Size is stated only as an upper bound on the number of listed keys in general, and as equal to it under the exact count invariant.
- RWayTrie.Trie.Empty: for the same reason, "no key holds a value" implies Empty only under the exact count invariant. The direction from Empty to "no key holds a value" holds in every reachable state.
- RWayTrie.Node.Autocomplete: the source appends to one shared `List<string>` that every recursive call mutates. Here the list is a sequence value passed down and returned. Aliasing of that list by the caller is not modelled.
- Autocomplete's visit of the whole trie regardless of the prefix is modelled as written. Its cost is not stated.
