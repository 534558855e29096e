/** Characters and keys of the 26-way trie.
    A key is a string of ASCII letters; a letter selects one of 26 child links,
    'a' (or 'A') the first and 'z' (or 'Z') the last, so keys are case-insensitive. */
module Keys {

  predicate IsLetter(c: char) {
    'a' <= c <= 'z' || 'A' <= c <= 'Z'
  }

  predicate IsLower(c: char) {
    'a' <= c <= 'z'
  }

  /** The keys the trie can index: every character selects a child link. */
  predicate IsKey(s: string) {
    forall i :: 0 <= i < |s| ==> IsLetter(s[i])
  }

  /** The keys the traversal produces: lower-case letters only. */
  predicate AllLower(s: string) {
    forall i :: 0 <= i < |s| ==> IsLower(s[i])
  }

  /** Char.ToLower on the ASCII range: upper-case letters become lower case,
      every other character is left as it is. */
  function Lower(c: char): (r: char)
    ensures IsLetter(c) <==> IsLower(r)
    ensures IsLower(c) ==> r == c
  {
    if 'A' <= c <= 'Z' then (c as int - 'A' as int + 'a' as int) as char else c
  }

  /** The child slot a letter selects: ToLower(c) - 'a'. */
  function Idx(c: char): (i: int)
    requires IsLetter(c)
    ensures 0 <= i < 26
  {
    Lower(c) as int - 'a' as int
  }

  /** The letter the traversal appends for child slot i: (char)(i + 'a'). */
  function Letter(i: int): (c: char)
    requires 0 <= i < 26
    ensures IsLower(c) && Idx(c) == i
  {
    (i + 'a' as int) as char
  }

  /** The key with every letter lowered; two keys reach the same node exactly when
      their folded forms are equal. */
  function Fold(s: string): (r: string)
    ensures |r| == |s|
    ensures forall i :: 0 <= i < |s| ==> r[i] == Lower(s[i])
  {
    seq(|s|, i requires 0 <= i < |s| => Lower(s[i]))
  }

  /** The specification of StringCompare: the key is at least as long as the prefix
      and starts with the prefix lowered character by character. */
  predicate HasPrefix(prefix: string, key: string) {
    |prefix| <= |key| && forall i :: 0 <= i < |prefix| ==> Lower(prefix[i]) == key[i]
  }

  lemma LetterIdx(c: char)
    requires IsLetter(c)
    ensures Letter(Idx(c)) == Lower(c)
  {
  }

  /** Two letters select the same slot exactly when they agree after lowering. */
  lemma IdxInjective(c: char, d: char)
    requires IsLetter(c) && IsLetter(d)
    ensures Idx(c) == Idx(d) <==> Lower(c) == Lower(d)
  {
  }

  /** Keys with different folded forms differ in their first slot or in their tails. */
  lemma FoldDiffers(s: string, t: string)
    requires IsKey(s) && IsKey(t) && |s| > 0 && |t| > 0 && Fold(s) != Fold(t)
    ensures Idx(s[0]) != Idx(t[0]) || Fold(s[1..]) != Fold(t[1..])
  {
    if Idx(s[0]) == Idx(t[0]) && Fold(s[1..]) == Fold(t[1..]) {
      IdxInjective(s[0], t[0]);
      assert false;
    }
  }

  /** Strict lexicographic order on strings by character code; on lower-case keys this is
      the order of the letters' child slots, a proper prefix coming first. */
  predicate LexLess(a: string, b: string) {
    if a == [] then b != []
    else b != [] && (a[0] < b[0] || (a[0] == b[0] && LexLess(a[1..], b[1..])))
  }

  /** Strictly increasing, hence also free of duplicates. */
  predicate Sorted(s: seq<string>) {
    forall i, j :: 0 <= i < j < |s| ==> LexLess(s[i], s[j])
  }

  /** Two strings that agree up to n and differ first at n are ordered by that character. */
  lemma {:induction false} LexLessAt(a: string, b: string, n: nat)
    requires n < |a| && n < |b| && a[..n] == b[..n] && a[n] < b[n]
    ensures LexLess(a, b)
    decreases n
  {
    if n > 0 {
      assert a[0] == a[..n][0] == b[..n][0] == b[0];
      assert a[1..][..n - 1] == a[..n][1..] == b[..n][1..] == b[1..][..n - 1];
      LexLessAt(a[1..], b[1..], n - 1);
    }
  }

  /** A proper prefix comes first. */
  lemma {:induction false} LexLessPrefix(a: string, b: string)
    requires |a| < |b| && a == b[..|a|]
    ensures LexLess(a, b)
    decreases |a|
  {
    if a != [] {
      assert a[1..] == b[1..][..|a| - 1];
      LexLessPrefix(a[1..], b[1..]);
    }
  }

  lemma {:induction false} LexLessIrreflexive(a: string)
    ensures !LexLess(a, a)
    decreases |a|
  {
    if a != [] {
      LexLessIrreflexive(a[1..]);
    }
  }

  /** A sorted list has no duplicates. */
  lemma SortedDistinct(s: seq<string>)
    requires Sorted(s)
    ensures forall i, j :: 0 <= i < j < |s| ==> s[i] != s[j]
  {
    forall i, j | 0 <= i < j < |s|
      ensures s[i] != s[j]
    {
      LexLessIrreflexive(s[i]);
    }
  }
}
