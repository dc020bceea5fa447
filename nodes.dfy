/**
 * The node store shared by both trie variants.
 *
 * Every node of a trie lives in one sequence; index 0 is the root. A node
 * keeps its children as an insertion-ordered list of edges `(letter, index)`,
 * which is how a JavaScript object keyed by single letters enumerates its
 * keys. A node's own letter (`getValue()`) is the key under which its parent
 * stores it, so it is not repeated in the node. A child is always created
 * after its parent, so its index is larger: that ordering is what makes the
 * recursive traversals terminate.
 */
module Nodes {

  datatype Option<T> = None | Some(value: T)

  /** A child link: the letter and the index of the child node. */
  type Edge = (char, nat)

  /** `createTrieNode(letter)`: a children map and the `isCompleteString` flag. */
  datatype TrieNode = TrieNode(children: seq<Edge>, isCompleteString: bool)

  /** A node as `createTrieNode` makes it: no children, not the end of a word. */
  const FreshNode := TrieNode([], false)

  /** Position of the first edge keyed by `c`, or `|kids|` when there is none. */
  function Find(kids: seq<Edge>, c: char): (k: nat)
    ensures k <= |kids|
    ensures k < |kids| ==> kids[k].0 == c
  {
    if kids == [] then 0
    else if kids[0].0 == c then 0
    else 1 + Find(kids[1..], c)
  }

  /** No edge before the one found is keyed by `c`. */
  lemma {:induction false} FindFirst(kids: seq<Edge>, c: char)
    ensures forall m :: 0 <= m < Find(kids, c) ==> kids[m].0 != c
  {
    if kids != [] && kids[0].0 != c {
      FindFirst(kids[1..], c);
    }
  }

  /** `children[letter]`: the child stored under `c`, if any. */
  function Lookup(kids: seq<Edge>, c: char): Option<nat> {
    var k := Find(kids, c);
    if k < |kids| then Some(kids[k].1) else None
  }

  /** The keys of a children map are distinct. */
  predicate DistinctKeys(kids: seq<Edge>) {
    forall a, b :: 0 <= a < b < |kids| ==> kids[a].0 != kids[b].0
  }

  /** With distinct keys, the edge at position `m` is the one found for its letter. */
  lemma LookupAt(kids: seq<Edge>, m: nat)
    requires DistinctKeys(kids) && m < |kids|
    ensures Find(kids, kids[m].0) == m
    ensures Lookup(kids, kids[m].0) == Some(kids[m].1)
  {
    FindFirst(kids, kids[m].0);
  }

  /** `children[c]` is undefined exactly when no edge has the key `c`; a defined one is an edge's child. */
  lemma LookupNone(kids: seq<Edge>, c: char)
    ensures Lookup(kids, c).None? <==> forall m :: 0 <= m < |kids| ==> kids[m].0 != c
    ensures Lookup(kids, c).Some? ==> (c, Lookup(kids, c).value) in kids
  {
    FindFirst(kids, c);
  }

  /** `isEmpty(children)`: the map has no own key. */
  function IsEmpty(kids: seq<Edge>): (r: bool)
    ensures r <==> forall c :: Lookup(kids, c).None?
  {
    if kids == [] then true
    else assert Lookup(kids, kids[0].0).Some?; false
  }

  /**
   * `delete children[c]`: removes the entry for `c`; the entries after it
   * keep their relative order.
   */
  function DeleteKey(kids: seq<Edge>, c: char): seq<Edge> {
    var k := Find(kids, c);
    if k < |kids| then kids[..k] + kids[k + 1..] else kids
  }

  /** After `delete children[c]` the key `c` is gone and every other key maps as before. */
  lemma LookupDeleteKey(kids: seq<Edge>, c: char, l: char)
    requires DistinctKeys(kids)
    ensures DistinctKeys(DeleteKey(kids, c))
    ensures Lookup(DeleteKey(kids, c), l) == if l == c then None else Lookup(kids, l)
  {
    var k := Find(kids, c);
    var r := DeleteKey(kids, c);
    if k < |kids| {
      assert forall m :: 0 <= m < |r| ==> r[m] == (if m < k then kids[m] else kids[m + 1]);
      var f := Find(kids, l);
      var g := Find(r, l);
      FindFirst(kids, l);
      FindFirst(kids, c);
      FindFirst(r, l);
      if l == c {
        assert g == |r|;
      } else if f < k {
        assert r[f] == kids[f];
        assert g <= f;
        assert g == f;
      } else if f < |kids| {
        assert f > k;
        assert r[f - 1] == kids[f];
        assert g == f - 1;
      } else {
        assert g == |r|;
      }
    }
  }

  /** Appending an edge for a letter not yet present adds exactly that key. */
  lemma LookupAppend(kids: seq<Edge>, e: Edge, l: char)
    requires Lookup(kids, e.0).None?
    ensures Lookup(kids + [e], l) == if l == e.0 then Some(e.1) else Lookup(kids, l)
  {
    var f := Find(kids, l);
    var g := Find(kids + [e], l);
    FindFirst(kids, l);
    FindFirst(kids + [e], l);
    if f < |kids| {
      assert (kids + [e])[f].0 == l;
      assert g == f;
    } else if l == e.0 {
      assert (kids + [e])[|kids|].0 == l;
      assert g == |kids|;
    } else {
      assert g == |kids| + 1;
    }
  }

  /** Every child index is larger than its parent's and inside the store. */
  predicate Targets(kids: seq<Edge>, lo: nat, hi: nat) {
    forall k :: 0 <= k < |kids| ==> lo < kids[k].1 < hi
  }

  /** The edges of a concatenation point inside a range exactly when those of both parts do. */
  lemma TargetsAppend(a: seq<Edge>, b: seq<Edge>, lo: nat, hi: nat)
    ensures Targets(a + b, lo, hi) <==> Targets(a, lo, hi) && Targets(b, lo, hi)
  {
    if Targets(a + b, lo, hi) {
      forall k | 0 <= k < |b| ensures lo < b[k].1 < hi {
        assert b[k] == (a + b)[|a| + k];
      }
      forall k | 0 <= k < |a| ensures lo < a[k].1 < hi {
        assert a[k] == (a + b)[k];
      }
    }
  }

  predicate Ordered(nodes: seq<TrieNode>) {
    forall i {:trigger Targets(nodes[i].children, i, |nodes|)} ::
      0 <= i < |nodes| ==> Targets(nodes[i].children, i, |nodes|)
  }

  predicate Keyed(nodes: seq<TrieNode>) {
    forall i {:trigger DistinctKeys(nodes[i].children)} ::
      0 <= i < |nodes| ==> DistinctKeys(nodes[i].children)
  }

  /**
   * The child of node `i` under `c`. The tree invariant is stated with this
   * name rather than with `Lookup`, so that it is applied where a proof asks
   * for it and not to every lookup a walk unfolds.
   */
  function Child(nodes: seq<TrieNode>, i: nat, c: char): Option<nat>
    requires i < |nodes|
  {
    Lookup(nodes[i].children, c)
  }

  /** No node is the child of two parents, nor of one parent under two letters. */
  predicate SingleParent(nodes: seq<TrieNode>) {
    forall i1, c1, i2, c2 ::
      0 <= i1 < |nodes| && 0 <= i2 < |nodes| &&
      Child(nodes, i1, c1).Some? && Child(nodes, i1, c1) == Child(nodes, i2, c2)
      ==> i1 == i2 && c1 == c2
  }

  /**
   * The tree invariant: a root exists and is never the end of a word, the
   * links form a tree, and each children map has distinct keys.
   */
  predicate Wf(nodes: seq<TrieNode>) {
    |nodes| > 0 && !nodes[0].isCompleteString &&
    Ordered(nodes) && Keyed(nodes) && SingleParent(nodes)
  }

  /**
   * The node reached from the root by following the letters of `w`, or None
   * when some letter has no child.
   */
  function Walk(nodes: seq<TrieNode>, w: string): (r: Option<nat>)
    requires Ordered(nodes) && |nodes| > 0
    ensures r.Some? ==> r.value < |nodes|
    ensures r.Some? ==> (r.value == 0 <==> w == [])
    decreases |w|
  {
    if w == [] then Some(0)
    else match Walk(nodes, w[..|w| - 1])
      case None => None
      case Some(i) =>
        assert Targets(nodes[i].children, i, |nodes|);
        Lookup(nodes[i].children, w[|w| - 1])
  }

  /**
   * `s` is a path of the store. Quantified facts about paths are stated with
   * this predicate (and `Keeps`) so that they are not triggered by the
   * recursive unfolding of `Walk`.
   */
  predicate Reaches(nodes: seq<TrieNode>, s: string)
    requires Ordered(nodes) && |nodes| > 0
  {
    Walk(nodes, s).Some?
  }

  /** The path `s`, if it exists in `a`, leads to the same node in `b`. */
  predicate Keeps(a: seq<TrieNode>, b: seq<TrieNode>, s: string)
    requires Ordered(a) && |a| > 0 && Ordered(b) && |b| > 0
  {
    Walk(a, s).Some? ==> Walk(b, s) == Walk(a, s)
  }

  /** One more letter is one more step from the node reached so far. */
  lemma WalkSnoc(nodes: seq<TrieNode>, w: string, c: char)
    requires Ordered(nodes) && |nodes| > 0
    ensures Walk(nodes, w + [c]) ==
      match Walk(nodes, w)
      case None => None
      case Some(i) => Lookup(nodes[i].children, c)
  {
    assert (w + [c])[..|w|] == w;
  }

  /** `s` is a prefix of `word`. */
  predicate PrefixOf(s: string, word: string) {
    |s| <= |word| && s == word[..|s|]
  }

  /** `s` is a prefix of `word` and shorter than it. */
  predicate StrictPrefixOf(s: string, word: string) {
    |s| < |word| && s == word[..|s|]
  }

  /** `w` spells a stored word: its path exists and ends at a complete node. */
  predicate IsWord(nodes: seq<TrieNode>, w: string)
    requires Ordered(nodes) && |nodes| > 0
  {
    match Walk(nodes, w)
    case None => false
    case Some(i) => nodes[i].isCompleteString
  }

  /**
   * `path` lists the nodes met when following `word` from the root, one per
   * letter, the root excluded: what `getNodePath(word)` returns when every
   * letter has a child.
   */
  predicate OnPath(nodes: seq<TrieNode>, word: string, path: seq<nat>)
    requires Ordered(nodes) && |nodes| > 0
  {
    |path| == |word| && forall j :: 0 <= j < |path| ==> Walk(nodes, word[..j + 1]) == Some(path[j])
  }

  /** A path that exists has all its prefixes. */
  lemma {:induction false} WalkPrefix(nodes: seq<TrieNode>, w: string, k: nat)
    requires Ordered(nodes) && |nodes| > 0 && k <= |w|
    ensures Walk(nodes, w).Some? ==> Walk(nodes, w[..k]).Some?
    decreases |w|
  {
    if k < |w| {
      var v := w[..|w| - 1];
      assert v[..k] == w[..k];
      WalkPrefix(nodes, v, k);
    } else {
      assert w[..k] == w;
    }
  }

  /** The nodes along a path have strictly increasing indices. */
  lemma {:induction false} WalkIncreasing(nodes: seq<TrieNode>, w: string, a: nat, b: nat)
    requires Ordered(nodes) && |nodes| > 0
    requires a < b <= |w| && Walk(nodes, w[..b]).Some?
    ensures Walk(nodes, w[..a]).Some? && Walk(nodes, w[..a]).value < Walk(nodes, w[..b]).value
    decreases b
  {
    var v := w[..b - 1];
    assert w[..b][..b - 1] == v;
    var x := Walk(nodes, v).value;
    assert Targets(nodes[x].children, x, |nodes|);
    if a < b - 1 {
      assert v == w[..b - 1];
      WalkIncreasing(nodes, w, a, b - 1);
    }
  }

  /** Paths are unique: two words that reach the same node are the same word. */
  lemma {:induction false} PathsUnique(nodes: seq<TrieNode>, s: string, t: string)
    requires Wf(nodes)
    requires Walk(nodes, s).Some? && Walk(nodes, s) == Walk(nodes, t)
    ensures s == t
    decreases |s|
  {
    if s != [] {
      var s', t' := s[..|s| - 1], t[..|t| - 1];
      var x, y := Walk(nodes, s').value, Walk(nodes, t').value;
      assert Child(nodes, x, s[|s| - 1]) == Child(nodes, y, t[|t| - 1]);
      PathsUnique(nodes, s', t');
      assert s == s' + [s[|s| - 1]];
      assert t == t' + [t[|t| - 1]];
    }
  }

  /** Two stores with the same links walk alike, whatever their flags. */
  lemma {:induction false} SameLinksWalk(a: seq<TrieNode>, b: seq<TrieNode>, w: string)
    requires Ordered(a) && Ordered(b) && |a| == |b| > 0
    requires forall i :: 0 <= i < |a| ==> a[i].children == b[i].children
    ensures Walk(a, w) == Walk(b, w)
    decreases |w|
  {
    if w != [] {
      SameLinksWalk(a, b, w[..|w| - 1]);
    }
  }
}
