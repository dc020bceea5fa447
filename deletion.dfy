/**
 * The pruning loop of `delete` in createTrie.js: walking the node path of a
 * stored word backwards, clear the word's flag on its last node, stop at the
 * first node above it that ends another word, and unlink every childless
 * node from its parent on the way. The first node of the path (index 0) is
 * never visited, so a one-letter word is never deleted.
 */
module Deletion {
  import opened Nodes
  import opened Traversal

  /** `node.setIsCompleteString(false)` on node `x`. */
  function ClearMark(nodes: seq<TrieNode>, x: nat): (r: seq<TrieNode>)
    requires x < |nodes|
    ensures |r| == |nodes| && r == nodes[x := r[x]]
    ensures !r[x].isCompleteString && r[x].children == nodes[x].children
  {
    nodes[x := nodes[x].(isCompleteString := false)]
  }

  /** `delete parentNode.getChildren()[c]` on node `p`. */
  function Unlink(nodes: seq<TrieNode>, p: nat, c: char): (r: seq<TrieNode>)
    requires p < |nodes|
    ensures |r| == |nodes| && r == nodes[p := r[p]]
    ensures r[p].isCompleteString == nodes[p].isCompleteString
  {
    nodes[p := nodes[p].(children := DeleteKey(nodes[p].children, c))]
  }

  /** With distinct keys, the unlinked letter is left without a child and every other letter keeps its child. */
  lemma UnlinkLookup(nodes: seq<TrieNode>, p: nat, c: char, l: char)
    requires p < |nodes| && DistinctKeys(nodes[p].children)
    ensures Lookup(Unlink(nodes, p, c)[p].children, l) == if l == c then None else Lookup(nodes[p].children, l)
  {
    LookupDeleteKey(nodes[p].children, c, l);
  }

  /** Clearing the flag of a node other than the root keeps the tree invariant and every path. */
  lemma ClearMarkWf(nodes: seq<TrieNode>, x: nat)
    requires Wf(nodes) && 0 < x < |nodes|
    ensures Wf(ClearMark(nodes, x))
    ensures forall s :: Walk(ClearMark(nodes, x), s) == Walk(nodes, s)
  {
    var r := ClearMark(nodes, x);
    assert forall i :: 0 <= i < |r| ==> r[i].children == nodes[i].children;
    assert forall i :: 0 <= i < |r| ==> Targets(r[i].children, i, |r|) == Targets(nodes[i].children, i, |nodes|);
    assert forall i :: 0 <= i < |r| ==> DistinctKeys(r[i].children) == DistinctKeys(nodes[i].children);
    assert forall i, c :: 0 <= i < |r| ==> Child(r, i, c) == Child(nodes, i, c);
    forall s ensures Walk(r, s) == Walk(nodes, s) {
      SameLinksWalk(r, nodes, s);
    }
  }

  /** Every child of `DeleteKey(kids, c)` was a child in `kids`. */
  lemma DeleteKeyTargets(kids: seq<Edge>, c: char, lo: nat, hi: nat)
    requires Targets(kids, lo, hi)
    ensures Targets(DeleteKey(kids, c), lo, hi)
  {
    var k := Find(kids, c);
    if k < |kids| {
      var r := DeleteKey(kids, c);
      assert forall m :: 0 <= m < |r| ==> r[m] == (if m < k then kids[m] else kids[m + 1]);
    }
  }

  /** Unlinking a child keeps the tree invariant. */
  lemma UnlinkWf(nodes: seq<TrieNode>, p: nat, c: char)
    requires Wf(nodes) && p < |nodes|
    ensures Wf(Unlink(nodes, p, c))
  {
    var r := Unlink(nodes, p, c);
    assert Targets(nodes[p].children, p, |nodes|);
    DeleteKeyTargets(nodes[p].children, c, p, |nodes|);
    assert DistinctKeys(nodes[p].children);
    LookupDeleteKey(nodes[p].children, c, c);
    forall i | 0 <= i < |r| ensures Targets(r[i].children, i, |r|) {
      if i != p {
        assert Targets(nodes[i].children, i, |nodes|);
      }
    }
    forall i | 0 <= i < |r| ensures DistinctKeys(r[i].children) {
      if i != p {
        assert DistinctKeys(nodes[i].children);
      }
    }
    forall i, l | 0 <= i < |r| && Child(r, i, l).Some? ensures Child(r, i, l) == Child(nodes, i, l) {
      if i == p {
        LookupDeleteKey(nodes[p].children, c, l);
      }
    }
  }

  /** One letter after the node of `s`: only the step from `w` by `c` is lost. */
  lemma UnlinkStep(nodes: seq<TrieNode>, w: string, p: nat, c: char, s: string, y: nat, d: char)
    requires Wf(nodes) && Walk(nodes, w) == Some(p) && Walk(nodes, s) == Some(y)
    ensures y < |nodes|
    ensures Lookup(Unlink(nodes, p, c)[y].children, d) ==
      if s == w && d == c then None else Lookup(nodes[y].children, d)
  {
    assert DistinctKeys(nodes[p].children);
    LookupDeleteKey(nodes[p].children, c, d);
    if y == p {
      PathsUnique(nodes, s, w);
    }
  }

  /** `w + [c]` is a prefix of `s + [d]` when it is one of `s`, or when it is `s + [d]`. */
  lemma PrefixSnoc(w: string, c: char, s: string, d: char)
    ensures PrefixOf(w + [c], s + [d]) <==> PrefixOf(w + [c], s) || (s == w && d == c)
  {
    var u := w + [c];
    if |u| <= |s| {
      assert (s + [d])[..|u|] == s[..|u|];
    }
    if |u| == |s| + 1 {
      assert (s + [d])[..|u|] == s + [d];
      if u == s + [d] {
        assert u[..|w|] == w && (s + [d])[..|s|] == s;
        assert u[|w|] == c && (s + [d])[|s|] == d;
      }
    }
  }

  /**
   * After unlinking the child `c` of the node of `w`, exactly the strings
   * extending `w + [c]` stop being paths; every other path is kept.
   */
  lemma {:induction false} UnlinkWalk(nodes: seq<TrieNode>, w: string, p: nat, c: char, s: string)
    requires Wf(nodes) && Walk(nodes, w) == Some(p)
    ensures Ordered(Unlink(nodes, p, c))
    ensures Walk(Unlink(nodes, p, c), s) == if PrefixOf(w + [c], s) then None else Walk(nodes, s)
    decreases |s|
  {
    UnlinkWf(nodes, p, c);
    var r := Unlink(nodes, p, c);
    if s != [] {
      var s', d := s[..|s| - 1], s[|s| - 1];
      assert s == s' + [d];
      UnlinkWalk(nodes, w, p, c, s');
      WalkSnoc(nodes, s', d);
      WalkSnoc(r, s', d);
      PrefixSnoc(w, c, s', d);
      if !PrefixOf(w + [c], s') && Walk(nodes, s').Some? {
        UnlinkStep(nodes, w, p, c, s', Walk(nodes, s').value, d);
      }
    }
  }

  /**
   * Unlinking a leaf that ends no word loses nothing from any collection:
   * the leaf contributed no string.
   */
  lemma {:induction false} UnlinkCollect(nodes: seq<TrieNode>, p: nat, c: char, x: nat, y: nat, q: string)
    requires Wf(nodes) && p < |nodes| && Lookup(nodes[p].children, c) == Some(x) && x < |nodes|
    requires nodes[x].children == [] && !nodes[x].isCompleteString
    requires y < |nodes|
    ensures Ordered(Unlink(nodes, p, c))
    ensures Collect(Unlink(nodes, p, c), y, q) == Collect(nodes, y, q)
    decreases |nodes| - y, 1, 0
  {
    UnlinkWf(nodes, p, c);
    var r := Unlink(nodes, p, c);
    var kids := nodes[y].children;
    assert Targets(kids, y, |nodes|);
    if y != p {
      KidsUnlink(nodes, p, c, x, y, kids, q);
    } else {
      var k := Find(kids, c);
      assert k < |kids| && kids[k] == (c, x);
      var a, b := kids[..k], kids[k + 1..];
      assert r[p].children == a + b;
      assert kids == a + [(c, x)] + b;
      KidsUnlink(nodes, p, c, x, p, a + b, q);
      CollectKidsSkip(nodes, p, a, (c, x), b, q);
    }
  }

  /** An edge to a leaf that ends no word contributes nothing to a collection. */
  lemma CollectKidsSkip(nodes: seq<TrieNode>, i: nat, a: seq<Edge>, e: Edge, b: seq<Edge>, q: string)
    requires Ordered(nodes) && i < |nodes| && Targets(a + [e] + b, i, |nodes|)
    requires e.1 < |nodes| && nodes[e.1].children == [] && !nodes[e.1].isCompleteString
    ensures Targets(a + b, i, |nodes|)
    ensures CollectKids(nodes, i, a + [e] + b, q) == CollectKids(nodes, i, a + b, q)
  {
    var eb := [e] + b;
    assert a + [e] + b == a + eb;
    TargetsAppend(a, eb, i, |nodes|);
    TargetsAppend([e], b, i, |nodes|);
    CollectKidsAppend(nodes, i, a, eb, q);
    CollectKidsAppend(nodes, i, a, b, q);
    assert eb[1..] == b;
    assert Collect(nodes, e.1, q + [e.0]) == [];
  }

  lemma {:induction false} KidsUnlink(nodes: seq<TrieNode>, p: nat, c: char, x: nat, y: nat, kids: seq<Edge>, q: string)
    requires Wf(nodes) && p < |nodes| && Lookup(nodes[p].children, c) == Some(x) && x < |nodes|
    requires nodes[x].children == [] && !nodes[x].isCompleteString
    requires y < |nodes| && Targets(kids, y, |nodes|)
    ensures Ordered(Unlink(nodes, p, c))
    ensures CollectKids(Unlink(nodes, p, c), y, kids, q) == CollectKids(nodes, y, kids, q)
    decreases |nodes| - y, 0, |kids|
  {
    UnlinkWf(nodes, p, c);
    if kids != [] {
      var j := kids[0].1;
      UnlinkCollect(nodes, p, c, x, j, q + [kids[0].0]);
      KidsUnlink(nodes, p, c, x, y, kids[1..], q);
    }
  }

  /**
   * Clearing the flag of the node of `word` removes exactly `word` from the
   * collection below any node: every other collected string ends at another
   * node, whose flag is untouched.
   */
  lemma {:induction false} ClearMarkCollect(nodes: seq<TrieNode>, word: string, x: nat, q: string, y: nat)
    requires Wf(nodes) && Walk(nodes, word) == Some(x) && Walk(nodes, q) == Some(y)
    ensures Ordered(ClearMark(nodes, x))
    ensures Collect(ClearMark(nodes, x), y, q) == Without(Collect(nodes, y, q), word)
    decreases |nodes| - y, 1, 0
  {
    var kids := nodes[y].children;
    assert kids[0..] == kids;
    KidsClear(nodes, word, x, q, y, 0);
  }

  lemma {:induction false} KidsClear(nodes: seq<TrieNode>, word: string, x: nat, q: string, y: nat, m: nat)
    requires Wf(nodes) && Walk(nodes, word) == Some(x) && Walk(nodes, q) == Some(y)
    requires m <= |nodes[y].children|
    ensures Ordered(ClearMark(nodes, x)) && Targets(nodes[y].children[m..], y, |nodes|)
    ensures CollectKids(ClearMark(nodes, x), y, nodes[y].children[m..], q)
         == Without(CollectKids(nodes, y, nodes[y].children[m..], q), word)
    decreases |nodes| - y, 0, |nodes[y].children| - m
  {
    var r := ClearMark(nodes, x);
    ClearMarkLinks(nodes, x);
    var kids := nodes[y].children;
    assert Targets(kids, y, |nodes|);
    if m < |kids| {
      var c, j := kids[m].0, kids[m].1;
      var p := q + [c];
      LookupAt(kids, m);
      WalkSnoc(nodes, q, c);
      ClearMarkCollect(nodes, word, x, p, j);
      KidsClear(nodes, word, x, q, y, m + 1);
      assert kids[m..][1..] == kids[m + 1..];
      var head := if nodes[j].isCompleteString then [p] else [];
      var head' := if r[j].isCompleteString then [p] else [];
      if j == x {
        PathsUnique(nodes, p, word);
      } else if p == word {
        assert false;
      }
      assert Without(head, word) == head';
      WithoutAppend(head, Collect(nodes, j, p), word);
      WithoutAppend(head + Collect(nodes, j, p), CollectKids(nodes, y, kids[m + 1..], q), word);
    }
  }

  /** Clearing a flag changes no link. */
  lemma ClearMarkLinks(nodes: seq<TrieNode>, x: nat)
    requires Ordered(nodes) && x < |nodes|
    ensures Ordered(ClearMark(nodes, x))
    ensures forall i :: 0 <= i < |nodes| ==> ClearMark(nodes, x)[i].children == nodes[i].children
  {
    var r := ClearMark(nodes, x);
    forall i | 0 <= i < |r| ensures Targets(r[i].children, i, |r|) {
      assert Targets(nodes[i].children, i, |nodes|);
    }
  }

  /** Clearing the flag of the node of `word` removes `word`, and only it, from every listing. */
  lemma ClearMarkListing(nodes: seq<TrieNode>, word: string, x: nat, q: string)
    requires Wf(nodes) && Walk(nodes, word) == Some(x) && x != 0
    ensures Wf(ClearMark(nodes, x))
    ensures Listing(ClearMark(nodes, x), q) == Without(Listing(nodes, q), word)
  {
    ClearMarkWf(nodes, x);
    var r := ClearMark(nodes, x);
    match Walk(nodes, q) {
      case None =>
      case Some(y) =>
        ClearMarkCollect(nodes, word, x, q, y);
        var head := if nodes[y].isCompleteString then [q] else [];
        if y == x {
          PathsUnique(nodes, q, word);
        } else if q == word {
          assert false;
        }
        assert Without(head, word) == if r[y].isCompleteString then [q] else [];
        WithoutAppend(head, Collect(nodes, y, q), word);
    }
  }

  /** Unlinking a leaf that ends no word changes no listing. */
  lemma UnlinkListing(nodes: seq<TrieNode>, w: string, p: nat, c: char, x: nat, q: string)
    requires Wf(nodes) && Walk(nodes, w) == Some(p) && Lookup(nodes[p].children, c) == Some(x) && x < |nodes|
    requires nodes[x].children == [] && !nodes[x].isCompleteString
    ensures Wf(Unlink(nodes, p, c))
    ensures Listing(Unlink(nodes, p, c), q) == Listing(nodes, q)
  {
    UnlinkWf(nodes, p, c);
    var r := Unlink(nodes, p, c);
    UnlinkWalk(nodes, w, p, c, q);
    match Walk(nodes, q) {
      case None =>
      case Some(y) =>
        if PrefixOf(w + [c], q) {
          LeafPath(nodes, w, p, c, x, q);
          assert Collect(nodes, x, q) == [];
        } else {
          UnlinkCollect(nodes, p, c, x, y, q);
        }
    }
  }

  /** The only path through a leaf ends at that leaf. */
  lemma LeafPath(nodes: seq<TrieNode>, w: string, p: nat, c: char, x: nat, q: string)
    requires Wf(nodes) && Walk(nodes, w) == Some(p) && Lookup(nodes[p].children, c) == Some(x) && x < |nodes|
    requires nodes[x].children == []
    requires PrefixOf(w + [c], q) && Walk(nodes, q).Some?
    ensures q == w + [c] && Walk(nodes, q) == Some(x)
  {
    var u := w + [c];
    WalkSnoc(nodes, w, c);
    if |q| > |u| {
      WalkPrefix(nodes, q, |u| + 1);
      var v := q[..|u| + 1];
      assert v[..|u|] == q[..|u|] == u;
      WalkSnoc(nodes, u, v[|u|]);
      assert false;
    }
    assert q == q[..|u|];
  }

  /** `r` lists what `nodes` lists, less `word`. */
  ghost predicate Removed(nodes: seq<TrieNode>, r: seq<TrieNode>, word: string)
    requires Wf(nodes) && Wf(r)
  {
    forall q :: Listing(r, q) == Without(Listing(nodes, q), word)
  }

  /**
   * The state at the head of the loop of `remove(word)` at `index`: the
   * path up to `index` is intact, nothing has changed before the first
   * iteration, and `word` has been removed after it.
   * Callers state it as `Pruning(..) == true` so that Dafny keeps it as one proof goal
   * instead of splitting it into its conjuncts.
   */
  ghost predicate Pruning(nodes: seq<TrieNode>, word: string, path: seq<nat>, index: nat, r: seq<TrieNode>) {
    Wf(nodes) && OnPath(nodes, word, path) && IsWord(nodes, word) && index < |word| &&
    Wf(r) && |r| == |nodes| &&
    (forall j :: 0 <= j <= index ==> Walk(r, word[..j + 1]) == Some(path[j])) &&
    (index == |word| - 1 ==> r == nodes) &&
    (index < |word| - 1 ==> Removed(nodes, r, word))
  }

  /**
   * The state once the node at `index` is known not to be complete, before
   * the unlink test. Callers state it as `Unlinking(..) == true` so that
   * Dafny keeps it as one proof goal instead of splitting it into its conjuncts.
   */
  ghost predicate Unlinking(nodes: seq<TrieNode>, word: string, path: seq<nat>, index: nat, r: seq<TrieNode>) {
    Wf(nodes) && OnPath(nodes, word, path) && IsWord(nodes, word) && 0 < index < |word| &&
    Wf(r) && |r| == |nodes| &&
    (forall j :: 0 <= j <= index ==> Walk(r, word[..j + 1]) == Some(path[j])) &&
    !r[path[index]].isCompleteString && Removed(nodes, r, word)
  }

  /** Before the loop nothing has changed. */
  lemma PruneStart(nodes: seq<TrieNode>, word: string, path: seq<nat>)
    requires Wf(nodes) && OnPath(nodes, word, path) && IsWord(nodes, word)
    ensures |word| > 0 && Pruning(nodes, word, path, |word| - 1, nodes)
  {
    assert word != [];
  }

  /** At the last node, which ends `word`, the flag is cleared. */
  lemma PruneClear(nodes: seq<TrieNode>, word: string, path: seq<nat>, index: nat, r: seq<TrieNode>)
    requires Pruning(nodes, word, path, index, r) == true && 0 < index == |word| - 1
    ensures r[path[index]].isCompleteString
    ensures path[index] < |r| && Unlinking(nodes, word, path, index, ClearMark(r, path[index]))
  {
    var x := path[index];
    assert word[..index + 1] == word;
    ClearMarkWf(r, x);
    forall q ensures Listing(ClearMark(r, x), q) == Without(Listing(nodes, q), word) {
      ClearMarkListing(r, word, x, q);
    }
  }

  /** A node above the last that ends no word is left as it is. */
  lemma PrunePass(nodes: seq<TrieNode>, word: string, path: seq<nat>, index: nat, r: seq<TrieNode>)
    requires Pruning(nodes, word, path, index, r) == true && 0 < index
    requires path[index] < |r| && !r[path[index]].isCompleteString
    ensures Unlinking(nodes, word, path, index, r)
  {
    assert word[..|word| - 1 + 1] == word;
  }

  /** A childless node that ends no word is unlinked from its parent, the previous node of the path. */
  lemma PruneUnlink(nodes: seq<TrieNode>, word: string, path: seq<nat>, index: nat, r: seq<TrieNode>)
    requires Unlinking(nodes, word, path, index, r) == true
    requires r[path[index]].children == []
    ensures path[index - 1] < |r|
    ensures Pruning(nodes, word, path, index - 1, Unlink(r, path[index - 1], word[index]))
  {
    var x, p, c := path[index], path[index - 1], word[index];
    var w := word[..index];
    assert w + [c] == word[..index + 1];
    assert word[..index - 1 + 1] == w;
    WalkSnoc(r, w, c);
    UnlinkWf(r, p, c);
    var r' := Unlink(r, p, c);
    forall q ensures Listing(r', q) == Without(Listing(nodes, q), word) {
      UnlinkListing(r, w, p, c, x, q);
    }
    forall j | 0 <= j <= index - 1 ensures Walk(r', word[..j + 1]) == Some(path[j]) {
      UnlinkWalk(r, w, p, c, word[..j + 1]);
    }
  }

  /** A node that keeps children stays linked. */
  lemma PruneKeep(nodes: seq<TrieNode>, word: string, path: seq<nat>, index: nat, r: seq<TrieNode>)
    requires Unlinking(nodes, word, path, index, r) == true
    ensures Pruning(nodes, word, path, index - 1, r)
  {
  }

  /** The nodes of a path are distinct: their indices strictly increase. */
  lemma OnPathIncreasing(nodes: seq<TrieNode>, word: string, path: seq<nat>)
    requires Ordered(nodes) && |nodes| > 0 && OnPath(nodes, word, path)
    ensures forall a, b :: 0 <= a < b < |path| ==> path[a] < path[b]
  {
    forall a, b | 0 <= a < b < |path| ensures path[a] < path[b] {
      assert Walk(nodes, word[..a + 1]) == Some(path[a]);
      assert Walk(nodes, word[..b + 1]) == Some(path[b]);
      WalkIncreasing(nodes, word, a + 1, b + 1);
    }
  }

  /** Deleting a key that is present shortens the children list by one. */
  lemma DeleteKeyLength(kids: seq<Edge>, c: char)
    requires Lookup(kids, c).Some?
    ensures |DeleteKey(kids, c)| == |kids| - 1
  {
  }

  /** A string extending a prefix of `word` extends every shorter prefix too. */
  lemma PrefixShorter(word: string, a: nat, b: nat, s: string)
    requires a <= b <= |word| && PrefixOf(word[..b], s)
    ensures PrefixOf(word[..a], s)
  {
    assert s[..a] == s[..b][..a];
  }

  /**
   * The node of `word[..j + 1]` goes once everything below it on the path of
   * `word` has gone: the last node when it has no children, a node above it
   * when its only child is the next node of the path and it ends no word.
   */
  predicate Prunable(nodes: seq<TrieNode>, word: string, j: nat)
    requires Wf(nodes) && Reaches(nodes, word) && j < |word|
  {
    WalkPrefix(nodes, word, j + 1);
    var x := Walk(nodes, word[..j + 1]).value;
    if j == |word| - 1 then nodes[x].children == []
    else |nodes[x].children| == 1 && !nodes[x].isCompleteString
  }

  /**
   * Searching down from index `i`: the least `m >= 1` such that the nodes at
   * `m` to `i` are all prunable, or `i + 1` when the node at `i` is not.
   */
  function CutFrom(nodes: seq<TrieNode>, word: string, i: nat): (m: nat)
    requires Wf(nodes) && Reaches(nodes, word) && 1 <= i < |word|
    ensures 1 <= m <= i + 1
    ensures forall j :: m <= j <= i ==> Prunable(nodes, word, j)
    ensures m > 1 ==> !Prunable(nodes, word, m - 1)
    decreases i
  {
    if !Prunable(nodes, word, i) then i + 1
    else if i == 1 then 1
    else CutFrom(nodes, word, i - 1)
  }

  /**
   * Where `remove(word)` cuts the path of `word`: the least index `m >= 1`
   * from which every node of the path is prunable. The edge into the node at
   * `m` is removed, and everything below it goes; `m == |word|` when the last
   * node keeps children, and then nothing is cut.
   */
  function Cut(nodes: seq<TrieNode>, word: string): (m: nat)
    requires Wf(nodes) && Reaches(nodes, word) && word != []
    ensures 1 <= m <= |word|
    ensures forall j :: m <= j < |word| ==> Prunable(nodes, word, j)
    ensures m > 1 ==> !Prunable(nodes, word, m - 1)
  {
    if |word| == 1 then 1 else CutFrom(nodes, word, |word| - 1)
  }

  /** The cut is the only index with its two defining properties. */
  lemma CutUnique(nodes: seq<TrieNode>, word: string, x: nat)
    requires Wf(nodes) && Reaches(nodes, word) && 1 <= x <= |word|
    requires forall j :: x <= j < |word| ==> Prunable(nodes, word, j)
    requires x > 1 ==> !Prunable(nodes, word, x - 1)
    ensures Cut(nodes, word) == x
  {
  }

  /**
   * The state at the head of the loop of `remove(word)` at `index`, as far as
   * cutting goes: the paths lost are those through the node at `c`, the
   * first node cut so far (`c == |word|` when none is); the nodes of the path
   * above `index` are untouched, and the one at `index` has lost at most its
   * child at `c`; every node from `c` on is prunable, and when the cutting
   * has stopped below `index`, the node above `c` is not.
   * Callers state it as `Cutting(..) == true` so that Dafny keeps it as one proof goal
   * instead of splitting it into its conjuncts.
   */
  ghost predicate Cutting(nodes: seq<TrieNode>, word: string, path: seq<nat>, index: nat, r: seq<TrieNode>, c: nat) {
    Wf(nodes) && OnPath(nodes, word, path) && IsWord(nodes, word) && 1 < |word| &&
    index < c <= |word| && Wf(r) && |r| == |nodes| &&
    (forall s :: Walk(r, s) == if c < |word| && PrefixOf(word[..c + 1], s) then None else Walk(nodes, s)) &&
    (forall j :: 0 <= j < index ==> r[path[j]] == nodes[path[j]]) &&
    r[path[index]].children ==
      (if c == index + 1 && c < |word| then DeleteKey(nodes[path[index]].children, word[index + 1])
       else nodes[path[index]].children) &&
    (index < |word| - 1 ==> r[path[index]].isCompleteString == nodes[path[index]].isCompleteString) &&
    (forall j :: c <= j < |word| ==> Prunable(nodes, word, j)) &&
    (c > index + 1 ==> !Prunable(nodes, word, c - 1))
  }

  /** Along a node path, the node of the next letter is a child of the node before it. */
  lemma PathChild(nodes: seq<TrieNode>, word: string, path: seq<nat>, i: nat)
    requires Ordered(nodes) && |nodes| > 0 && OnPath(nodes, word, path) && i + 1 < |word|
    ensures path[i] < |nodes| && Lookup(nodes[path[i]].children, word[i + 1]) == Some(path[i + 1])
  {
    assert Walk(nodes, word[..i + 1]) == Some(path[i]);
    assert Walk(nodes, word[..i + 1 + 1]) == Some(path[i + 1]);
    assert word[..i + 1] + [word[i + 1]] == word[..i + 1 + 1];
    WalkSnoc(nodes, word[..i + 1], word[i + 1]);
  }

  /** Before the loop nothing is cut. */
  lemma CutStart(nodes: seq<TrieNode>, word: string, path: seq<nat>)
    requires Wf(nodes) && OnPath(nodes, word, path) && IsWord(nodes, word) && 1 < |word|
    ensures Cutting(nodes, word, path, |word| - 1, nodes, |word|)
  {
  }

  /** Clearing the flag of the last node cuts nothing. */
  lemma CutClear(nodes: seq<TrieNode>, word: string, path: seq<nat>, r: seq<TrieNode>, c: nat)
    requires 1 < |word| && Cutting(nodes, word, path, |word| - 1, r, c) == true
    ensures path[|word| - 1] < |r|
    ensures Cutting(nodes, word, path, |word| - 1, ClearMark(r, path[|word| - 1]), c)
  {
    var n := |word|;
    var x := path[n - 1];
    assert Walk(nodes, word[..n - 1 + 1]) == Some(x);
    ClearMarkWf(r, x);
    OnPathIncreasing(nodes, word, path);
  }

  /**
   * A childless node that ends no word, met by the loop: the cutting has not
   * stopped below it, it is prunable, and the path still leads to its parent.
   */
  lemma CutReached(nodes: seq<TrieNode>, word: string, path: seq<nat>, i: nat, r: seq<TrieNode>, c: nat)
    requires Cutting(nodes, word, path, i, r, c) == true && 1 <= i
    requires !r[path[i]].isCompleteString && r[path[i]].children == []
    ensures c == i + 1 && Prunable(nodes, word, i)
    ensures Walk(r, word[..i]) == Some(path[i - 1])
  {
    var n := |word|;
    var x := path[i];
    assert word[..i - 1 + 1] == word[..i];
    assert Walk(nodes, word[..i]) == Some(path[i - 1]);
    assert Walk(nodes, word[..i + 1]) == Some(x);
    if c < n {
      assert !PrefixOf(word[..c + 1], word[..i]);
    }
    if i < n - 1 {
      PathChild(nodes, word, path, i);
      DeleteKeyLength(nodes[x].children, word[i + 1]);
    }
  }

  /**
   * Unlinking the node of `word[..i + 1]` from its parent, when the paths lost
   * so far all run through it, loses exactly the paths through it.
   */
  lemma CutWalk(nodes: seq<TrieNode>, word: string, i: nat, r: seq<TrieNode>, c: nat, p: nat)
    requires Wf(nodes) && Wf(r) && 1 <= i < c <= |word| && Walk(r, word[..i]) == Some(p)
    requires c == i + 1
    requires forall s :: Walk(r, s) == if c < |word| && PrefixOf(word[..c + 1], s) then None else Walk(nodes, s)
    ensures Ordered(Unlink(r, p, word[i]))
    ensures forall s :: Walk(Unlink(r, p, word[i]), s) == if PrefixOf(word[..i + 1], s) then None else Walk(nodes, s)
  {
    var w := word[..i];
    assert w + [word[i]] == word[..i + 1];
    UnlinkWf(r, p, word[i]);
    forall s ensures Walk(Unlink(r, p, word[i]), s) == if PrefixOf(word[..i + 1], s) then None else Walk(nodes, s) {
      UnlinkWalk(r, w, p, word[i], s);
      if c < |word| && PrefixOf(word[..c + 1], s) {
        PrefixShorter(word, i + 1, c + 1, s);
      }
    }
  }

  /** The unlink step: the cut moves up to the node at `i`. */
  lemma CutUnlink(nodes: seq<TrieNode>, word: string, path: seq<nat>, i: nat, r: seq<TrieNode>, c: nat)
    requires Cutting(nodes, word, path, i, r, c) == true && 1 <= i
    requires !r[path[i]].isCompleteString && r[path[i]].children == []
    ensures path[i - 1] < |r|
    ensures Cutting(nodes, word, path, i - 1, Unlink(r, path[i - 1], word[i]), i)
  {
    var p := path[i - 1];
    CutReached(nodes, word, path, i, r, c);
    CutWalk(nodes, word, i, r, c, p);
    OnPathIncreasing(nodes, word, path);
    UnlinkWf(r, p, word[i]);
    var r' := Unlink(r, p, word[i]);
    assert forall j :: 0 <= j < i - 1 ==> r'[path[j]] == nodes[path[j]];
    forall j | i <= j < |word| ensures Prunable(nodes, word, j) {
      if j != i {
        assert c <= j;
      }
    }
  }

  /**
   * A node that keeps children stays linked, and the cutting stops: the cut
   * stays where it is, and the node just above it is not prunable.
   */
  lemma CutKeep(nodes: seq<TrieNode>, word: string, path: seq<nat>, i: nat, r: seq<TrieNode>, c: nat)
    requires Cutting(nodes, word, path, i, r, c) == true && 1 <= i
    requires r[path[i]].children != []
    ensures Cutting(nodes, word, path, i - 1, r, c)
  {
    var n := |word|;
    var x := path[i];
    assert Walk(nodes, word[..i + 1]) == Some(x);
    if c == i + 1 && i < n - 1 {
      PathChild(nodes, word, path, i);
      DeleteKeyLength(nodes[x].children, word[i + 1]);
    }
    assert c > i + 1 || !Prunable(nodes, word, i);
    assert word[..i - 1 + 1] == word[..i];
  }

  /**
   * Where the loop ends, at the root's child or at a node above the last
   * that ends a word, the cut is `Cut(nodes, word)`: exactly the paths
   * through the node at the cut are lost.
   */
  lemma CutDone(nodes: seq<TrieNode>, word: string, path: seq<nat>, i: nat, r: seq<TrieNode>, c: nat)
    requires Cutting(nodes, word, path, i, r, c) == true
    requires i == 0 || (i < |word| - 1 && r[path[i]].isCompleteString)
    ensures c == Cut(nodes, word)
    ensures forall s :: Walk(r, s) == if Cut(nodes, word) < |word| && PrefixOf(word[..Cut(nodes, word) + 1], s) then None else Walk(nodes, s)
  {
    if c == i + 1 && i > 0 {
      assert Walk(nodes, word[..i + 1]) == Some(path[i]);
      assert !Prunable(nodes, word, i);
    }
    CutUnique(nodes, word, c);
    CutIsCut(nodes, word, r, c);
  }

  /** The paths lost below the cut `c`, once `c` is known to be `Cut(nodes, word)`. */
  lemma CutIsCut(nodes: seq<TrieNode>, word: string, r: seq<TrieNode>, c: nat)
    requires Wf(nodes) && Wf(r) && Reaches(nodes, word) && word != [] && c == Cut(nodes, word)
    requires forall s :: Walk(r, s) == if c < |word| && PrefixOf(word[..c + 1], s) then None else Walk(nodes, s)
    ensures forall s :: Walk(r, s) == if Cut(nodes, word) < |word| && PrefixOf(word[..Cut(nodes, word) + 1], s) then None else Walk(nodes, s)
  {
  }

  /**
   * The loop of `remove(word)` over the node path of a stored word, from its
   * last node back to the second: the flag of the last node is cleared, the
   * loop returns at the first complete node above it, and a childless node
   * is unlinked from its parent. With two letters or more, exactly `word`
   * leaves every listing; a one-letter word is left in place. The node of
   * the first letter is never unlinked from the root. Exactly the paths
   * through the node at `Cut(nodes, word)` are lost, every other path
   * reaching the same node as before.
   */
  method Prune(nodes: seq<TrieNode>, word: string, path: seq<nat>) returns (r: seq<TrieNode>)
    requires Wf(nodes) && OnPath(nodes, word, path) && IsWord(nodes, word)
    ensures Wf(r) && |r| == |nodes|
    ensures |word| == 1 ==> r == nodes
    ensures |word| > 1 ==> forall q :: Listing(r, q) == Without(Listing(nodes, q), word)
    ensures |word| > 0 && Walk(r, word[..1]) == Some(path[0])
    ensures forall s :: Walk(r, s) == if Cut(nodes, word) < |word| && PrefixOf(word[..Cut(nodes, word) + 1], s) then None else Walk(nodes, s)
  {
    PruneStart(nodes, word, path);
    var lastNodeIndex := |path| - 1;
    r := nodes;
    var index := lastNodeIndex;
    ghost var cut: nat := |word|;
    if 1 < |word| {
      CutStart(nodes, word, path);
    }
    while index > 0
      invariant 0 <= index && Pruning(nodes, word, path, index, r) == true
      invariant 1 < |word| ==> Cutting(nodes, word, path, index, r, cut) == true
    {
      var node := path[index];
      var parentNode := path[index - 1];
      if r[node].isCompleteString {
        if index == lastNodeIndex {
          PruneClear(nodes, word, path, index, r);
          CutClear(nodes, word, path, r, cut);
          r := ClearMark(r, node);
        } else {
          CutDone(nodes, word, path, index, r, cut);
          return;
        }
      } else {
        PrunePass(nodes, word, path, index, r);
      }
      if IsEmpty(r[node].children) {
        PruneUnlink(nodes, word, path, index, r);
        CutUnlink(nodes, word, path, index, r, cut);
        r := Unlink(r, parentNode, word[index]);
        cut := index;
      } else {
        PruneKeep(nodes, word, path, index, r);
        CutKeep(nodes, word, path, index, r, cut);
      }
      index := index - 1;
    }
    if 1 < |word| {
      CutDone(nodes, word, path, index, r, cut);
    }
  }
}
