/**
 * The insertion walk shared by both trie variants (`insert`, the `reduce`
 * over the letters of the trimmed word): reuse the child for each letter or
 * create it when absent, and mark complete every node on the path whose
 * letter equals the word's last letter.
 */
module Insertion {
  import opened Nodes
  import opened Text

  /**
   * The words `insert(word)` makes complete: every non-empty prefix of `word`
   * whose last letter equals the last letter of `word`. For "banana" these
   * are "ba", "bana" and "banana"; for "hey" only "hey".
   */
  predicate MarkedBy(word: string, s: string)
    ensures MarkedBy(word, s) ==> s != [] && PrefixOf(s, word)
    ensures s == word && word != [] ==> MarkedBy(word, s)
  {
    0 < |s| <= |word| && s == word[..|s|] && word[|s| - 1] == word[|word| - 1]
  }

  /** `s` is marked by one of the first `k` letters of `word`. */
  predicate MarkedWithin(word: string, k: nat, s: string) {
    MarkedBy(word, s) && |s| <= k
  }

  /** Node `b` is node `a` with children appended and perhaps the flag set, never cleared. */
  predicate Grows(a: TrieNode, b: TrieNode) {
    |a.children| <= |b.children| && b.children[..|a.children|] == a.children &&
    (a.isCompleteString ==> b.isCompleteString)
  }

  /** `children[letter] = createTrieNode(letter)` on node `p`; the new node goes at the end of the store. */
  function AddChild(nodes: seq<TrieNode>, p: nat, c: char): (r: seq<TrieNode>)
    requires p < |nodes|
    ensures |r| == |nodes| + 1 && r[|nodes|] == FreshNode && r[..|nodes|] == nodes[p := r[p]]
    ensures Grows(nodes[p], r[p]) && r[p].isCompleteString == nodes[p].isCompleteString
    ensures |r[p].children| == |nodes[p].children| + 1 && r[p].children[|nodes[p].children|] == (c, |nodes|)
  {
    nodes[p := nodes[p].(children := nodes[p].children + [(c, |nodes|)])] + [FreshNode]
  }

  /** `trieNode.setIsCompleteString(true)` on node `x`. */
  function Mark(nodes: seq<TrieNode>, x: nat): (r: seq<TrieNode>)
    requires x < |nodes|
    ensures |r| == |nodes| && r == nodes[x := r[x]]
    ensures r[x].isCompleteString && r[x].children == nodes[x].children
  {
    nodes[x := nodes[x].(isCompleteString := true)]
  }

  /** The number of leading letters of `w` whose path already exists. */
  function Matched(nodes: seq<TrieNode>, w: string): (k: nat)
    requires Ordered(nodes) && |nodes| > 0
    ensures k <= |w| && Reaches(nodes, w[..k])
    ensures forall m :: k < m <= |w| ==> !Reaches(nodes, w[..m])
    decreases |w|
  {
    if Walk(nodes, w).Some? then
      assert w[..|w|] == w; |w|
    else
      var v := w[..|w| - 1];
      assert forall m :: 0 <= m <= |v| ==> v[..m] == w[..m];
      assert w[..|w|] == w;
      Matched(nodes, v)
  }

  /** The prefixes of `w` that are paths are exactly the first `Matched(nodes, w)` ones. */
  lemma MatchedPrefix(nodes: seq<TrieNode>, w: string, m: nat)
    requires Ordered(nodes) && |nodes| > 0 && m <= |w|
    ensures Reaches(nodes, w[..m]) <==> m <= Matched(nodes, w)
  {
    var k := Matched(nodes, w);
    if m <= k {
      WalkPrefix(nodes, w[..k], m);
      SliceSlice(w, k, m);
    }
  }

  lemma AddChildLookup(nodes: seq<TrieNode>, p: nat, c: char, i: nat, l: char)
    requires p < |nodes| && Lookup(nodes[p].children, c).None? && i <= |nodes|
    ensures Lookup(AddChild(nodes, p, c)[i].children, l) ==
      if i == |nodes| then None
      else if i == p && l == c then Some(|nodes|)
      else Lookup(nodes[i].children, l)
  {
    if i == p {
      LookupAppend(nodes[p].children, (c, |nodes|), l);
    }
  }

  /** The new child goes after every existing node, so child indices still exceed their parents'. */
  lemma AddChildOrdered(nodes: seq<TrieNode>, p: nat, c: char)
    requires Ordered(nodes) && p < |nodes|
    ensures Ordered(AddChild(nodes, p, c))
  {
    var r := AddChild(nodes, p, c);
    forall i | 0 <= i < |r| ensures Targets(r[i].children, i, |r|) {
      if i < |nodes| {
        assert Targets(nodes[i].children, i, |nodes|);
      }
    }
  }

  /** Setting a flag leaves every link where it was. */
  lemma MarkOrdered(nodes: seq<TrieNode>, x: nat)
    requires Ordered(nodes) && x < |nodes|
    ensures Ordered(Mark(nodes, x))
  {
    forall i | 0 <= i < |nodes| ensures Targets(Mark(nodes, x)[i].children, i, |nodes|) {
      assert Targets(nodes[i].children, i, |nodes|);
    }
  }

  /** Linking a fresh child for an absent letter keeps the tree invariant. */
  lemma AddChildWf(nodes: seq<TrieNode>, p: nat, c: char)
    requires Wf(nodes) && p < |nodes| && Lookup(nodes[p].children, c).None?
    ensures Wf(AddChild(nodes, p, c))
  {
    var r := AddChild(nodes, p, c);
    var n := |nodes|;
    forall i, l | 0 <= i < |r|
      ensures Lookup(r[i].children, l) ==
        if i == n then None else if i == p && l == c then Some(n) else Lookup(nodes[i].children, l)
    {
      AddChildLookup(nodes, p, c, i, l);
    }
    AddChildOrdered(nodes, p, c);
    forall i | 0 <= i < |r| ensures DistinctKeys(r[i].children) {
      if i == p {
        assert DistinctKeys(nodes[p].children);
        FindFirst(nodes[p].children, c);
        assert Find(nodes[p].children, c) == |nodes[p].children|;
      }
    }
    forall i1, c1, i2, c2 |
      0 <= i1 < |r| && 0 <= i2 < |r| &&
      Child(r, i1, c1).Some? && Child(r, i1, c1) == Child(r, i2, c2)
      ensures i1 == i2 && c1 == c2
    {
      var v := Child(r, i1, c1).value;
      if i1 < n {
        assert Targets(nodes[i1].children, i1, n);
      }
      if i2 < n {
        assert Targets(nodes[i2].children, i2, n);
      }
      if v == n {
        assert i1 == p && c1 == c;
        assert i2 == p && c2 == c;
      } else {
        assert Child(nodes, i1, c1) == Child(r, i1, c1);
        assert Child(nodes, i2, c2) == Child(r, i2, c2);
      }
    }
  }

  /**
   * Linking a fresh child under the node of `w` adds exactly the path
   * `w + [c]`, leading to a node that is not complete; every other path and
   * every word stays as it was.
   */
  lemma {:induction false} AddChildWalk(nodes: seq<TrieNode>, w: string, p: nat, c: char, s: string)
    requires Wf(nodes) && Walk(nodes, w) == Some(p) && Lookup(nodes[p].children, c).None?
    ensures Wf(AddChild(nodes, p, c))
    ensures Walk(AddChild(nodes, p, c), s) ==
      if Walk(nodes, s).Some? then Walk(nodes, s)
      else if s == w + [c] then Some(|nodes|)
      else None
    decreases |s|
  {
    var r := AddChild(nodes, p, c);
    AddChildWf(nodes, p, c);
    if s != [] {
      var s', l := s[..|s| - 1], s[|s| - 1];
      AddChildWalk(nodes, w, p, c, s');
      assert s == s' + [l];
      match Walk(nodes, s') {
        case Some(x) =>
          AddChildLookup(nodes, p, c, x, l);
          if x == p && l == c {
            PathsUnique(nodes, s', w);
          }
          if s == w + [c] {
            assert s' == w;
          }
        case None =>
          if s' == w + [c] {
            AddChildLookup(nodes, p, c, |nodes|, l);
          }
          assert s' != w;
      }
    }
  }

  /**
   * Setting the flag of the node of `w` (never the root) makes `w` a word and
   * changes nothing else.
   */
  lemma MarkWalk(nodes: seq<TrieNode>, w: string, x: nat, s: string)
    requires Wf(nodes) && Walk(nodes, w) == Some(x) && w != []
    ensures Wf(Mark(nodes, x))
    ensures Walk(Mark(nodes, x), s) == Walk(nodes, s)
    ensures IsWord(Mark(nodes, x), s) <==> IsWord(nodes, s) || s == w
  {
    var r := Mark(nodes, x);
    assert forall i :: 0 <= i < |r| ==> r[i].children == nodes[i].children;
    assert forall i, c :: 0 <= i < |r| ==> Child(r, i, c) == Child(nodes, i, c);
    SameLinksWalk(r, nodes, s);
    if Walk(nodes, s) == Some(x) {
      PathsUnique(nodes, s, w);
    }
  }

  lemma GrowsTrans(a: TrieNode, b: TrieNode, c: TrieNode)
    requires Grows(a, b) && Grows(b, c)
    ensures Grows(a, c)
  {
    assert c.children[..|a.children|] == c.children[..|b.children|][..|a.children|];
  }

  /** The fresh node is not a word, so linking it adds no word. */
  lemma AddChildWord(nodes: seq<TrieNode>, w: string, p: nat, c: char, s: string)
    requires Wf(nodes) && Walk(nodes, w) == Some(p) && Lookup(nodes[p].children, c).None?
    ensures Wf(AddChild(nodes, p, c))
    ensures IsWord(AddChild(nodes, p, c), s) == IsWord(nodes, s)
  {
    AddChildWalk(nodes, w, p, c, s);
  }

  /** The effect of linking a fresh child for `c` under the node of `w`, for every path at once. */
  lemma AddChildEffect(nodes: seq<TrieNode>, w: string, p: nat, c: char)
    requires Wf(nodes) && Walk(nodes, w) == Some(p) && Lookup(nodes[p].children, c).None?
    ensures Wf(AddChild(nodes, p, c)) && |AddChild(nodes, p, c)| == |nodes| + 1
    ensures Walk(AddChild(nodes, p, c), w + [c]) == Some(|nodes|)
    ensures forall s :: Keeps(nodes, AddChild(nodes, p, c), s)
    ensures forall s :: Reaches(AddChild(nodes, p, c), s) <==> Reaches(nodes, s) || s == w + [c]
    ensures forall s :: IsWord(AddChild(nodes, p, c), s) == IsWord(nodes, s)
    ensures forall i {:trigger Grows(nodes[i], AddChild(nodes, p, c)[i])} :: 0 <= i < |nodes| ==> Grows(nodes[i], AddChild(nodes, p, c)[i])
  {
    var r := AddChild(nodes, p, c);
    AddChildWf(nodes, p, c);
    WalkSnoc(nodes, w, c);
    AddChildWalk(nodes, w, p, c, w + [c]);
    forall s ensures Keeps(nodes, r, s) && (Reaches(r, s) <==> Reaches(nodes, s) || s == w + [c])
      && IsWord(r, s) == IsWord(nodes, s)
    {
      AddChildWalk(nodes, w, p, c, s);
      AddChildWord(nodes, w, p, c, s);
    }
  }

  /** The effect of setting the flag of the node of `w`, for every path at once. */
  lemma MarkEffect(nodes: seq<TrieNode>, w: string, x: nat)
    requires Wf(nodes) && Walk(nodes, w) == Some(x) && w != []
    ensures Wf(Mark(nodes, x)) && |Mark(nodes, x)| == |nodes|
    ensures Walk(Mark(nodes, x), w) == Some(x)
    ensures forall s :: Keeps(nodes, Mark(nodes, x), s)
    ensures forall s :: Reaches(Mark(nodes, x), s) <==> Reaches(nodes, s)
    ensures forall s :: IsWord(Mark(nodes, x), s) <==> IsWord(nodes, s) || s == w
    ensures forall i {:trigger Grows(nodes[i], Mark(nodes, x)[i])} :: 0 <= i < |nodes| ==> Grows(nodes[i], Mark(nodes, x)[i])
  {
    MarkWalk(nodes, w, x, w);
    forall s ensures Keeps(nodes, Mark(nodes, x), s) && (Reaches(Mark(nodes, x), s) <==> Reaches(nodes, s))
      && (IsWord(Mark(nodes, x), s) <==> IsWord(nodes, s) || s == w)
    {
      MarkWalk(nodes, w, x, s);
    }
  }

  /**
   * `b` is `a` after one step from the node of `w` by the letter `c`: a node
   * was created exactly when `w + [c]` was not yet a path, the old paths
   * lead where they did, `w + [c]` is the only new path, it became a word
   * exactly when `mark`, and every old node has only grown.
   */
  ghost predicate Descended(a: seq<TrieNode>, b: seq<TrieNode>, w: string, c: char, mark: bool)
    requires Ordered(a) && |a| > 0 && Ordered(b) && |b| > 0
  {
    |b| == |a| + (if Reaches(a, w + [c]) then 0 else 1) &&
    (forall s :: Keeps(a, b, s)) &&
    (forall s :: Reaches(b, s) <==> Reaches(a, s) || s == w + [c]) &&
    (forall s :: IsWord(b, s) <==> IsWord(a, s) || (mark && s == w + [c])) &&
    (forall i {:trigger Grows(a[i], b[i])} :: 0 <= i < |a| ==> Grows(a[i], b[i]))
  }

  /**
   * One call of the `reduce` callback in `insert`: from node `p`, take the
   * child for `letter`, creating and linking it when absent, and set its
   * flag when `mark` (the letter equals the word's last letter). The result
   * is the store and the child, which the callback hands to the next letter.
   */
  function Descent(nodes: seq<TrieNode>, p: nat, letter: char, mark: bool): (r: (seq<TrieNode>, nat))
    requires Ordered(nodes) && p < |nodes|
    ensures Ordered(r.0) && r.1 < |r.0|
  {
    match Lookup(nodes[p].children, letter)
    case Some(child) =>
      assert Targets(nodes[p].children, p, |nodes|);
      MarkOrdered(nodes, child);
      (if mark then Mark(nodes, child) else nodes, child)
    case None =>
      AddChildOrdered(nodes, p, letter);
      MarkOrdered(AddChild(nodes, p, letter), |nodes|);
      (if mark then Mark(AddChild(nodes, p, letter), |nodes|) else AddChild(nodes, p, letter), |nodes|)
  }

  /**
   * From the node of `w`, one call of the callback adds at most the path
   * `w + [letter]`, makes it a word when `mark`, and keeps the tree
   * invariant.
   */
  lemma DescentEffect(nodes: seq<TrieNode>, w: string, p: nat, letter: char, mark: bool)
    requires Wf(nodes) && Walk(nodes, w) == Some(p)
    ensures Wf(Descent(nodes, p, letter, mark).0)
    ensures Walk(Descent(nodes, p, letter, mark).0, w + [letter]) == Some(Descent(nodes, p, letter, mark).1)
    ensures Descended(nodes, Descent(nodes, p, letter, mark).0, w, letter, mark)
  {
    WalkSnoc(nodes, w, letter);
    var linked := nodes;
    var trieNode;
    match Lookup(nodes[p].children, letter) {
      case Some(child) =>
        trieNode := child;
        assert forall i {:trigger Grows(nodes[i], linked[i])} :: 0 <= i < |nodes| ==> Grows(nodes[i], linked[i]);
        assert forall s :: Reaches(nodes, s) <==> Reaches(nodes, s) || s == w + [letter];
      case None =>
        AddChildEffect(nodes, w, p, letter);
        trieNode := |nodes|;
        linked := AddChild(nodes, p, letter);
    }
    var r := linked;
    if mark {
      MarkEffect(linked, w + [letter], trieNode);
      r := Mark(linked, trieNode);
      forall s ensures Keeps(nodes, r, s) {
        assert Keeps(nodes, linked, s) && Keeps(linked, r, s);
      }
      forall i | 0 <= i < |nodes| ensures Grows(nodes[i], r[i]) {
        GrowsTrans(nodes[i], linked[i], r[i]);
      }
    }
    assert Descent(nodes, p, letter, mark) == (r, trieNode);
  }

  lemma SnocSlice(w: string, k: nat)
    requires k < |w|
    ensures w[..k] + [w[k]] == w[..k + 1]
  {
  }

  lemma SliceSlice(w: string, m: nat, k: nat)
    requires k <= m <= |w|
    ensures w[..m][..k] == w[..k]
  {
  }

  /**
   * The store `r` is `nodes` after the first `k` letters of `word` have been
   * walked: the old paths lead where they did, the new paths are the
   * prefixes of `word` up to `k` letters, one node was created for each of
   * those prefixes that was not already a path, the new words are those
   * marked by those letters, and every old node has only grown.
   */
  ghost predicate Walked(nodes: seq<TrieNode>, r: seq<TrieNode>, word: string, k: nat)
    requires Ordered(nodes) && |nodes| > 0 && Ordered(r) && |r| > 0
  {
    k <= |word| && |nodes| <= |r| &&
    |r| == |nodes| + (if k <= Matched(nodes, word) then 0 else k - Matched(nodes, word)) &&
    (forall s :: Keeps(nodes, r, s)) &&
    (forall s :: Reaches(r, s) <==> Reaches(nodes, s) || PrefixOf(s, word[..k])) &&
    (forall s :: IsWord(r, s) <==> IsWord(nodes, s) || MarkedWithin(word, k, s)) &&
    (forall i {:trigger Grows(nodes[i], r[i])} :: 0 <= i < |nodes| ==> Grows(nodes[i], r[i]))
  }

  /** Walking no letter changes nothing. */
  lemma WalkedNone(nodes: seq<TrieNode>, word: string)
    requires Ordered(nodes) && |nodes| > 0
    ensures Walked(nodes, nodes, word, 0)
  {
    forall s ensures Reaches(nodes, s) <==> Reaches(nodes, s) || PrefixOf(s, word[..0]) {
      if PrefixOf(s, word[..0]) {
        assert s == [];
      }
    }
    forall i | 0 <= i < |nodes| ensures Grows(nodes[i], nodes[i]) {
      assert nodes[i].children[..|nodes[i].children|] == nodes[i].children;
    }
  }

  lemma StepSize(nodes: seq<TrieNode>, before: seq<TrieNode>, r: seq<TrieNode>, word: string, k: nat)
    requires Ordered(nodes) && Ordered(before) && Ordered(r) && |nodes| > 0 && |before| > 0 && |r| > 0 && k < |word|
    requires Walked(nodes, before, word, k)
    requires Descended(before, r, word[..k], word[k], word[k] == word[|word| - 1])
    ensures |r| == |nodes| + (if k + 1 <= Matched(nodes, word) then 0 else k + 1 - Matched(nodes, word))
  {
    SnocSlice(word, k);
    MatchedPrefix(nodes, word, k + 1);
  }

  lemma StepPaths(nodes: seq<TrieNode>, before: seq<TrieNode>, r: seq<TrieNode>, word: string, k: nat)
    requires Ordered(nodes) && Ordered(before) && Ordered(r) && |nodes| > 0 && |before| > 0 && |r| > 0 && k < |word|
    requires Walked(nodes, before, word, k)
    requires Descended(before, r, word[..k], word[k], word[k] == word[|word| - 1])
    ensures forall s :: Keeps(nodes, r, s)
    ensures forall s :: Reaches(r, s) <==> Reaches(nodes, s) || PrefixOf(s, word[..k + 1])
  {
    SnocSlice(word, k);
    forall s ensures Keeps(nodes, r, s) {
      assert Keeps(nodes, before, s) && Keeps(before, r, s);
    }
  }

  lemma StepWords(nodes: seq<TrieNode>, before: seq<TrieNode>, r: seq<TrieNode>, word: string, k: nat)
    requires Ordered(nodes) && Ordered(before) && Ordered(r) && |nodes| > 0 && |before| > 0 && |r| > 0 && k < |word|
    requires Walked(nodes, before, word, k)
    requires Descended(before, r, word[..k], word[k], word[k] == word[|word| - 1])
    ensures forall s :: IsWord(r, s) <==> IsWord(nodes, s) || MarkedWithin(word, k + 1, s)
  {
    SnocSlice(word, k);
  }

  lemma StepGrows(nodes: seq<TrieNode>, before: seq<TrieNode>, r: seq<TrieNode>, word: string, k: nat)
    requires Ordered(nodes) && Ordered(before) && Ordered(r) && |nodes| > 0 && |before| > 0 && |r| > 0 && k < |word|
    requires Walked(nodes, before, word, k)
    requires Descended(before, r, word[..k], word[k], word[k] == word[|word| - 1])
    ensures |nodes| <= |r| && forall i {:trigger Grows(nodes[i], r[i])} :: 0 <= i < |nodes| ==> Grows(nodes[i], r[i])
  {
    forall i | 0 <= i < |nodes| ensures Grows(nodes[i], r[i]) {
      GrowsTrans(nodes[i], before[i], r[i]);
    }
  }

  /** One more `Descend` by the next letter of `word` walks one more letter. */
  lemma WalkedStep(nodes: seq<TrieNode>, before: seq<TrieNode>, r: seq<TrieNode>, word: string, k: nat)
    requires Ordered(nodes) && Ordered(before) && Ordered(r) && |nodes| > 0 && |before| > 0 && |r| > 0 && k < |word|
    requires Walked(nodes, before, word, k)
    requires Descended(before, r, word[..k], word[k], word[k] == word[|word| - 1])
    ensures Walked(nodes, r, word, k + 1)
  {
    StepSize(nodes, before, r, word, k);
    StepPaths(nodes, before, r, word, k);
    StepWords(nodes, before, r, word, k);
    StepGrows(nodes, before, r, word, k);
  }

  /**
   * The state after the first `k` letters of `word`: the tree invariant
   * holds, `q` is the node of `word[..k]`, and `Walked` describes the store.
   * Callers state it as `Reached(..) == true` so that Dafny keeps it as one proof goal
   * instead of splitting it into its conjuncts.
   */
  ghost predicate Reached(nodes: seq<TrieNode>, word: string, k: nat, after: seq<TrieNode>, q: nat)
  {
    Wf(nodes) && Wf(after) && k <= |word| && Walk(after, word[..k]) == Some(q) && Walked(nodes, after, word, k)
  }

  /** Before the first call of the callback nothing has been walked. */
  lemma StepsNone(nodes: seq<TrieNode>, word: string)
    requires Wf(nodes)
    ensures Reached(nodes, word, 0, nodes, 0)
  {
    WalkedNone(nodes, word);
    assert word[..0] == [];
  }

  /** One more call of the callback walks one more letter of `word`. */
  lemma StepOnce(nodes: seq<TrieNode>, word: string, k: nat, before: seq<TrieNode>, p: nat)
    requires k < |word| && Reached(nodes, word, k, before, p)
    ensures Reached(nodes, word, k + 1, Descent(before, p, word[k], word[k] == word[|word| - 1]).0,
                    Descent(before, p, word[k], word[k] == word[|word| - 1]).1)
  {
    var (after, q) := Descent(before, p, word[k], word[k] == word[|word| - 1]);
    SnocSlice(word, k);
    DescentEffect(before, word[..k], p, word[k], word[k] == word[|word| - 1]);
    WalkedStep(nodes, before, after, word, k);
  }

  /**
   * Having walked every letter, the tree invariant holds, the new paths are
   * the prefixes of `word` and the new words those it marks.
   */
  lemma WalkedAll(nodes: seq<TrieNode>, word: string, k: nat, r: seq<TrieNode>, p: nat)
    requires k == |word| && Reached(nodes, word, k, r, p) == true
    ensures Wf(r)
    ensures |r| == |nodes| + |word| - Matched(nodes, word)
    ensures forall s :: Keeps(nodes, r, s)
    ensures forall s :: Reaches(r, s) <==> Reaches(nodes, s) || PrefixOf(s, word)
    ensures forall s :: IsWord(r, s) <==> IsWord(nodes, s) || MarkedBy(word, s)
    ensures forall i {:trigger Grows(nodes[i], r[i])} :: 0 <= i < |nodes| ==> Grows(nodes[i], r[i])
  {
    assert word[..k] == word;
  }

  /**
   * The `reduce` of `insert` over the letters of `word` (already trimmed).
   * Existing nodes are reused and a node is created only for a letter whose
   * path is missing; the words afterwards are the old ones plus those
   * `MarkedBy(word)`; no flag is cleared and children keep their order, new
   * ones going last.
   */
  method InsertPath(nodes: seq<TrieNode>, word: string) returns (r: seq<TrieNode>)
    requires Wf(nodes)
    ensures Wf(r)
    ensures |r| == |nodes| + |word| - Matched(nodes, word)
    ensures forall s :: Keeps(nodes, r, s)
    ensures forall s :: Reaches(r, s) <==> Reaches(nodes, s) || PrefixOf(s, word)
    ensures forall s :: IsWord(r, s) <==> IsWord(nodes, s) || MarkedBy(word, s)
    ensures forall i {:trigger Grows(nodes[i], r[i])} :: 0 <= i < |nodes| ==> Grows(nodes[i], r[i])
    ensures Inserted(nodes, r, word)
  {
    r := nodes;
    var parentNode := 0;
    var k := 0;
    StepsNone(nodes, word);
    while k < |word|
      invariant 0 <= k <= |word|
      invariant Reached(nodes, word, k, r, parentNode) == true
    {
      var letter := word[k];
      StepOnce(nodes, word, k, r, parentNode);
      var next := Descent(r, parentNode, letter, letter == word[|word| - 1]);
      r, parentNode := next.0, next.1;
      k := k + 1;
    }
    WalkedAll(nodes, word, k, r, parentNode);
  }

  /**
   * `b` is the trie `a` after the path of `word` (already trimmed) is
   * inserted, as `InsertPath` promises: the new nodes are the unmatched
   * letters, old paths are kept and old nodes only grow, the prefixes of
   * `word` gain a path and the strings it marks become words.
   * Callers state it as `Inserted(..) == true` so that Dafny keeps it as one proof goal
   * instead of splitting it into its conjuncts.
   */
  ghost predicate Inserted(a: seq<TrieNode>, b: seq<TrieNode>, word: string) {
    Wf(a) && Wf(b) &&
    |b| == |a| + |word| - Matched(a, word) &&
    (forall s :: Keeps(a, b, s)) &&
    (forall s :: Reaches(b, s) <==> Reaches(a, s) || PrefixOf(s, word)) &&
    (forall s :: IsWord(b, s) <==> IsWord(a, s) || MarkedBy(word, s)) &&
    (forall i {:trigger Grows(a[i], b[i])} :: 0 <= i < |a| ==> Grows(a[i], b[i]))
  }

  /** `s` is made a word by `insert` of one of `words` (each trimmed first), as `populate` does. */
  predicate MarkedByAny(words: seq<string>, s: string)
    decreases |words|
  {
    words != [] && (MarkedByAny(words[..|words| - 1], s) || MarkedBy(Trim(words[|words| - 1]), s))
  }

  /** Inserting one more word of the list adds the strings that word marks. */
  lemma MarkedByAnySnoc(words: seq<string>, i: nat, s: string)
    requires i < |words|
    ensures MarkedByAny(words[..i + 1], s) <==> MarkedByAny(words[..i], s) || MarkedBy(Trim(words[i]), s)
  {
    assert words[..i + 1][..i] == words[..i];
  }

  /**
   * `b` is the trie `a` after `insert` of the first `k` words of `words`:
   * old paths are kept and old nodes only grow, and the words are the old
   * ones and those the first `k` words mark.
   * Callers state it as `Populated(..) == true` so that Dafny keeps it as one proof goal
   * instead of splitting it into its conjuncts.
   */
  ghost predicate Populated(a: seq<TrieNode>, b: seq<TrieNode>, words: seq<string>, k: nat)
    requires k <= |words|
  {
    Wf(a) && Wf(b) && |a| <= |b| &&
    (forall s :: Keeps(a, b, s)) &&
    (forall s :: IsWord(b, s) <==> IsWord(a, s) || MarkedByAny(words[..k], s)) &&
    (forall i {:trigger Grows(a[i], b[i])} :: 0 <= i < |a| ==> Grows(a[i], b[i]))
  }

  /** Inserting the next word of the list extends what the list has done so far. */
  lemma PopulatedStep(a: seq<TrieNode>, b: seq<TrieNode>, c: seq<TrieNode>, words: seq<string>, k: nat)
    requires k < |words| && Populated(a, b, words, k) == true && Inserted(b, c, Trim(words[k])) == true
    ensures Populated(a, c, words, k + 1)
  {
    forall s ensures Keeps(a, c, s) {
      assert Keeps(a, b, s) && Keeps(b, c, s);
    }
    forall s ensures IsWord(c, s) <==> IsWord(a, s) || MarkedByAny(words[..k + 1], s) {
      MarkedByAnySnoc(words, k, s);
    }
    forall j | 0 <= j < |a| ensures Grows(a[j], c[j]) {
      GrowsTrans(a[j], b[j], c[j]);
    }
  }

  /** One more insertion appended to a run of insertions, one per word of the list. */
  lemma InsertedSnoc(states: seq<seq<TrieNode>>, c: seq<TrieNode>, words: seq<string>, k: nat)
    requires k < |words| && |states| == k + 1
    requires forall j :: 0 <= j < k ==> Inserted(states[j], states[j + 1], Trim(words[j])) == true
    requires Inserted(states[k], c, Trim(words[k])) == true
    ensures forall j :: 0 <= j < k + 1 ==> Inserted((states + [c])[j], (states + [c])[j + 1], Trim(words[j])) == true
  {
    forall j | 0 <= j < k + 1 ensures Inserted((states + [c])[j], (states + [c])[j + 1], Trim(words[j])) == true {
      if j < k {
        assert (states + [c])[j] == states[j] && (states + [c])[j + 1] == states[j + 1];
      }
    }
  }

  /** What the whole list has done, once every word is inserted. */
  lemma PopulatedAll(a: seq<TrieNode>, b: seq<TrieNode>, words: seq<string>)
    requires Populated(a, b, words, |words|) == true
    ensures Wf(b) && |a| <= |b|
    ensures forall s :: Keeps(a, b, s)
    ensures forall s :: IsWord(b, s) <==> IsWord(a, s) || MarkedByAny(words, s)
    ensures forall i {:trigger Grows(a[i], b[i])} :: 0 <= i < |a| ==> Grows(a[i], b[i])
  {
    assert words[..|words|] == words;
  }

  /** A run of insertions, one per word of the list, has done what `Populated` says. */
  lemma {:induction false} ChainPopulated(states: seq<seq<TrieNode>>, words: seq<string>, k: nat)
    requires |states| == |words| + 1 && k <= |words| && Wf(states[0])
    requires forall j :: 0 <= j < |words| ==> Inserted(states[j], states[j + 1], Trim(words[j])) == true
    ensures Populated(states[0], states[k], words, k)
  {
    if k > 0 {
      ChainPopulated(states, words, k - 1);
      PopulatedStep(states[0], states[k - 1], states[k], words, k - 1);
    }
  }
}
