/**
 * The depth-first collection behind `suggest` (`getSuggestions`, the same
 * function in both trie variants) and what it means: every stored word that
 * strictly extends the starting prefix, once each, in pre-order with children
 * visited in insertion order.
 */
module Traversal {
  import opened Nodes

  /**
   * Reference definition of `getSuggestions(node, prefix, [])`: for each child
   * in insertion order, the child's path if it completes a word, then
   * everything below the child.
   */
  function Collect(nodes: seq<TrieNode>, i: nat, prefix: string): seq<string>
    requires Ordered(nodes) && i < |nodes|
    decreases |nodes| - i, 1, 0
  {
    CollectKids(nodes, i, nodes[i].children, prefix)
  }

  /** The part of `Collect` contributed by the edges `kids` of node `i`. */
  function CollectKids(nodes: seq<TrieNode>, i: nat, kids: seq<Edge>, prefix: string): seq<string>
    requires Ordered(nodes) && i < |nodes| && Targets(kids, i, |nodes|)
    decreases |nodes| - i, 0, |kids|
  {
    if kids == [] then []
    else
      var c, j := kids[0].0, kids[0].1;
      (if nodes[j].isCompleteString then [prefix + [c]] else [])
      + Collect(nodes, j, prefix + [c])
      + CollectKids(nodes, i, kids[1..], prefix)
  }

  lemma {:induction false} CollectKidsAppend(nodes: seq<TrieNode>, i: nat, a: seq<Edge>, b: seq<Edge>, p: string)
    requires Ordered(nodes) && i < |nodes| && Targets(a, i, |nodes|) && Targets(b, i, |nodes|)
    ensures Targets(a + b, i, |nodes|)
    ensures CollectKids(nodes, i, a + b, p) == CollectKids(nodes, i, a, p) + CollectKids(nodes, i, b, p)
    decreases |a|
  {
    if a == [] {
      assert a + b == b;
    } else {
      assert (a + b)[1..] == a[1..] + b;
      CollectKidsAppend(nodes, i, a[1..], b, p);
    }
  }

  predicate NoDup(xs: seq<string>) {
    forall a, b :: 0 <= a < b < |xs| ==> xs[a] != xs[b]
  }

  lemma NoDupAppend(a: seq<string>, b: seq<string>)
    requires NoDup(a) && NoDup(b)
    requires forall s :: s in a ==> s !in b
    ensures NoDup(a + b)
  {
    forall x, y | 0 <= x < y < |a + b| ensures (a + b)[x] != (a + b)[y] {
      if x < |a| && |a| <= y {
        assert (a + b)[x] in a;
        assert (a + b)[y] in b;
      }
    }
  }

  /** The list with every occurrence of `w` removed, the others in their order. */
  function Without(xs: seq<string>, w: string): (r: seq<string>)
    ensures forall s :: s in r <==> s in xs && s != w
  {
    if xs == [] then [] else (if xs[0] == w then [] else [xs[0]]) + Without(xs[1..], w)
  }

  lemma {:induction false} WithoutAppend(a: seq<string>, b: seq<string>, w: string)
    ensures Without(a + b, w) == Without(a, w) + Without(b, w)
    decreases |a|
  {
    if a == [] {
      assert a + b == b;
    } else {
      assert (a + b)[1..] == a[1..] + b;
      WithoutAppend(a[1..], b, w);
    }
  }

  function KeysOf(kids: seq<Edge>): set<char> {
    set k | 0 <= k < |kids| :: kids[k].0
  }

  /** Everything collected below a node extends its prefix by at least one letter. */
  lemma {:induction false} CollectShape(nodes: seq<TrieNode>, i: nat, p: string)
    requires Ordered(nodes) && i < |nodes|
    ensures forall s :: s in Collect(nodes, i, p) ==> StrictPrefixOf(p, s)
    decreases |nodes| - i, 1, 0
  {
    KidsShape(nodes, i, nodes[i].children, p);
  }

  lemma {:induction false} KidsShape(nodes: seq<TrieNode>, i: nat, kids: seq<Edge>, p: string)
    requires Ordered(nodes) && i < |nodes| && Targets(kids, i, |nodes|)
    ensures forall s :: s in CollectKids(nodes, i, kids, p) ==>
      StrictPrefixOf(p, s) && s[|p|] in KeysOf(kids)
    decreases |nodes| - i, 0, |kids|
  {
    if kids != [] {
      var c, j := kids[0].0, kids[0].1;
      var q := p + [c];
      CollectShape(nodes, j, q);
      KidsShape(nodes, i, kids[1..], p);
      assert c in KeysOf(kids);
      forall k | 0 <= k < |kids[1..]| ensures kids[1..][k].0 in KeysOf(kids) {
        assert kids[1..][k] == kids[k + 1];
      }
      forall s | s in Collect(nodes, j, q) ensures s[..|p|] == p && s[|p|] == c {
        assert s[..|q|][..|p|] == s[..|p|];
        assert s[..|q|][|p|] == s[|p|];
      }
    }
  }

  /** `getSuggestions` never yields the same string twice. */
  lemma {:induction false} CollectNoDup(nodes: seq<TrieNode>, i: nat, p: string)
    requires Ordered(nodes) && Keyed(nodes) && i < |nodes|
    ensures NoDup(Collect(nodes, i, p))
    decreases |nodes| - i, 1, 0
  {
    KidsNoDup(nodes, i, nodes[i].children, p);
  }

  lemma {:induction false} KidsNoDup(nodes: seq<TrieNode>, i: nat, kids: seq<Edge>, p: string)
    requires Ordered(nodes) && Keyed(nodes) && i < |nodes| && Targets(kids, i, |nodes|)
    requires DistinctKeys(kids)
    ensures NoDup(CollectKids(nodes, i, kids, p))
    decreases |nodes| - i, 0, |kids|
  {
    if kids != [] {
      var c, j := kids[0].0, kids[0].1;
      var q := p + [c];
      var head := if nodes[j].isCompleteString then [q] else [];
      var mid := Collect(nodes, j, q);
      var rest := CollectKids(nodes, i, kids[1..], p);
      CollectNoDup(nodes, j, q);
      KidsNoDup(nodes, i, kids[1..], p);
      CollectShape(nodes, j, q);
      KidsShape(nodes, i, kids[1..], p);
      NoDupAppend(head, mid);
      assert c !in KeysOf(kids[1..]);
      forall s | s in head + mid ensures s !in rest {
        if s in mid {
          assert s[..|q|][|p|] == s[|p|];
        }
        assert s[|p|] == c;
      }
      NoDupAppend(head + mid, rest);
    }
  }

  /** Soundness: whatever is collected below the node of `q` is a stored word extending `q`. */
  lemma {:induction false} CollectSound(nodes: seq<TrieNode>, x: nat, q: string)
    requires Wf(nodes) && Walk(nodes, q) == Some(x)
    ensures forall s :: s in Collect(nodes, x, q) ==> StrictPrefixOf(q, s) && IsWord(nodes, s)
    decreases |nodes| - x, 1, 0
  {
    assert nodes[x].children[0..] == nodes[x].children;
    KidsSound(nodes, x, 0, q);
  }

  lemma {:induction false} KidsSound(nodes: seq<TrieNode>, x: nat, m: nat, q: string)
    requires Wf(nodes) && Walk(nodes, q) == Some(x) && m <= |nodes[x].children|
    ensures Targets(nodes[x].children[m..], x, |nodes|)
    ensures forall s :: s in CollectKids(nodes, x, nodes[x].children[m..], q) ==>
      StrictPrefixOf(q, s) && IsWord(nodes, s)
    decreases |nodes| - x, 0, |nodes[x].children| - m
  {
    var kids := nodes[x].children;
    if m < |kids| {
      var c, j := kids[m].0, kids[m].1;
      LookupAt(kids, m);
      WalkSnoc(nodes, q, c);
      assert Targets(kids, x, |nodes|);
      CollectSound(nodes, j, q + [c]);
      KidsSound(nodes, x, m + 1, q);
      assert kids[m..][1..] == kids[m + 1..];
      forall s | s in Collect(nodes, j, q + [c]) ensures s[..|q|] == q {
        assert s[..|q| + 1][..|q|] == s[..|q|];
      }
    }
  }

  /** Completeness: every stored word strictly extending `q` is collected below the node of `q`. */
  lemma {:induction false} CollectComplete(nodes: seq<TrieNode>, x: nat, q: string, s: string)
    requires Wf(nodes) && Walk(nodes, q) == Some(x)
    requires StrictPrefixOf(q, s) && IsWord(nodes, s)
    ensures s in Collect(nodes, x, q)
    decreases |s| - |q|
  {
    var kids := nodes[x].children;
    var c := s[|q|];
    var q' := s[..|q| + 1];
    assert q' == q + [c];
    WalkPrefix(nodes, s, |q| + 1);
    WalkSnoc(nodes, q, c);
    var j := Walk(nodes, q').value;
    var m := Find(kids, c);
    assert m < |kids| && kids[m] == (c, j);
    assert Targets(kids, x, |nodes|);
    assert kids == kids[..m] + kids[m..];
    CollectKidsAppend(nodes, x, kids[..m], kids[m..], q);
    assert kids[m..][1..] == kids[m + 1..];
    if |s| == |q| + 1 {
      assert s == q';
    } else {
      assert s[..|q'|] == q';
      CollectComplete(nodes, j, q', s);
    }
  }

  /** `getSuggestions(node of q, q)` lists exactly the stored words strictly extending `q`, once each. */
  lemma CollectMeaning(nodes: seq<TrieNode>, q: string, x: nat)
    requires Wf(nodes) && Walk(nodes, q) == Some(x)
    ensures forall s :: s in Collect(nodes, x, q) <==> StrictPrefixOf(q, s) && IsWord(nodes, s)
    ensures NoDup(Collect(nodes, x, q))
  {
    CollectSound(nodes, x, q);
    CollectNoDup(nodes, x, q);
    forall s | StrictPrefixOf(q, s) && IsWord(nodes, s) ensures s in Collect(nodes, x, q) {
      CollectComplete(nodes, x, q, s);
    }
  }

  /**
   * What `suggest` of createTrie.js returns for a non-empty trimmed query:
   * the query itself when it is a word, then the collection below its node.
   */
  function Listing(nodes: seq<TrieNode>, q: string): (r: seq<string>)
    requires Wf(nodes)
    ensures !Reaches(nodes, q) ==> r == []
    ensures IsWord(nodes, q) ==> |r| > 0 && r[0] == q
  {
    match Walk(nodes, q)
    case None => []
    case Some(x) => (if nodes[x].isCompleteString then [q] else []) + Collect(nodes, x, q)
  }

  /** The listing for `q` holds exactly the stored words starting with `q`, once each, `q` first. */
  lemma ListingMeaning(nodes: seq<TrieNode>, q: string)
    requires Wf(nodes)
    ensures forall s :: s in Listing(nodes, q) <==> PrefixOf(q, s) && IsWord(nodes, s)
    ensures NoDup(Listing(nodes, q))
    ensures IsWord(nodes, q) ==> |Listing(nodes, q)| > 0 && Listing(nodes, q)[0] == q
  {
    match Walk(nodes, q) {
      case None =>
        forall s | PrefixOf(q, s) ensures !IsWord(nodes, s) {
          WalkPrefix(nodes, s, |q|);
        }
      case Some(x) =>
        CollectMeaning(nodes, q, x);
        var head := if nodes[x].isCompleteString then [q] else [];
        forall s | PrefixOf(q, s) && |s| == |q| ensures s == q {
          assert s == s[..|q|];
        }
        assert q !in Collect(nodes, x, q);
        NoDupAppend(head, Collect(nodes, x, q));
    }
  }

  /** Every stored word appears in its own listing, and nothing else of its length does. */
  lemma WordInListing(nodes: seq<TrieNode>, s: string)
    requires Wf(nodes)
    ensures IsWord(nodes, s) <==> s in Listing(nodes, s)
  {
    ListingMeaning(nodes, s);
    assert s[..|s|] == s;
  }

  /**
   * `getSuggestions(node, substring, suggestions)`: appends to `suggestions`
   * the collection below `node`, visiting children in insertion order.
   */
  method GetSuggestions(nodes: seq<TrieNode>, node: nat, substring: string, suggestions: seq<string>)
    returns (result: seq<string>)
    requires Ordered(nodes) && node < |nodes|
    ensures result == suggestions + Collect(nodes, node, substring)
    decreases |nodes| - node
  {
    var children := nodes[node].children;
    result := suggestions;
    for k := 0 to |children|
      invariant Targets(children[k..], node, |nodes|)
      invariant result + CollectKids(nodes, node, children[k..], substring)
             == suggestions + Collect(nodes, node, substring)
    {
      var letter, childNode := children[k].0, children[k].1;
      var nextSubstring := substring + [letter];
      assert children[k..][1..] == children[k + 1..];
      if nodes[childNode].isCompleteString {
        result := result + [nextSubstring];
      }
      result := GetSuggestions(nodes, childNode, nextSubstring, result);
    }
  }
}
