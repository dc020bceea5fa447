/**
 * `Trie()`: the earlier trie with `insert`, `count`, `suggest` and
 * `populate`, and no deletion. Insertion is the same walk as in
 * `createTrie()`; suggestion differs: an empty query lists every word, and
 * the query itself is never listed.
 */
module EarlyTrie {
  import opened Nodes
  import opened Text
  import opened Traversal
  import opened Insertion

  class Trie {
    var nodes: seq<TrieNode>
    var numberOfWords: nat

    ghost predicate Valid()
      reads this
    {
      Wf(nodes)
    }

    /** A root node with no children and a counter at zero. */
    constructor ()
      ensures Valid() && nodes == [FreshNode] && numberOfWords == 0
      ensures forall s :: !IsWord(nodes, s)
    {
      nodes := [FreshNode];
      numberOfWords := 0;
      new;
      forall s ensures !IsWord(nodes, s) {
        if s != [] {
          assert Walk(nodes, s[..|s| - 1]).Some? ==> Walk(nodes, s[..|s| - 1]) == Some(0);
        }
      }
    }

    function Count(): nat
      reads this
    {
      numberOfWords
    }

    /**
     * `insert(word)`: counted whatever the word; the trimmed word's path is
     * added and the strings it marks become words, losing none.
     */
    method Insert(word: string)
      requires Valid()
      modifies this
      ensures Valid()
      ensures numberOfWords == old(numberOfWords) + 1
      ensures forall s :: Keeps(old(nodes), nodes, s)
      ensures forall s :: Reaches(nodes, s) <==> Reaches(old(nodes), s) || PrefixOf(s, Trim(word))
      ensures forall s :: IsWord(nodes, s) <==> IsWord(old(nodes), s) || MarkedBy(Trim(word), s)
      ensures |nodes| == |old(nodes)| + |Trim(word)| - Matched(old(nodes), Trim(word))
      ensures forall i {:trigger Grows(old(nodes)[i], nodes[i])} :: 0 <= i < |old(nodes)| ==> Grows(old(nodes)[i], nodes[i])
      ensures Inserted(old(nodes), nodes, Trim(word))
    {
      var normalizedWord := Trim(word);
      numberOfWords := numberOfWords + 1;
      nodes := InsertPath(nodes, normalizedWord);
    }

    /**
     * `populate(wordList)`: `insert` of each word in turn, in list order:
     * `states` are the tries between the insertions, each one the previous
     * one with the next word inserted.
     */
    method Populate(wordList: seq<string>) returns (ghost states: seq<seq<TrieNode>>)
      requires Valid()
      modifies this
      ensures Valid()
      ensures numberOfWords == old(numberOfWords) + |wordList|
      ensures forall s :: Keeps(old(nodes), nodes, s)
      ensures forall s :: IsWord(nodes, s) <==> IsWord(old(nodes), s) || MarkedByAny(wordList, s)
      ensures |old(nodes)| <= |nodes|
      ensures forall i {:trigger Grows(old(nodes)[i], nodes[i])} :: 0 <= i < |old(nodes)| ==> Grows(old(nodes)[i], nodes[i])
      ensures |states| == |wordList| + 1 && states[0] == old(nodes) && states[|wordList|] == nodes
      ensures forall i :: 0 <= i < |wordList| ==> Inserted(states[i], states[i + 1], Trim(wordList[i])) == true
    {
      states := [nodes];
      for i := 0 to |wordList|
        invariant Valid()
        invariant numberOfWords == old(numberOfWords) + i
        invariant |states| == i + 1 && states[0] == old(nodes) && states[i] == nodes
        invariant forall j :: 0 <= j < i ==> Inserted(states[j], states[j + 1], Trim(wordList[j])) == true
      {
        Insert(wordList[i]);
        InsertedSnoc(states, nodes, wordList, i);
        states := states + [nodes];
      }
      ChainPopulated(states, wordList, |wordList|);
      PopulatedAll(old(nodes), nodes, wordList);
    }

    /**
     * `getEndOfQueryNode(query)`: the node `query` spells out from the root
     * (the root itself for the empty query), or nothing as soon as a letter
     * has no child.
     */
    method GetEndOfQueryNode(query: string) returns (endOfQueryNode: Option<nat>)
      requires Valid()
      ensures endOfQueryNode == Walk(nodes, query)
      ensures endOfQueryNode.Some? <==> Reaches(nodes, query)
      ensures query == [] ==> endOfQueryNode == Some(0)
    {
      var node := 0;
      var k := 0;
      while k < |query|
        invariant 0 <= k <= |query|
        invariant Walk(nodes, query[..k]) == Some(node)
      {
        var letter := query[k];
        assert query[..k] + [letter] == query[..k + 1];
        WalkSnoc(nodes, query[..k], letter);
        match Lookup(nodes[node].children, letter) {
          case None =>
            WalkPrefix(nodes, query, k + 1);
            return None;
          case Some(childNode) =>
            node := childNode;
        }
        k := k + 1;
      }
      assert query[..k] == query;
      return Some(node);
    }

    /**
     * `suggest(query)`: the words below the trimmed query's node, in
     * pre-order, without the query itself; empty when the query has no
     * path. The result holds exactly the stored words that strictly extend
     * the trimmed query, once each, so an empty query lists every word.
     */
    method Suggest(query: string) returns (result: seq<string>)
      requires Valid()
      ensures !Reaches(nodes, Trim(query)) ==> result == []
      ensures Reaches(nodes, Trim(query)) ==> result == Collect(nodes, Walk(nodes, Trim(query)).value, Trim(query))
      ensures forall s :: s in result <==> StrictPrefixOf(Trim(query), s) && IsWord(nodes, s)
      ensures NoDup(result)
    {
      var normalizedQuery := Trim(query);
      var endOfQueryNode := GetEndOfQueryNode(normalizedQuery);
      match endOfQueryNode {
        case None =>
          ExtensionsReach(nodes, normalizedQuery);
          return [];
        case Some(node) =>
          CollectMeaning(nodes, normalizedQuery, node);
          result := GetSuggestions(nodes, node, normalizedQuery, []);
      }
    }
  }

  /** A prefix of a stored word has a path: without a path, nothing extends it. */
  lemma ExtensionsReach(nodes: seq<TrieNode>, q: string)
    requires Wf(nodes) && !Reaches(nodes, q)
    ensures forall s :: !(StrictPrefixOf(q, s) && IsWord(nodes, s))
  {
    forall s | StrictPrefixOf(q, s) && IsWord(nodes, s)
      ensures false
    {
      WalkPrefix(nodes, s, |q|);
    }
  }
}
