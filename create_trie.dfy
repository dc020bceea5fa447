/**
 * `createTrie()`: the complete trie with `insert`, `count`, `suggest`,
 * `populate` and `delete`. The closure state (the root node and the
 * `numberOfWords` counter) is the state of a `Trie` object; the tree hangs
 * from `nodes[0]`.
 */
module CreateTrie {
  import opened Nodes
  import opened Text
  import opened Traversal
  import opened Insertion
  import opened Deletion

  /** How `delete` ends: normally, or by throwing an `Error` with this message. */
  datatype Outcome = Deleted | NotAWord(message: string)

  /** The text of the `Error` thrown by `delete` for a word that is not stored. */
  function NotAWordMessage(word: string): string {
    word + " is not a word, nothing deleted"
  }

  class Trie {
    var nodes: seq<TrieNode>
    var numberOfWords: nat

    ghost predicate Valid()
      reads this
    {
      Wf(nodes)
    }

    /** A root node with no children and a counter at zero. */
    constructor ()
      ensures Valid() && nodes == [FreshNode] && numberOfWords == 0
      ensures forall s :: !IsWord(nodes, s)
    {
      nodes := [FreshNode];
      numberOfWords := 0;
      new;
      forall s ensures !IsWord(nodes, s) {
        if s != [] {
          assert Walk(nodes, s[..|s| - 1]).Some? ==> Walk(nodes, s[..|s| - 1]) == Some(0);
        }
      }
    }

    function Count(): nat
      reads this
    {
      numberOfWords
    }

    /**
     * `insert(word)`: one more insertion is counted, whatever the word; the
     * trimmed word's path is added, reusing the nodes already there; the
     * strings it marks become words and no word is lost.
     */
    method Insert(word: string)
      requires Valid()
      modifies this
      ensures Valid()
      ensures numberOfWords == old(numberOfWords) + 1
      ensures |nodes| == |old(nodes)| + |Trim(word)| - Matched(old(nodes), Trim(word))
      ensures forall s :: Keeps(old(nodes), nodes, s)
      ensures forall s :: Reaches(nodes, s) <==> Reaches(old(nodes), s) || PrefixOf(s, Trim(word))
      ensures forall s :: IsWord(nodes, s) <==> IsWord(old(nodes), s) || MarkedBy(Trim(word), s)
      ensures Trim(word) != [] ==> IsWord(nodes, Trim(word))
      ensures forall i {:trigger Grows(old(nodes)[i], nodes[i])} :: 0 <= i < |old(nodes)| ==> Grows(old(nodes)[i], nodes[i])
      ensures Inserted(old(nodes), nodes, Trim(word))
    {
      var normalizedWord := Trim(word);
      numberOfWords := numberOfWords + 1;
      nodes := InsertPath(nodes, normalizedWord);
      if normalizedWord != [] {
        assert MarkedBy(normalizedWord, normalizedWord);
      }
    }

    /**
     * `populate(wordList)`: `insert` of each word in turn, in list order:
     * `states` are the tries between the insertions, each one the previous
     * one with the next word inserted. Every insertion is counted, the words
     * afterwards are the old ones and those the list marks, old paths are
     * kept and old nodes only grow.
     */
    method Populate(wordList: seq<string>) returns (ghost states: seq<seq<TrieNode>>)
      requires Valid()
      modifies this
      ensures Valid()
      ensures numberOfWords == old(numberOfWords) + |wordList|
      ensures forall s :: Keeps(old(nodes), nodes, s)
      ensures forall s :: IsWord(nodes, s) <==> IsWord(old(nodes), s) || MarkedByAny(wordList, s)
      ensures |states| == |wordList| + 1 && states[0] == old(nodes) && states[|wordList|] == nodes
      ensures forall i :: 0 <= i < |wordList| ==> Inserted(states[i], states[i + 1], Trim(wordList[i])) == true
      ensures |old(nodes)| <= |nodes|
      ensures forall i {:trigger Grows(old(nodes)[i], nodes[i])} :: 0 <= i < |old(nodes)| ==> Grows(old(nodes)[i], nodes[i])
    {
      states := [nodes];
      for i := 0 to |wordList|
        invariant Valid()
        invariant numberOfWords == old(numberOfWords) + i
        invariant |states| == i + 1 && states[0] == old(nodes) && states[i] == nodes
        invariant forall j :: 0 <= j < i ==> Inserted(states[j], states[j + 1], Trim(wordList[j])) == true
      {
        Insert(wordList[i]);
        InsertedSnoc(states, nodes, wordList, i);
        states := states + [nodes];
      }
      ChainPopulated(states, wordList, |wordList|);
      PopulatedAll(old(nodes), nodes, wordList);
    }

    /**
     * `getNodePath(query)`: the nodes along `query` when every letter has a
     * child, otherwise the empty list.
     */
    method GetNodePath(query: string) returns (nodePath: seq<nat>)
      requires Valid()
      ensures Reaches(nodes, query) ==> OnPath(nodes, query, nodePath)
      ensures !Reaches(nodes, query) ==> nodePath == []
    {
      nodePath := [];
      var parentNode := 0;
      var k := 0;
      while k < |query|
        invariant 0 <= k <= |query|
        invariant Walk(nodes, query[..k]) == Some(parentNode)
        invariant |nodePath| == k
        invariant forall j :: 0 <= j < k ==> Walk(nodes, query[..j + 1]) == Some(nodePath[j])
      {
        var letter := query[k];
        assert query[..k] + [letter] == query[..k + 1];
        WalkSnoc(nodes, query[..k], letter);
        match Lookup(nodes[parentNode].children, letter) {
          case None =>
            WalkPrefix(nodes, query, k + 1);
            return [];
          case Some(childNode) =>
            nodePath := nodePath + [childNode];
            parentNode := childNode;
        }
        k := k + 1;
      }
      assert query[..k] == query;
    }

    /**
     * `suggest(query)`: empty for an empty trimmed query or a query with no
     * path; otherwise the trimmed query when it is a word, then the words
     * below it in pre-order. The result holds exactly the stored words
     * starting with the trimmed query, once each. The trie is not changed.
     */
    method Suggest(query: string) returns (result: seq<string>)
      requires Valid()
      ensures Trim(query) == [] ==> result == []
      ensures Trim(query) != [] ==> result == Listing(nodes, Trim(query))
      ensures forall s :: s in result <==> Trim(query) != [] && PrefixOf(Trim(query), s) && IsWord(nodes, s)
      ensures NoDup(result)
      ensures Trim(query) != [] && IsWord(nodes, Trim(query)) ==> |result| > 0 && result[0] == Trim(query)
    {
      var normalizedQuery := Trim(query);
      var nodePath := GetNodePath(normalizedQuery);
      ListingMeaning(nodes, normalizedQuery);
      if |nodePath| == 0 {
        if normalizedQuery != [] {
          assert !Reaches(nodes, normalizedQuery);
        }
        return [];
      }
      assert normalizedQuery[..|nodePath| - 1 + 1] == normalizedQuery;
      var endOfQueryNode := nodePath[|nodePath| - 1];
      var startingSuggestions := [];
      if nodes[endOfQueryNode].isCompleteString {
        startingSuggestions := [normalizedQuery];
      }
      result := GetSuggestions(nodes, endOfQueryNode, normalizedQuery, startingSuggestions);
    }

    /**
     * `delete(word)` (`remove`), on the word as given, untrimmed. A word
     * that is not stored makes it throw and change nothing. A stored word of
     * one letter stays stored. A longer stored word leaves every listing and
     * nothing else does: every other word is still suggested, in the same
     * order. The first letter's node stays under the root, and exactly the
     * paths through the node at `Cut(old(nodes), word)` are lost. The
     * counter is not decremented.
     */
    method Delete(word: string) returns (outcome: Outcome)
      requires Valid()
      modifies this
      ensures Valid() && numberOfWords == old(numberOfWords)
      ensures !IsWord(old(nodes), word) ==> outcome == NotAWord(NotAWordMessage(word)) && nodes == old(nodes)
      ensures IsWord(old(nodes), word) ==> outcome == Deleted
      ensures IsWord(old(nodes), word) && |word| == 1 ==> nodes == old(nodes)
      ensures IsWord(old(nodes), word) && |word| > 1 ==>
        forall q :: Listing(nodes, q) == Without(Listing(old(nodes), q), word)
      ensures IsWord(old(nodes), word) && |word| > 1 ==>
        forall s :: IsWord(nodes, s) <==> IsWord(old(nodes), s) && s != word
      ensures IsWord(old(nodes), word) ==>
        |word| > 0 && Walk(nodes, word[..1]) == Walk(old(nodes), word[..1])
      ensures IsWord(old(nodes), word) ==> forall s :: Walk(nodes, s) == if Cut(old(nodes), word) < |word| && PrefixOf(word[..Cut(old(nodes), word) + 1], s) then None else Walk(old(nodes), s)
    {
      var nodePath := GetNodePath(word);
      var lastNodeIndex := |nodePath| - 1;
      if |nodePath| == 0 || !nodes[nodePath[lastNodeIndex]].isCompleteString {
        if |nodePath| != 0 {
          assert word[..lastNodeIndex + 1] == word;
        }
        return NotAWord(NotAWordMessage(word));
      }
      assert word[..lastNodeIndex + 1] == word;
      var before := nodes;
      nodes := Prune(nodes, word, nodePath);
      if |word| > 1 {
        RemovedWords(before, nodes, word);
      }
      return Deleted;
    }
  }

  /** When `word` leaves every listing and nothing else does, it is the one word lost. */
  lemma RemovedWords(a: seq<TrieNode>, b: seq<TrieNode>, word: string)
    requires Wf(a) && Wf(b)
    requires forall q :: Listing(b, q) == Without(Listing(a, q), word)
    ensures forall s :: IsWord(b, s) <==> IsWord(a, s) && s != word
  {
    forall s ensures IsWord(b, s) <==> IsWord(a, s) && s != word {
      WordInListing(a, s);
      WordInListing(b, s);
    }
  }
}
