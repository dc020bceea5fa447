# Autocomplete trie, modelled in Dafny

This project models the two prefix trees (tries) of the autocomplete
repository. Both store a vocabulary of words and answer prefix-completion
queries:

- `createTrie()` in `createTrie.js` supports `insert`, `count`, `suggest`,
  `populate` and `delete`;
- the earlier `Trie()` in `Trie.js` supports `insert`, `count`, `suggest`
  and `populate`.

## Representation

- **Nodes.** The tree is kept in an arena: `nodes: seq<TrieNode>`.
  - The root, the node with the sentinel value `"__root__"`, is `nodes[0]`.
  - A `TrieNode` holds an `isCompleteString` flag and its children.
  - The children are an insertion-ordered list of `(letter, index)` edges with distinct letters. A JavaScript object enumerates non-integer keys in this order.
  - A new node is always appended, so a child's index is larger than its parent's. This is what makes the recursive traversals terminate.
  - The letter a node stores (`getValue`) is the key under which its parent holds it, so it is not stored twice.
- **Tries.** Each trie is a class, `CreateTrie.Trie` and `EarlyTrie.Trie`. Its fields are `nodes` and `numberOfWords`, the closure state of the JavaScript factory.
- **Invariant.** `Nodes.Wf` is kept by every operation:
  - the root is not a word;
  - children come after their parent;
  - every node has distinct child letters;
  - every node has at most one parent.

  Together these give unique paths (`Nodes.PathsUnique`).
- **Abstract meaning.** A trie means the set of strings `s` for which
  `Nodes.IsWord(nodes, s)` holds, that is, the completed paths from the root.
- **Reference functions.**
  - `Traversal.Collect` is the pre-order collection of the words strictly below a node.
  - `Traversal.Listing` is what `createTrie()`'s `suggest` returns.

The operations reproduce the code as written, including its quirks:

- **Insertion marking.** `insert` marks every node on the word's path whose letter equals the word's last letter (`Insertion.MarkedBy`). Inserting "banana" makes "ba", "bana" and "banana" words.
- **`remove` loop.** The loop of `remove` runs only while `index > 0`:
  - deleting a stored one-letter word changes nothing;
  - the first letter's node is never unlinked from the root.
- **No trimming in `remove`.** `remove` does not trim its argument.
- **Empty query.** For an empty trimmed query, `createTrie()` suggests nothing, while `Trie()` lists every word.
- **The query itself.** `Trie()` never lists the query itself.

## Model

| member | source | states |
|---|---|---|
| Text.Trim | createTrie.js:18 | `word.trim()`: the result is no longer than the input, and neither of its ends is whitespace |
| Text.TrimStart | createTrie.js:18 | the result is a suffix of the input, and what it drops is all whitespace; it starts with a non-whitespace character or is empty |
| Text.TrimEnd | createTrie.js:18 | the result is a prefix of the input, and what it drops is all whitespace; it ends with a non-whitespace character or is empty |
| Text.TrimmedFixed | createTrie.js:18 | a string without whitespace at either end is its own trim |
| Text.TrimIdempotent | createTrie.js:45 | trimming twice is trimming once, so an already trimmed query is unchanged |
| Text.TrimPadded | createTrie.js:18 | padding a string with whitespace on both sides does not change its trim, so `"  apple  "` is stored as `"apple"` |
| Text.TrimStartPadded | createTrie.js:18 | leading whitespace is dropped by the start trim |
| Text.TrimEndPadded | createTrie.js:18 | trailing whitespace is dropped by the end trim |
| Text.TrimStartKeepsTail | createTrie.js:18 | the start trim of a string with a non-whitespace character keeps everything after it |
| Text.TrimStartAllWhitespace | createTrie.js:18 | a string made only of whitespace trims to empty |
| Nodes.Find | createTrie.js:151-180 | the position found in a children list holds the letter looked up, or is past the end |
| Nodes.FindFirst | createTrie.js:151-180 | no earlier entry of the children list has that letter |
| Nodes.LookupAt | createTrie.js:119 | in a list with distinct keys, `children[letter]` of an entry's key is that entry's child |
| Nodes.LookupNone | createTrie.js:119 | `children[letter]` (`Nodes.Lookup`) is undefined exactly when no entry has that letter as key, and a defined one is the child of an entry with that key |
| Nodes.IsEmpty | createTrie.js:199-206 | `isEmpty(children)` holds exactly when no letter has a child |
| Nodes.LookupDeleteKey | createTrie.js:98 | `delete children[letter]` (`Nodes.DeleteKey`, which drops the first entry with that key and keeps the others in order) makes that letter childless and leaves every other letter's child, keeping the keys distinct |
| Nodes.LookupAppend | createTrie.js:27-29 | adding an entry for a letter without one gives that letter the new child and changes no other letter |
| Nodes.Walk | createTrie.js:114-129 | following a string from the root ends at a node of the trie; it ends at the root exactly for the empty string |
| Nodes.WalkSnoc | createTrie.js:118-126 | one more letter is one more child lookup from where the walk stopped |
| Nodes.WalkPrefix | createTrie.js:122 | if a string has a path, so does each of its prefixes; a missing child means no longer string has a path |
| Nodes.WalkIncreasing | createTrie.js:24-29 | along a path, node indices strictly increase, since children are created after their parents |
| Nodes.PathsUnique | createTrie.js:22-29 | two strings that reach the same node are equal, since each node hangs under exactly one parent and letter |
| Nodes.SameLinksWalk | createTrie.js:186-189 | changing only flags leaves every path where it was |
| Traversal.Without | createTrie.js:69-101 | dropping a word from a list keeps exactly the other entries |
| Traversal.CollectShape | createTrie.js:131-148 | every string collected below a node strictly extends the substring it started from |
| Traversal.CollectNoDup | createTrie.js:131-148 | the pre-order collection lists no string twice |
| Traversal.CollectSound | createTrie.js:131-148 | every string collected below the node of `q` is a stored word strictly extending `q` |
| Traversal.CollectComplete | createTrie.js:131-148 | every stored word strictly extending `q` is collected below the node of `q` |
| Traversal.CollectMeaning | Trie.js:56-73 | the collection below the node of `q` holds exactly the stored words that strictly extend `q`, once each |
| Traversal.ListingMeaning | createTrie.js:44-59 | the listing for `q` holds exactly the stored words starting with `q`, once each, and starts with `q` when `q` is a word |
| Traversal.WordInListing | createTrie.js:53-56 | a string is a stored word exactly when it appears in its own listing |
| Traversal.Listing | createTrie.js:44-59 | what `suggest` returns for a trimmed query: nothing when the query has no path, and the query first when it is a word (then the pre-order collection below it, `Traversal.Collect`, whose meaning `Traversal.ListingMeaning` states) |
| Traversal.GetSuggestions | createTrie.js:131-148 | the recursive `getSuggestions` appends to the shared `suggestions` list exactly the pre-order collection below the node |
| Insertion.Matched | createTrie.js:22-29 | the longest prefix of the word that already has a path; no longer prefix has one |
| Insertion.MarkedBy | createTrie.js:31-34 | the strings `insert` marks: only non-empty prefixes of the word, and always the word itself when it is not empty; exactly those whose last letter equals the word's last letter |
| Insertion.AddChild | createTrie.js:24-29 | `children[letter] = createTrieNode(letter)`: one more node, fresh and last; no old node but the parent changes; the parent keeps its flag and old children and gains the edge for the letter to the new node at the end |
| Insertion.Mark | createTrie.js:32-34 | `setIsCompleteString(true)`: the node is flagged, its children unchanged, and no other node changes |
| Insertion.Descent | createTrie.js:23-36 | one call of the `reduce` callback: the store stays ordered and the node handed on is one of its nodes; `Insertion.DescentEffect` states its effect |
| Insertion.MatchedPrefix | createTrie.js:22-29 | a prefix of the word has a path exactly when it is no longer than the matched part |
| Insertion.AddChildWf | createTrie.js:24-29 | linking a fresh node under a letter that had no child keeps the trie well formed |
| Insertion.AddChildWalk | createTrie.js:24-29 | after linking a fresh node, only the new string reaches it and every other path is unchanged |
| Insertion.AddChildWord | createTrie.js:24-29 | linking a fresh node adds no word, since the new node is not flagged |
| Insertion.MarkWalk | createTrie.js:32-34 | setting a node's flag makes exactly the string reaching it a new word and moves no path |
| Insertion.AddChildEffect | createTrie.js:24-29 | creating a child: one more node, one more reachable string, old paths kept, the same words, old nodes only gain children |
| Insertion.MarkEffect | createTrie.js:32-34 | marking a node: the same paths, one more word, nodes only gain flags |
| Insertion.DescentEffect | createTrie.js:22-37 | one step of the `reduce`: the next node is the child for the letter, created only when absent, and marked when the letter is the word's last letter |
| Insertion.WalkedStep | createTrie.js:22-37 | after one more letter, the strings reachable and the words are those of the old trie plus the new prefix and its marks |
| Insertion.StepOnce | createTrie.js:22-37 | the insertion state after `k` letters leads to the state after `k + 1` |
| Insertion.WalkedAll | createTrie.js:22-37 | after the last letter, the new paths are the word's prefixes, and the new words are those the word marks |
| Insertion.InsertPath | createTrie.js:22-37 | the `reduce` over the trimmed word. Each node gets at most one child per letter, and a child is created only where the existing path ends. The trie grows by the unmatched letters. Old paths are kept. The reachable strings gain exactly the word's prefixes. The words gain exactly the strings the word marks. No flag is cleared. All of this together is `Insertion.Inserted` |
| Insertion.MarkedByAnySnoc | createTrie.js:61-63 | the strings a list of words marks grow, word by word, by what each trimmed word marks |
| Insertion.PopulatedStep | createTrie.js:61-63 | inserting the next word of the list extends what the earlier words did: old paths and flags stay and the words are the old ones plus those marked so far |
| Insertion.ChainPopulated | createTrie.js:61-63 | a run of insertions, one per list entry in list order, leaves the old paths and flags and exactly the old words plus those the entries mark |
| Insertion.PopulatedAll | createTrie.js:61-63 | after the whole list, the trie is well formed, keeps old paths and flags, and its words are the old ones plus those the list marks |
| Insertion.InsertedSnoc | createTrie.js:62 | one more insertion extends the run of insertions, one per list entry |
| Deletion.ClearMarkWf | createTrie.js:89 | clearing a flag keeps the trie well formed and moves no path |
| Deletion.ClearMark | createTrie.js:89 | `setIsCompleteString(false)`: the node is unflagged, its children unchanged, and no other node changes |
| Deletion.UnlinkWf | createTrie.js:98 | removing a child link keeps the trie well formed |
| Deletion.Unlink | createTrie.js:98 | `delete parentNode.getChildren()[letter]`: only the parent changes, and it keeps its flag |
| Deletion.UnlinkLookup | createTrie.js:98 | with distinct keys, the unlinked letter is left without a child and every other letter keeps its child |
| Deletion.UnlinkWalk | createTrie.js:98 | after `delete parentNode.getChildren()[letter]`, exactly the strings extending the removed edge lose their path |
| Deletion.UnlinkListing | createTrie.js:97-99 | removing a childless non-word node changes no listing |
| Deletion.ClearMarkCollect | createTrie.js:86-89 | clearing the flag of the node of `word` drops exactly `word` from every collection |
| Deletion.ClearMarkListing | createTrie.js:86-89 | clearing the flag of the node of `word` drops exactly `word` from every listing, keeping the order of the rest |
| Deletion.LeafPath | createTrie.js:97-99 | below a childless node no longer string has a path |
| Deletion.PruneStart | createTrie.js:70-81 | before the loop the path of the stored word is intact and nothing has changed |
| Deletion.PruneClear | createTrie.js:86-89 | at the last index, clearing the flag removes exactly `word` from every listing |
| Deletion.PrunePass | createTrie.js:86 | a node above the last that is not a word is passed over with the removal already done |
| Deletion.PruneUnlink | createTrie.js:97-99 | unlinking a childless non-word node keeps the removal and the rest of the path |
| Deletion.PruneKeep | createTrie.js:97 | the branch that unlinks nothing keeps the removal and the path; which nodes stay linked is stated by `Deletion.CutKeep` |
| Deletion.OnPathIncreasing | createTrie.js:81-84 | the nodes of a node path are distinct, their indices strictly increasing |
| Deletion.PathChild | createTrie.js:82-83 | on a node path, the node at `index` is the child of the node at `index - 1` under the letter between them |
| Deletion.DeleteKeyLength | createTrie.js:98 | deleting a key that is present removes exactly one entry |
| Deletion.CutFrom | createTrie.js:81-100 | searching down from `index`, the least position from which every node of the path to `index` can be pruned: the node of a full word has no children, a node above it has only the next node of the path and ends no word |
| Deletion.Cut | createTrie.js:81-100 | where `remove(word)` cuts the path, defined independently of the loop: the least position `m >= 1` from which every node of the path can be pruned; `m == |word|` when the last node keeps children |
| Deletion.CutUnique | createTrie.js:81-100 | a position with every node from it prunable and the one before it not prunable is `Deletion.Cut` |
| Deletion.CutStart | createTrie.js:81 | before the loop nothing is cut, and the cut is at the end of the word |
| Deletion.CutClear | createTrie.js:86-89 | clearing the last node's flag moves no path |
| Deletion.CutReached | createTrie.js:97 | a childless node the loop reaches below the last complete node is prunable, and the cut is just below it |
| Deletion.CutWalk | createTrie.js:98 | unlinking that node loses exactly the paths through it |
| Deletion.CutUnlink | createTrie.js:97-99 | unlinking a childless node moves the cut up to it, the nodes above unchanged |
| Deletion.CutKeep | createTrie.js:97 | a node with children stays linked and the cut stays where it is |
| Deletion.CutDone | createTrie.js:90-94 | where the loop stops, at the first letter or at a complete node above the last, the cut is `Deletion.Cut`: exactly the paths through the node at the cut are lost |
| Deletion.Prune | createTrie.js:81-100 | the backward loop over the node path of a stored word. With two letters or more, exactly `word` leaves every listing, and the remaining words keep their order. A one-letter word leaves the trie unchanged. The first letter's node stays under the root. The paths lost are exactly those through the node at `Deletion.Cut`, and every other path reaches the node it reached before |
| CreateTrie.Trie.constructor | createTrie.js:14-15 | a lone root with the counter at 0 and no words |
| CreateTrie.Trie.Insert | createTrie.js:17-38 | the counter rises by exactly 1 whatever the word. The trimmed word's path is added, reusing existing nodes, and the trie grows by its unmatched letters. The words gain exactly what the trimmed word marks, the word itself included. No flag is cleared and old paths stay. Together: `Insertion.Inserted` of the trimmed word |
| CreateTrie.Trie.Populate | createTrie.js:61-63 | the counter rises by the length of the list. The ghost `states` are the tries between insertions: the first is the old trie, the last the new one, and each is the one before with the next entry inserted (`Insertion.Inserted`), so the entries go in list order. The words gain exactly what the trimmed entries mark. Old paths and flags stay |
| CreateTrie.Trie.GetNodePath | createTrie.js:114-129 | when every letter has a child, the nodes along the query, one per letter; otherwise `[]` |
| CreateTrie.Trie.Suggest | createTrie.js:44-59 | `[]` for an empty trimmed query. Otherwise the listing of the trimmed query: exactly the stored words starting with it, once each, the query first when it is a word. The trie is not changed |
| CreateTrie.Trie.Delete | createTrie.js:69-101 | for a string that is not a stored word (untrimmed), the `Error` text and no change. A stored one-letter word stays. For a longer stored word, exactly that word leaves every listing, and the other words keep their order. The first letter's node stays under the root. Exactly the paths through the node at `Deletion.Cut` are lost, so a later insertion of the same word rebuilds its nodes at the end of their parent's children. The counter is unchanged |
| CreateTrie.RemovedWords | createTrie.js:69-101 | if a word leaves every listing and nothing else changes, it is the only word lost |
| EarlyTrie.Trie.constructor | Trie.js:4-5 | a lone root with the counter at 0 and no words |
| EarlyTrie.Trie.Insert | Trie.js:7-28 | the counter rises by exactly 1. The trimmed word's path is added, reusing existing nodes, and the trie grows by its unmatched letters. The words gain exactly what the trimmed word marks. No flag is cleared and old paths stay. Together: `Insertion.Inserted` of the trimmed word |
| EarlyTrie.Trie.Populate | Trie.js:75 | the counter rises by the length of the list. The ghost `states` are the tries between insertions, each the one before with the next entry inserted, in list order. The words gain exactly what the trimmed entries mark. Old paths and flags stay |
| EarlyTrie.Trie.GetEndOfQueryNode | Trie.js:44-54 | the node the query spells out from the root (the root for the empty query), or nothing when some letter has no child |
| EarlyTrie.Trie.Suggest | Trie.js:34-42 | `[]` when the trimmed query has no path. Otherwise the pre-order collection below it: exactly the stored words strictly extending the trimmed query, once each. The query itself is never included, and an empty query lists every word |
| EarlyTrie.ExtensionsReach | Trie.js:39 | when the query has no path, no stored word extends it, so `[]` misses nothing |

## Left out

- **`index.js`.** It reads a dictionary file and prints results. That is input and output, and its inline list-backed `Trie` is not part of this model.
- **Test harnesses.** The `test` and `expect` helpers in `createTrie-test.js` and `Trie-test.js` print coloured output; they are not trie logic.
- **`toHierarchy` and `getChildren({ arrayForm: true })`.** They render the tree for visualisation.
- **`getRootNode`.** It hands out the root object. Object identity and external aliasing through it are not modelled. The trie is a value inside the class.
- **`getValue`.** The node's own letter is not stored, because it always equals the key under which its parent holds the node. The root's `"__root__"` value is never read by the operations.
- **Unlinked nodes.** A node removed by `remove` stays in the arena, unreachable; JavaScript would reclaim it. So the arena's size after a deletion is not the number of live nodes.
- **Key order.** JavaScript enumerates integer-like object keys (digits) first, in numeric order. The model enumerates every letter in insertion order, which matches the code for non-digit letters of the Basic Multilingual Plane only.
- **Characters and whitespace.** Characters are Dafny `char`s, that is Unicode scalar values, and not UTF-16 code units, so a lone surrogate cannot occur; the lines below starting with `Insertion.MarkedBy`, `CreateTrie.Trie.Delete` and `CreateTrie.Trie.Suggest` say where this changes the result. `Text.IsWhitespace` lists the ECMAScript WhiteSpace and LineTerminator code points as fixed constants; Unicode data beyond that list is not consulted.
- **Dead code.** The unreachable `if (!childNode) return substring` (createTrie.js:138, Trie.js:63) is not modelled.
- **Exceptions.** The exception thrown by `remove` is modelled as the `NotAWord` outcome carrying its message, and not as control flow.
- **Count methods.** `CreateTrie.Trie.Count` and `EarlyTrie.Trie.Count` only return the counter. The counter's behaviour is stated on the constructors, `Insert`, `Populate` and `Delete`.
- CreateTrie.Trie.Insert, EarlyTrie.Trie.Insert, CreateTrie.Trie.Populate and EarlyTrie.Trie.Populate: the counter is an unbounded `nat`. In JavaScript `numberOfWords` is a Number, so once it reaches 2^53 (9007199254740992) `numberOfWords++` no longer changes it; the `+ 1` and `+ |wordList|` clauses hold there only while the counter stays below 2^53.
- Insertion.MarkedBy: compares whole characters, not UTF-16 code units. In JavaScript, `split("")` and `normalizedWord[length - 1]` work on code units, so two different astral characters that share a final low surrogate (U+10600 and U+1F600 both end in 0xDE00) count as equal last letters. Inserting "\u{10600}\u{1F600}" there also marks "\u{10600}"; the model does not.
- CreateTrie.Trie.Delete: a word is a sequence of characters, not of UTF-16 code units. A stored one-character astral word such as "\u{1F600}" has a node path of two entries in JavaScript, so `remove` deletes it; the model keeps it, as for any one-letter word.
- CreateTrie.Trie.Suggest, EarlyTrie.Trie.Suggest and Insertion.InsertPath: the children are keyed by characters, not by UTF-16 code units. In JavaScript, `split("")` keys them by code units, so astral characters that share a high surrogate hang under one shared node for that surrogate, and each astral character takes two nodes. The suggestion order differs as a result: after inserting "x\u{1F600}", "xa" and "x\u{1F601}", `suggest("x")` in JavaScript returns "x\u{1F600}", "x\u{1F601}", "xa", while the model lists "x\u{1F600}", "xa", "x\u{1F601}". The node counts stated by `Insertion.InsertPath` and both `Insert` methods also count one node per character rather than per code unit.
