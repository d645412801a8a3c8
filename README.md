# WordTree: a verified model of the type-ahead word tree

This project models the word tree (trie) of the TypeAhead program. A word
tree stores lowercase words one letter per edge. It offers four operations:

- `add` stores a word;
- `find` says whether a word is stored;
- `size` counts the stored words;
- `predict` lists the shortest stored completions of a prefix.

Each operation first lowercases its argument. It then rejects the argument
when the result is empty or contains a character that is not a letter.

The model is a Dafny class `WordTree` whose methods update the tree in
place. The nodes live in a table `nodes` with the root at position 0. Each
node has an end-of-word flag and a map from an edge character to the
child's position. Ghost fields give the abstract meaning of the tree:

- `Words` is the set of stored words;
- `Path[i]` is the string spelled from the root to node `i`;
- `Index` is the inverse of `Path`.

The predicate `TrieShape.WellFormed` ties the table to these fields, and
every method keeps it. It also says that every edge is labelled with a
lowercase letter and every stored word is a non-empty lowercase word, since
`add` is the only operation that grows the tree and it rejects anything
else.

Every operation is proved against `Words`:

- `find` answers membership of the normal form.
- `size` returns `|Words|`.
- `add` inserts exactly the normal form, or changes nothing.
- `predict` returns the first `howMany` stored strict extensions of the
  prefix in shortlex order: shorter words first, equal lengths in ascending
  alphabetical order. That description (`ShortLex.FirstInOrder`) is proved
  to fix a unique answer.

The two breadth-first walks behind `size` and `predict` are proved through
state predicates kept by their loops (module `Walks`), with one lemma per
step: pop, push, done pushing. The `predict` walk is shown to visit the
prefix's subtree in shortlex order of node paths. That order comes from
queueing each node's children in ascending order of their edge character.

Modules:

- `Normalization`: `std::tolower` followed by the `std::isalpha` check.
- `ShortLex`: the answer order and the uniqueness of the answer.
- `TrieShape`: the table invariant and how growing and marking keep it.
- `Walks`: the two walks as value-level state predicates and step lemmas.
- `WordTrees`: the class and its operations.
- `Scenarios`: the demo program's trees, plus client-side consequences.

## Model

| member | source | states |
|---|---|---|
| Normalization.Normalize | WordTree.cpp:24-37 | The normalised word is the argument lowercased character by character, and it is accepted exactly when it is non-empty and all lowercase letters |
| Normalization.AcceptedExactlyLetters | WordTree.cpp:29-34 | A word passes the check after lowercasing exactly when it is non-empty and every original character is an ASCII letter of either case |
| Normalization.LoweredIdempotent | WordTree.cpp:24-27 | Lowercasing twice is lowercasing once |
| ShortLex.BeforeSiblings | WordTree.cpp:189-199 | Two children of one node, queued in ascending order of their characters, have paths in shortlex order |
| ShortLex.BeforeExtend | WordTree.cpp:197-200 | Children of an earlier-queued node come before children of a later one, because a FIFO queue keeps that order |
| ShortLex.FirstInOrderUnique | WordTree.cpp:177-202 | Two lists that are each the first k members of a set in shortlex order are equal, so predict's answer is fully determined |
| TrieShape.ChildPath | WordTree.cpp:48 | Following the edge for c from node x reaches an existing node whose path is x's path plus c |
| TrieShape.MissingEdge | WordTree.cpp:84-87 | If the walk of w finds no edge for w[k], then w is the path of no node (so it is not stored and has no node to predict from) |
| TrieShape.NoNodeNoExtensions | WordTree.cpp:164-169 | When the prefix has no node, no stored word extends it, so the empty answer is the right one |
| TrieShape.GrowWellFormed | WordTree.cpp:42-47 | Creating an unmarked child for a missing edge labelled with a lowercase letter keeps the tree well formed (every edge a lowercase letter) and the stored words the same |
| TrieShape.MarkWellFormed | WordTree.cpp:50 | Marking the node of a lowercase path adds exactly that path to the stored words and keeps the tree well formed |
| TrieShape.AllVisited | WordTree.cpp:112-126 | A walk from the root that expands every child of every expanded node expands every node of the tree |
| Walks.CountPop | WordTree.cpp:114-117 | Popping size's queue head and marking it expanded keeps the queue free of repeats and of expanded nodes, with every node met reached from its expanded parent |
| Walks.CountPush | WordTree.cpp:122-125 | Queueing one more child of the head keeps those facts, because the child is neither expanded nor already queued |
| Walks.CountPushed | WordTree.cpp:112-126 | Once all the head's children are queued, every child of an expanded node is expanded or queued |
| Walks.ExpandOne | WordTree.cpp:112-126 | Each pop expands a node not expanded before, so the set of unexpanded nodes shrinks and both walks end |
| Walks.PredictBegin | WordTree.cpp:174-175 | Starting with the prefix's node and the prefix alone in the queue satisfies predict's walk state |
| Walks.PredictListed | WordTree.cpp:182-186 | Listing the popped head keeps the list strictly increasing in shortlex order, drawn from the strict extensions, and no later than anything still queued |
| Walks.PredictPop | WordTree.cpp:179-195 | After the pop, the node being expanded has the longest expanded path, and its sorted children are still to be queued after everything in the queue |
| Walks.PredictPush | WordTree.cpp:197-200 | Queueing the next child in ascending order keeps queue paths strictly increasing in shortlex order and keeps every listed word before every queued path |
| Walks.PredictPushed | WordTree.cpp:177-201 | When all children are queued, every child of an expanded node is expanded or queued again |
| Walks.PredictWalk | WordTree.cpp:177-201 | Between two pops the walk has listed every marked strict extension among the expanded nodes, and nothing it listed comes after anything queued |
| Walks.UnlistedComeLater | WordTree.cpp:177-202 | Every stored extension of the prefix that is not listed comes after every listed word in shortlex order |
| Walks.ExhaustedListsAll | WordTree.cpp:177 | When the queue runs empty, the list holds every stored strict extension of the prefix |
| Walks.PredictionsComplete | WordTree.cpp:177-202 | Stopping at howMany words or at an empty queue yields exactly the first min(howMany, number of extensions) extensions in shortlex order |
| Walks.AnswerFacts | WordTree.cpp:175-200 | Predict's answer has at most howMany words. Each is stored, starts with the prefix and is longer than it. There are no repeats, lengths never decrease, equal lengths are in alphabetical order, and the answer is empty for howMany 0 or when nothing extends the prefix |
| Walks.AnswerListsAllWhenFew | WordTree.cpp:177-202 | When at most howMany stored words extend the prefix, predict returns all of them |
| WordTrees.SortedKeys | WordTree.cpp:189-195 | Returns every edge character of a node exactly once, in strictly ascending order |
| WordTrees.QueueChildren | WordTree.cpp:122-125 | Queues all the children of the expanded node so that every child of an expanded node is expanded or queued again |
| WordTrees.QueueInOrder | WordTree.cpp:197-200 | Queues the children with their paths in ascending character order, which keeps the queue in shortlex order behind the listed words |
| WordTrees.WordTree.constructor | WordTree.cpp:11-12 | A new tree is well formed and holds no words |
| WordTrees.WordTree.Add | WordTree.cpp:22-51 | An accepted word joins the stored set in normal form and nothing else changes; a rejected word leaves the node table and the set untouched |
| WordTrees.WordTree.Grow | WordTree.cpp:39-49 | Walking an accepted (lowercase) word while creating missing children ends at the node that spells the word, and no stored word is added or lost |
| WordTrees.WordTree.Descend | WordTree.cpp:81-89 | The walk reaches a node exactly when the string is the path of some node, and that node spells the string |
| WordTrees.WordTree.Find | WordTree.cpp:64-91 | True exactly when the normal form of the word is stored, and false for every rejected word |
| WordTrees.WordTree.Size | WordTree.cpp:101-128 | Returns the number of distinct stored words |
| WordTrees.WordTree.Predict | WordTree.cpp:143-203 | Empty for a rejected prefix. Otherwise the first howMany stored strict extensions of the normalised prefix (all of them if fewer), shortest first and alphabetical among equal lengths |
| Scenarios.FourWords | main.cpp:10-13 | The demo's first tree ("tree", "three", "free", "pizza"; queried at main.cpp:21-24): "pizza" is found, the size is 4, and the first two completions of "t" are "tree" then "three"; also "tre", a path of the tree that is not a stored word, is not found |
| Scenarios.AcornCompletions | main.cpp:14-19 | After adding "acknowledging", "acorn", "acorns" and "acoustic", asking for two completions of "acorn" gives just "acorns" |
| Scenarios.AddThenFind | WordTree.cpp:39-90 | After adding a word, every spelling that lowercases to it is found, its lowercase form is found, and so is every word found before |
| Scenarios.AddAgain | WordTree.cpp:39-50 | Adding a word that is already stored, in any casing, leaves the size unchanged |
| Scenarios.RejectedAdd | WordTree.cpp:34-37 | Adding a rejected word changes neither the size nor any find result |
| Scenarios.FreshTree | WordTree.cpp:11-12 | A fresh tree has size 0 and finds nothing |

## Left out

- Shared ownership through `std::shared_ptr` (WordTree.hpp:14, WordTree.hpp:28) is not modelled. Nodes sit in a table owned by the tree and edges are positions in it, so no node is shared and none is freed.
- Locales: `std::tolower` and `std::isalpha` are modelled for the "C" locale only. 'A'..'Z' map to 'a'..'z', and only ASCII letters are alphabetic.
- The iteration order of `std::unordered_map` is not modelled. `size` takes the children in an arbitrary order (`:|`), and the proof holds for every order.
- The node's `value` string (WordTree.hpp:12, written at WordTree.cpp:45) is never read, so it is left out of `Node`.
- `isAllLowercaseAlpha` (WordTree.hpp:27) is declared but never defined, so there is nothing to model.
- The `root == nullptr` branch of `size` (WordTree.cpp:103-106) is not modelled: the constructor always creates a root, so the branch cannot be taken.
- Allocation failure of `make_shared` is not modelled.
- Integer widths: `size`'s `std::size_t` counter is an unbounded `nat`, so overflow is not modelled.
- `howMany` is a number below 256 (`Byte`); `std::uint8_t` wrap-around cannot occur in a parameter and is not modelled.
- `main.cpp` is not modelled as a program; its console output (main.cpp:21-28) is left out. Its two trees are replayed as the `Scenarios` methods.
- main.cpp:24 stores the "t" completions in `prediction`, but main.cpp:25 prints `predictions` (the "acorn" answer), so the "t" answer is never shown. `Scenarios.FourWords` states what that answer is.
- Step-by-step updates inside `add`'s loop are not modelled. `WordTree.Grow` builds the grown table in local variables and assigns the fields once at the end. The method is sequential and nothing observes the intermediate states, so the final state is the same as the source's.
