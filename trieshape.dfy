/** The shape of the word tree, stated on plain values so that the lemmas
    about it do not touch the heap. The nodes live in a table (`nodes`, the
    root at index 0); `path[i]` is the string spelled by the edges from the
    root to node i, `index` is the inverse of `path`, and `words` is the set
    of stored words. */
module TrieShape {
  import opened Normalization
  import opened ShortLex

  /** TreeNode: the end-of-word flag and the edges to the children, each
      child given by its position in the node table. */
  datatype Node = Node(endOfWord: bool, children: map<char, nat>)

  function Parent(s: string): string
    requires |s| > 0
  {
    s[..|s| - 1]
  }

  /** The stored words that strictly extend `p`: the candidates for
      `predict(p, ...)`. */
  function Extensions(words: set<string>, p: string): set<string>
  {
    set w | w in words && p < w
  }

  /** The tree invariant: node paths and the index are inverse, an edge
      labelled c from node i leads to the node whose path is path[i] + [c],
      every node but the root hangs below its parent by its last character,
      a node is marked exactly when its path is a stored word, and only
      lowercase words are stored. */
  ghost predicate WellFormed(nodes: seq<Node>, path: seq<string>, index: map<string, nat>, words: set<string>)
  {
    && |nodes| == |path| > 0
    && path[0] == []
    && (forall i :: 0 <= i < |path| ==> path[i] in index && index[path[i]] == i)
    && (forall s :: s in index ==> index[s] < |path| && path[index[s]] == s)
    && (forall i, c :: 0 <= i < |nodes| && c in nodes[i].children ==>
          path[i] + [c] in index && nodes[i].children[c] == index[path[i] + [c]])
    && (forall i :: 0 < i < |path| ==> path[i] != [])
    && (forall i {:trigger Parent(path[i])} :: 0 < i < |nodes| && path[i] != [] ==>
          Parent(path[i]) in index &&
          path[i][|path[i]| - 1] in nodes[index[Parent(path[i])]].children)
    && (forall i :: 0 <= i < |nodes| ==> (nodes[i].endOfWord <==> path[i] in words))
    && (forall w :: w in words ==> w in index && IsLowerWord(w))
    && (forall i, c :: 0 <= i < |nodes| && c in nodes[i].children ==> 'a' <= c <= 'z')
  }

  /** Every child of a node in `done` is in `done` or in `queued`: what a
      breadth-first walk keeps true after each node it expands. */
  ghost predicate Closed(nodes: seq<Node>, done: set<nat>, queued: set<nat>)
  {
    forall x, c :: x in done && 0 <= x < |nodes| && c in nodes[x].children ==>
      nodes[x].children[c] in done || nodes[x].children[c] in queued
  }

  /** Node x is not the root and its parent is in `done`. */
  ghost predicate ParentIn(path: seq<string>, index: map<string, nat>, x: nat, done: set<nat>)
  {
    x < |path| && path[x] != [] && Parent(path[x]) in index && index[Parent(path[x])] in done
  }

  lemma ChildPath(nodes: seq<Node>, path: seq<string>, index: map<string, nat>, words: set<string>, x: nat, c: char)
    requires WellFormed(nodes, path, index, words)
    requires x < |nodes| && c in nodes[x].children
    ensures nodes[x].children[c] < |nodes|
    ensures path[nodes[x].children[c]] == path[x] + [c]
    ensures ParentIn(path, index, nodes[x].children[c], {x})
  {
    var s := path[x] + [c];
    assert Parent(s) == path[x];
  }

  /** Every prefix of a path in the tree is a path in the tree. */
  lemma {:induction false} PrefixPresent(nodes: seq<Node>, path: seq<string>, index: map<string, nat>, words: set<string>, s: string, k: nat)
    requires WellFormed(nodes, path, index, words)
    requires s in index && k <= |s|
    ensures s[..k] in index
    decreases |s|
  {
    if k == |s| {
      assert s[..k] == s;
    } else {
      var i := index[s];
      assert i != 0;
      PrefixPresent(nodes, path, index, words, Parent(s), k);
      assert Parent(s)[..k] == s[..k];
    }
  }

  /** Along the path of a node, every edge is present. */
  lemma EdgeOnPath(nodes: seq<Node>, path: seq<string>, index: map<string, nat>, words: set<string>, s: string, k: nat)
    requires WellFormed(nodes, path, index, words)
    requires s in index && k < |s|
    ensures s[..k] in index && s[k] in nodes[index[s[..k]]].children
  {
    PrefixPresent(nodes, path, index, words, s, k + 1);
    var t := s[..k + 1];
    var y := index[t];
    assert y != 0;
    assert Parent(path[y]) == s[..k];
  }

  /** A walk that finds no edge for w[k] at the node for w[..k] proves that
      w is not in the tree at all. */
  lemma MissingEdge(nodes: seq<Node>, path: seq<string>, index: map<string, nat>, words: set<string>, x: nat, w: string, k: nat)
    requires WellFormed(nodes, path, index, words)
    requires x < |nodes| && k < |w| && path[x] == w[..k]
    requires w[k] !in nodes[x].children
    ensures w !in index
  {
    if w in index {
      EdgeOnPath(nodes, path, index, words, w, k);
    }
  }

  /** Only a string that is the path of a node can be extended by a stored
      word. */
  lemma ExtensionsHaveNode(nodes: seq<Node>, path: seq<string>, index: map<string, nat>, words: set<string>, p: string)
    requires WellFormed(nodes, path, index, words)
    ensures forall w :: w in Extensions(words, p) ==> p in index
  {
    forall w | w in Extensions(words, p)
      ensures p in index
    {
      PrefixPresent(nodes, path, index, words, w, |p|);
      assert w[..|p|] == p;
    }
  }

  /** No node for `p` means no stored word extends `p`. */
  lemma NoNodeNoExtensions(nodes: seq<Node>, path: seq<string>, index: map<string, nat>, words: set<string>, p: string)
    requires WellFormed(nodes, path, index, words)
    requires p !in index
    ensures Extensions(words, p) == {}
  {
    ExtensionsHaveNode(nodes, path, index, words, p);
  }

  /** In a breadth-first walk from `start`, a node of start's subtree that
      has not been expanded yet lies below (or is) a queued node. */
  lemma {:induction false} Reachable(nodes: seq<Node>, path: seq<string>, index: map<string, nat>, words: set<string>,
                                     done: set<nat>, queued: set<nat>, start: nat, x: nat)
    requires WellFormed(nodes, path, index, words)
    requires start < |nodes| && x < |nodes| && path[start] <= path[x]
    requires forall y :: y in queued ==> y < |nodes|
    requires start in done || start in queued
    requires Closed(nodes, done, queued)
    requires x !in done
    ensures exists y :: y in queued && y < |path| && path[y] <= path[x]
    decreases |path[x]|
  {
    if x == start {
      assert x in queued && path[x] <= path[x];
    } else {
      assert path[start] != path[x];
      assert path[x] != [];
      var s := Parent(path[x]);
      var px := index[s];
      var c := path[x][|path[x]| - 1];
      assert path[x] == s + [c];
      assert nodes[px].children[c] == x;
      assert path[start] <= s;
      if px in done {
        assert x in queued && path[x] <= path[x];
      } else {
        Reachable(nodes, path, index, words, done, queued, start, px);
        var y :| y in queued && y < |path| && path[y] <= path[px];
        assert path[y] <= path[x];
      }
    }
  }

  /** A breadth-first walk from the root whose queue has run dry has
      expanded every node. */
  lemma AllVisited(nodes: seq<Node>, path: seq<string>, index: map<string, nat>, words: set<string>, done: set<nat>)
    requires WellFormed(nodes, path, index, words)
    requires 0 in done && Closed(nodes, done, {})
    ensures forall x :: 0 <= x < |nodes| ==> x in done
  {
    forall x | 0 <= x < |nodes|
      ensures x in done
    {
      if x !in done {
        Reachable(nodes, path, index, words, done, {}, 0, x);
      }
    }
  }

  /** add's step for a missing edge: a fresh unmarked node at the end of the
      table, the edge to it, and its path and index entry keep the tree
      well formed and the stored words unchanged. */
  lemma GrowWellFormed(nodes: seq<Node>, path: seq<string>, index: map<string, nat>, words: set<string>, x: nat, c: char)
    requires WellFormed(nodes, path, index, words)
    requires x < |nodes| && c !in nodes[x].children
    requires 'a' <= c <= 'z'
    ensures path[x] + [c] !in index
    ensures WellFormed(nodes[x := nodes[x].(children := nodes[x].children[c := |nodes|])] + [Node(false, map[])],
                       path + [path[x] + [c]], index[path[x] + [c] := |nodes|], words)
  {
    var s := path[x] + [c];
    if s in index {
      EdgeToChild(nodes, path, index, words, path[x], c);
    }
    GrowEdges(nodes, path, index, words, x, c);
    GrowParents(nodes, path, index, words, x, c);
    var nodes' := nodes[x := nodes[x].(children := nodes[x].children[c := |nodes|])] + [Node(false, map[])];
    forall i, d | 0 <= i < |nodes'| && d in nodes'[i].children
      ensures 'a' <= d <= 'z'
    {
      if i != x && i < |nodes| {
        assert nodes'[i] == nodes[i];
      }
    }
  }

  lemma EdgeToChild(nodes: seq<Node>, path: seq<string>, index: map<string, nat>, words: set<string>, s: string, c: char)
    requires WellFormed(nodes, path, index, words)
    requires s + [c] in index
    ensures s in index && c in nodes[index[s]].children
  {
    EdgeOnPath(nodes, path, index, words, s + [c], |s|);
    assert (s + [c])[..|s|] == s;
  }

  lemma GrowEdges(nodes: seq<Node>, path: seq<string>, index: map<string, nat>, words: set<string>, x: nat, c: char)
    requires WellFormed(nodes, path, index, words)
    requires x < |nodes| && c !in nodes[x].children && path[x] + [c] !in index
    ensures var nodes' := nodes[x := nodes[x].(children := nodes[x].children[c := |nodes|])] + [Node(false, map[])];
            var path' := path + [path[x] + [c]];
            var index' := index[path[x] + [c] := |nodes|];
            forall i, d :: 0 <= i < |nodes'| && d in nodes'[i].children ==>
              path'[i] + [d] in index' && nodes'[i].children[d] == index'[path'[i] + [d]]
  {
    var s := path[x] + [c];
    var n := |nodes|;
    var nodes' := nodes[x := nodes[x].(children := nodes[x].children[c := n])] + [Node(false, map[])];
    var path' := path + [s];
    var index' := index[s := n];
    forall i, d | 0 <= i < |nodes'| && d in nodes'[i].children
      ensures path'[i] + [d] in index' && nodes'[i].children[d] == index'[path'[i] + [d]]
    {
      if i != x {
        assert i < n && nodes'[i] == nodes[i] && path'[i] == path[i];
        assert path[i] + [d] in index;
      } else if d != c {
        assert nodes'[i].children[d] == nodes[x].children[d];
        assert path[x] + [d] in index;
      }
    }
  }

  lemma GrowParents(nodes: seq<Node>, path: seq<string>, index: map<string, nat>, words: set<string>, x: nat, c: char)
    requires WellFormed(nodes, path, index, words)
    requires x < |nodes| && c !in nodes[x].children && path[x] + [c] !in index
    ensures var nodes' := nodes[x := nodes[x].(children := nodes[x].children[c := |nodes|])] + [Node(false, map[])];
            var path' := path + [path[x] + [c]];
            var index' := index[path[x] + [c] := |nodes|];
            forall i {:trigger Parent(path'[i])} :: 0 < i < |nodes'| && path'[i] != [] ==>
              Parent(path'[i]) in index' &&
              path'[i][|path'[i]| - 1] in nodes'[index'[Parent(path'[i])]].children
  {
    var s := path[x] + [c];
    var n := |nodes|;
    var nodes' := nodes[x := nodes[x].(children := nodes[x].children[c := n])] + [Node(false, map[])];
    var path' := path + [s];
    var index' := index[s := n];
    forall i | 0 < i < |nodes'| && path'[i] != []
      ensures Parent(path'[i]) in index' &&
              path'[i][|path'[i]| - 1] in nodes'[index'[Parent(path'[i])]].children
    {
      if i < n {
        assert path'[i] == path[i];
        assert Parent(path[i]) in index;
      } else {
        assert Parent(path'[i]) == path[x];
      }
    }
  }

  /** add's last step: marking the node for a lowercase word stores exactly
      that word. */
  lemma MarkWellFormed(nodes: seq<Node>, path: seq<string>, index: map<string, nat>, words: set<string>, x: nat)
    requires WellFormed(nodes, path, index, words)
    requires x < |nodes| && IsLowerWord(path[x])
    ensures WellFormed(nodes[x := nodes[x].(endOfWord := true)], path, index, words + {path[x]})
  {
  }

}
