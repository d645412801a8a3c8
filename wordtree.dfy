/** The word tree (WordTree / TreeNode). Nodes live in a table that the
    methods grow and update in place; the root is entry 0 and an edge names
    its child by position. The ghost fields give the abstract view: `Words`,
    the set of stored lowercase words, and `Path`/`Index`, the string each
    node spells and its inverse. */
module WordTrees {
  import opened Normalization
  import opened ShortLex
  import opened TrieShape
  import opened Walks

  /** std::uint8_t, the type of predict's `howMany`. */
  type Byte = x: int | 0 <= x < 256

  /** The children of a node as predict orders them before queueing: every
      edge character once, in strictly ascending order (the copy of the
      child map sorted with std::sort on the key). Built by taking the
      smallest remaining key each round. */
  method SortedKeys(children: map<char, nat>) returns (keys: seq<char>)
    ensures forall i, j :: 0 <= i < j < |keys| ==> keys[i] < keys[j]
    ensures forall c :: c in children <==> c in keys
  {
    keys := [];
    var rest := children.Keys;
    while rest != {}
      invariant Selecting(children, keys, rest)
      decreases |rest|
    {
      MinExists(rest);
      var c :| c in rest && forall d :: d in rest ==> c <= d;
      SelectNext(children, keys, rest, c);
      keys := keys + [c];
      rest := rest - {c};
    }
  }

  /** Half-way through the selection: `keys` is ascending, holds the
      smallest keys, and `rest` holds the others. */
  ghost predicate Selecting(children: map<char, nat>, keys: seq<char>, rest: set<char>)
  {
    && (forall c :: c in children <==> c in keys || c in rest)
    && (forall i, j :: 0 <= i < j < |keys| ==> keys[i] < keys[j])
    && (forall i, c :: 0 <= i < |keys| && c in rest ==> keys[i] < c)
  }

  /** Moving the smallest remaining key to the end of the list keeps the
      selection invariant. */
  lemma SelectNext(children: map<char, nat>, keys: seq<char>, rest: set<char>, c: char)
    requires Selecting(children, keys, rest)
    requires c in rest && forall d :: d in rest ==> c <= d
    ensures Selecting(children, keys + [c], rest - {c})
  {
    var k := keys + [c];
    forall i, d | 0 <= i < |k| && d in rest - {c}
      ensures k[i] < d
    {
      if i < |keys| {
        assert k[i] == keys[i];
      }
    }
  }

  lemma {:induction false} MinExists(s: set<char>)
    requires s != {}
    ensures exists c :: c in s && forall d :: d in s ==> c <= d
  {
    var x :| x in s;
    if s != {x} {
      MinExists(s - {x});
      var m :| m in s - {x} && forall d :: d in s - {x} ==> m <= d;
      var least := if x < m then x else m;
      forall d | d in s
        ensures least <= d
      {
        if d != x {
          assert d in s - {x};
        }
      }
    } else {
      assert forall d :: d in s ==> x <= d;
    }
  }

  /** size's inner loop: queue every child of the expanded node x, in
      whatever order the child map yields them. */
  method QueueChildren(ns: seq<Node>, ghost path: seq<string>, ghost index: map<string, nat>, ghost words: set<string>,
                       ghost done: set<nat>, q: seq<nat>, x: nat) returns (q': seq<nat>)
    requires x < |ns| && CountExpanding(ns, path, index, words, done, q, x, ns[x].children.Keys)
    ensures CountState(ns, path, index, words, done, q')
    ensures |q'| == |q| + |ns[x].children|
  {
    q' := q;
    var keys := ns[x].children.Keys;
    while keys != {}
      invariant CountExpanding(ns, path, index, words, done, q', x, keys)
      invariant |q'| + |keys| == |q| + |ns[x].children|
      decreases |keys|
    {
      var c :| c in keys;
      CountPush(ns, path, index, words, done, q', x, keys, c);
      q' := q' + [ns[x].children[c]];
      keys := keys - {c};
    }
    CountPushed(ns, path, index, words, done, q', x);
  }

  /** predict's inner loop: queue the children of the expanded node x,
      whose path is `prefix`, in the ascending order `cs` of their edge
      characters, each paired with its path. */
  method QueueInOrder(ns: seq<Node>, ghost path: seq<string>, ghost index: map<string, nat>, ghost words: set<string>,
                      ghost p: string, ghost start: nat, ghost done: set<nat>, q: seq<(nat, string)>,
                      ghost predictions: seq<string>, x: nat, prefix: string, cs: seq<char>)
      returns (q': seq<(nat, string)>)
    requires x < |path| && path[x] == prefix
    requires PredictExpanding(ns, path, index, words, p, start, done, q, predictions, x, cs, 0)
    ensures PredictState(ns, path, index, words, p, start, done, q', predictions)
    ensures |q'| == |q| + |cs|
  {
    q' := q;
    for m := 0 to |cs|
      invariant PredictExpanding(ns, path, index, words, p, start, done, q', predictions, x, cs, m)
      invariant |q'| == |q| + m
    {
      PredictPush(ns, path, index, words, p, start, done, q', predictions, x, cs, m);
      q' := q' + [(ns[x].children[cs[m]], prefix + [cs[m]])];
    }
    PredictPushed(ns, path, index, words, p, start, done, q', predictions, x, cs);
  }

  class WordTree {
    /** The node table; nodes[0] is the root. */
    var nodes: seq<Node>
    ghost var Words: set<string>
    ghost var Path: seq<string>
    ghost var Index: map<string, nat>

    ghost predicate Valid()
      reads this
    {
      WellFormed(nodes, Path, Index, Words)
    }

    /** A tree holding only an unmarked root: no words. */
    constructor ()
      ensures Valid() && Words == {}
    {
      nodes := [Node(false, map[])];
      Path := [[]];
      Index := map[[] := 0];
      Words := {};
    }

    /** add: normalises the word; a rejected word leaves the tree untouched.
        Otherwise walks the word from the root, creating each missing child,
        and marks the last node, so the word (and only it) joins the set. */
    method Add(word: string)
      requires Valid()
      modifies this
      ensures Valid()
      ensures IsLowerWord(Lowered(word)) ==> Words == old(Words) + {Lowered(word)}
      ensures !IsLowerWord(Lowered(word)) ==> Words == old(Words) && nodes == old(nodes)
    {
      var w, ok := Normalize(word);
      if !ok {
        return;
      }
      var current := Grow(w);
      MarkWellFormed(nodes, Path, Index, Words, current);
      nodes := nodes[current := nodes[current].(endOfWord := true)];
      Words := Words + {w};
    }

    /** add's loop: walk w from the root, creating each missing child as an
        unmarked node, and end at the node that spells w. No word is added. */
    method Grow(w: string) returns (current: nat)
      requires Valid() && IsLowerWord(w)
      modifies this
      ensures Valid() && Words == old(Words)
      ensures current < |nodes| && Path[current] == w
    {
      var ns := nodes;
      ghost var path: seq<string>, index: map<string, nat> := Path, Index;
      current := 0;
      for k := 0 to |w|
        invariant WellFormed(ns, path, index, Words) && Words == old(Words)
        invariant current < |ns| && path[current] == w[..k]
      {
        var c := w[k];
        if c !in ns[current].children {
          var newNode: nat := |ns|;
          ghost var s := path[current] + [c];
          GrowWellFormed(ns, path, index, Words, current, c);
          ns := ns[current := ns[current].(children := ns[current].children[c := newNode])] + [Node(false, map[])];
          path := path + [s];
          index := index[s := newNode];
        } else {
          ChildPath(ns, path, index, Words, current, c);
        }
        assert w[..k + 1] == w[..k] + [w[k]];
        current := ns[current].children[c];
      }
      assert w[..|w|] == w;
      nodes, Path, Index := ns, path, index;
    }

    /** The walk shared by find and predict: follow w's characters from the
        root and stop at the first missing edge. It reaches a node exactly
        when w is a path of the tree. */
    method Descend(w: string) returns (present: bool, node: nat)
      requires Valid()
      ensures present <==> w in Index
      ensures present ==> node < |nodes| && node == Index[w] && Path[node] == w
    {
      node := 0;
      for k := 0 to |w|
        invariant node < |nodes| && Path[node] == w[..k]
      {
        if w[k] !in nodes[node].children {
          MissingEdge(nodes, Path, Index, Words, node, w, k);
          return false, node;
        }
        ChildPath(nodes, Path, Index, Words, node, w[k]);
        assert w[..k + 1] == w[..k] + [w[k]];
        node := nodes[node].children[w[k]];
      }
      assert w[..|w|] == w;
      present := true;
    }

    /** find: true exactly for the words whose normal form is stored. It is
        false for a rejected word, for a missing edge, and for a path whose
        last node was never marked. */
    method Find(word: string) returns (found: bool)
      requires Valid()
      ensures found <==> Lowered(word) in Words
      ensures !IsLowerWord(Lowered(word)) ==> !found
    {
      var w, ok := Normalize(word);
      if !ok {
        return false;
      }
      var present, node := Descend(w);
      if !present {
        return false;
      }
      found := nodes[node].endOfWord;
    }

    /** size: a breadth-first walk over the whole tree counting marked
        nodes, which is the number of stored words. The children of a node
        are queued in no particular order. */
    method Size() returns (count: nat)
      requires Valid()
      ensures count == |Words|
    {
      var ns := nodes;
      ghost var path, index, words := Path, Index, Words;
      count := 0;
      var q: seq<nat> := [0];
      ghost var done: set<nat> := {};
      ghost var counted: set<string> := {};
      ghost var todo := NodeIds(|ns|);
      while q != []
        invariant CountState(ns, path, index, words, done, q)
        invariant forall x: nat :: x in todo <==> x < |ns| && x !in done
        invariant forall w :: w in counted <==> w in words && index[w] in done
        invariant count == |counted|
        decreases |todo|
      {
        var current := q[0];
        CountPop(ns, path, index, words, done, q);
        q := q[1..];
        if ns[current].endOfWord {
          count := count + 1;
          counted := counted + {path[current]};
        }
        ExpandOne(todo, done, |ns|, current);
        done := done + {current};
        todo := todo - {current};
        q := QueueChildren(ns, path, index, words, done, q, current);
      }
      AllVisited(ns, path, index, words, done);
      assert counted == words;
    }

    /** predict: the stored words that strictly extend the normalised
        prefix, shortest first and in alphabetical order among equals, at
        most howMany of them; none for a rejected prefix or one with no
        node. The walk from the prefix's node queues children in ascending
        order of their edge character, so nodes leave the queue in shortlex
        order of their paths, and it stops as soon as howMany words are
        listed. */
    method Predict(partial: string, howMany: Byte) returns (predictions: seq<string>)
      requires Valid()
      ensures !IsLowerWord(Lowered(partial)) ==> predictions == []
      ensures IsLowerWord(Lowered(partial)) ==>
                FirstInOrder(predictions, Extensions(Words, Lowered(partial)), howMany)
    {
      var p, ok := Normalize(partial);
      if !ok {
        return [];
      }
      predictions := [];
      var present, start := Descend(p);
      if !present {
        NoNodeNoExtensions(nodes, Path, Index, Words, p);
        return;
      }
      var ns := nodes;
      ghost var path, index, words := Path, Index, Words;
      var q: seq<(nat, string)> := [(start, p)];
      ghost var done: set<nat> := {};
      ghost var todo := NodeIds(|ns|);
      ghost var stopped := false;
      PredictBegin(ns, path, index, words, p);
      while q != [] && |predictions| < howMany
        invariant PredictState(ns, path, index, words, p, start, done, q, predictions)
        invariant |predictions| <= howMany
        invariant forall x: nat :: x in todo <==> x < |ns| && x !in done
        invariant !stopped
        decreases |todo|
      {
        var node := q[0].0;
        var prefix := q[0].1;
        ghost var q0, done0, listed0 := q, done, predictions;
        q := q[1..];
        if ns[node].endOfWord && |prefix| > |p| {
          predictions := predictions + [prefix];
          if |predictions| >= howMany {
            PredictListed(ns, path, index, words, p, start, done0, q0, listed0);
            PredictionsComplete(ns, path, index, words, p, done0, q0, predictions, howMany);
            stopped := true;
            break;
          }
        }
        var cs := SortedKeys(ns[node].children);
        PredictPop(ns, path, index, words, p, start, done0, q0, listed0, cs);
        ExpandOne(todo, done, |ns|, node);
        done := done + {node};
        todo := todo - {node};
        q := QueueInOrder(ns, path, index, words, p, start, done, q, predictions, node, prefix, cs);
      }
      if !stopped {
        PredictWalk(ns, path, index, words, p, start, done, q, predictions);
        PredictionsComplete(ns, path, index, words, p, done, q, predictions, howMany);
      }
    }
  }
}
