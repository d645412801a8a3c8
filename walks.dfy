/** The two breadth-first walks of the word tree, stated on plain values:
    the one behind `size`, which visits every node once, and the one behind
    `predict`, which visits the subtree of a prefix in shortlex order of the
    node paths. Each walk has a state predicate that its loop keeps and one
    lemma per step of the loop. */
module Walks {
  import opened Normalization
  import opened ShortLex
  import opened TrieShape

  /** The node positions 0 .. n-1. */
  function NodeIds(n: nat): (r: set<nat>)
    ensures forall x: nat :: x in r <==> x < n
  {
    if n == 0 then {} else NodeIds(n - 1) + {n - 1}
  }

  /** Expanding one more node x shrinks the set `todo` of nodes not yet
      expanded: the measure that ends both walks. */
  lemma ExpandOne(todo: set<nat>, done: set<nat>, n: nat, x: nat)
    requires forall y: nat :: y in todo <==> y < n && y !in done
    requires x < n && x !in done
    ensures forall y: nat :: y in todo - {x} <==> y < n && y !in done + {x}
    ensures |todo - {x}| < |todo|
  {
    assert x in todo;
  }

  // ---------------------------------------------------------------------
  // size: a walk over the whole tree, children queued in any order.

  /** The state of size's walk between two pops: the expanded nodes `done`
      and the queue `q` are disjoint, `q` has no repeats, the walk has
      started at the root, every child of an expanded node is expanded or
      queued, and every node met so far (but the root) was reached from its
      expanded parent. */
  ghost predicate CountState(nodes: seq<Node>, path: seq<string>, index: map<string, nat>, words: set<string>,
                             done: set<nat>, q: seq<nat>)
  {
    && WellFormed(nodes, path, index, words)
    && (forall x :: x in done ==> x < |nodes|)
    && (forall j :: 0 <= j < |q| ==> q[j] < |nodes| && q[j] !in done)
    && (forall j, k :: 0 <= j < k < |q| ==> q[j] != q[k])
    && (0 in done || q == [0])
    && (forall y, c {:trigger nodes[y].children[c]} :: y in done && 0 <= y < |nodes| && c in nodes[y].children ==>
          nodes[y].children[c] in done || nodes[y].children[c] in q)
    && (forall x {:trigger ParentIn(path, index, x, done)} :: x in done && x != 0 ==> ParentIn(path, index, x, done))
    && (forall j :: 0 <= j < |q| && q[j] != 0 ==> ParentIn(path, index, q[j], done))
  }

  /** The state while node x's children are being queued; `keys` are the
      edge characters not yet handled, and their children are neither
      expanded nor queued. */
  ghost predicate CountExpanding(nodes: seq<Node>, path: seq<string>, index: map<string, nat>, words: set<string>,
                                 done: set<nat>, q: seq<nat>, x: nat, keys: set<char>)
  {
    && WellFormed(nodes, path, index, words)
    && x in done && x < |nodes| && 0 in done
    && keys <= nodes[x].children.Keys
    && (forall y :: y in done ==> y < |nodes|)
    && (forall j :: 0 <= j < |q| ==> q[j] < |nodes| && q[j] !in done)
    && (forall j, k :: 0 <= j < k < |q| ==> q[j] != q[k])
    && (forall y, c {:trigger nodes[y].children[c]} :: y in done && 0 <= y < |nodes| && c in nodes[y].children ==>
          nodes[y].children[c] in done || nodes[y].children[c] in q || (y == x && c in keys))
    && (forall c, j :: c in keys && 0 <= j < |q| ==> q[j] != nodes[x].children[c])
    && (forall c :: c in keys ==> nodes[x].children[c] !in done)
    && (forall y {:trigger ParentIn(path, index, y, done)} :: y in done && y != 0 ==> ParentIn(path, index, y, done))
    && (forall j :: 0 <= j < |q| && q[j] != 0 ==> ParentIn(path, index, q[j], done))
  }

  /** A child is never the root, and it is reached from its parent. */
  lemma ChildNotRoot(nodes: seq<Node>, path: seq<string>, index: map<string, nat>, words: set<string>, x: nat, c: char)
    requires WellFormed(nodes, path, index, words)
    requires x < |nodes| && c in nodes[x].children
    ensures nodes[x].children[c] != 0
    ensures ParentIn(path, index, nodes[x].children[c], {x})
  {
    ChildPath(nodes, path, index, words, x, c);
  }

  /** Popping the head of the queue and marking it expanded starts the
      queueing of all its children. */
  lemma CountPop(nodes: seq<Node>, path: seq<string>, index: map<string, nat>, words: set<string>,
                 done: set<nat>, q: seq<nat>)
    requires CountState(nodes, path, index, words, done, q)
    requires q != []
    ensures CountExpanding(nodes, path, index, words, done + {q[0]}, q[1..], q[0], nodes[q[0]].children.Keys)
  {
    var x := q[0];
    var done' := done + {x};
    var rest := q[1..];
    forall y, c | y in done' && 0 <= y < |nodes| && c in nodes[y].children
      ensures nodes[y].children[c] in done' || nodes[y].children[c] in rest || (y == x && c in nodes[x].children.Keys)
    {
      if y != x {
        var ch := nodes[y].children[c];
        if ch !in done && ch != x {
          var j :| 0 <= j < |q| && q[j] == ch;
          assert rest[j - 1] == ch;
        }
      }
    }
    forall c, j | c in nodes[x].children && 0 <= j < |rest|
      ensures rest[j] != nodes[x].children[c]
    {
      ChildNotRoot(nodes, path, index, words, x, c);
      assert q[j + 1] != 0;
      assert ParentIn(path, index, q[j + 1], done);
    }
    forall c | c in nodes[x].children
      ensures nodes[x].children[c] !in done'
    {
      ChildNotRoot(nodes, path, index, words, x, c);
      ChildPath(nodes, path, index, words, x, c);
      var ch := nodes[x].children[c];
      assert ch in done ==> ParentIn(path, index, ch, done);
    }
    forall j | 0 <= j < |rest|
      ensures rest[j] < |nodes| && rest[j] !in done'
      ensures rest[j] != 0 ==> ParentIn(path, index, rest[j], done')
    {
      assert rest[j] == q[j + 1];
      assert q[0] != q[j + 1];
    }
    forall j, k | 0 <= j < k < |rest|
      ensures rest[j] != rest[k]
    {
      assert rest[j] == q[j + 1] && rest[k] == q[k + 1];
    }
    forall y | y in done' && y != 0
      ensures ParentIn(path, index, y, done')
    {
      if y in done {
        assert ParentIn(path, index, y, done);
      } else {
        assert ParentIn(path, index, q[0], done);
      }
    }
  }

  /** Queueing one more child keeps the expansion state. */
  lemma CountPush(nodes: seq<Node>, path: seq<string>, index: map<string, nat>, words: set<string>,
                  done: set<nat>, q: seq<nat>, x: nat, keys: set<char>, c: char)
    requires CountExpanding(nodes, path, index, words, done, q, x, keys)
    requires c in keys
    ensures CountExpanding(nodes, path, index, words, done, q + [nodes[x].children[c]], x, keys - {c})
  {
    var ch := nodes[x].children[c];
    ChildPath(nodes, path, index, words, x, c);
    ChildNotRoot(nodes, path, index, words, x, c);
    forall d | d in keys - {c}
      ensures nodes[x].children[d] != ch
    {
      ChildPath(nodes, path, index, words, x, d);
      assert (path[x] + [d])[|path[x]|] != (path[x] + [c])[|path[x]|];
    }
    var q' := q + [ch];
    forall j | 0 <= j < |q'|
      ensures q'[j] < |nodes| && q'[j] !in done
      ensures q'[j] != 0 ==> ParentIn(path, index, q'[j], done)
    {
      if j < |q| {
        assert q'[j] == q[j];
      }
    }
    forall j, k | 0 <= j < k < |q'|
      ensures q'[j] != q'[k]
    {
      assert q'[j] == q[j];
      if k < |q| {
        assert q'[k] == q[k];
      }
    }
    forall d, j | d in keys - {c} && 0 <= j < |q'|
      ensures q'[j] != nodes[x].children[d]
    {
      if j < |q| {
        assert q'[j] == q[j];
      }
    }
    assert q'[|q|] == ch;
    forall y, d | y in done && 0 <= y < |nodes| && d in nodes[y].children
      ensures nodes[y].children[d] in done || nodes[y].children[d] in q' || (y == x && d in keys - {c})
    {
    }
    forall y | y in done && y != 0
      ensures ParentIn(path, index, y, done)
    {
      assert ParentIn(path, index, y, done);
    }
  }

  /** With every child of the head queued, the walk is back between pops. */
  lemma CountPushed(nodes: seq<Node>, path: seq<string>, index: map<string, nat>, words: set<string>,
                    done: set<nat>, q: seq<nat>, x: nat)
    requires CountExpanding(nodes, path, index, words, done, q, x, {})
    ensures CountState(nodes, path, index, words, done, q)
  {
    forall y, c | y in done && 0 <= y < |nodes| && c in nodes[y].children
      ensures nodes[y].children[c] in done || nodes[y].children[c] in q
    {
    }
  }

  // ---------------------------------------------------------------------
  // predict: a walk over the subtree of the prefix, children queued in
  // ascending order of their edge character.

  /** The nodes held by a queue of (node, prefix) pairs. */
  function QueuedNodes(q: seq<(nat, string)>): set<nat>
  {
    set j | 0 <= j < |q| :: q[j].0
  }

  lemma QueuedNodesPop(q: seq<(nat, string)>)
    requires q != []
    ensures QueuedNodes(q) == {q[0].0} + QueuedNodes(q[1..])
  {
    forall y | y in QueuedNodes(q)
      ensures y in {q[0].0} + QueuedNodes(q[1..])
    {
      var j :| 0 <= j < |q| && q[j].0 == y;
      if j > 0 {
        assert q[1..][j - 1].0 == y;
      }
    }
    forall y | y in QueuedNodes(q[1..])
      ensures y in QueuedNodes(q)
    {
      var j :| 0 <= j < |q[1..]| && q[1..][j].0 == y;
      assert q[j + 1].0 == y;
    }
  }

  lemma QueuedNodesPush(q: seq<(nat, string)>, e: (nat, string))
    ensures QueuedNodes(q + [e]) == QueuedNodes(q) + {e.0}
  {
    forall y | y in QueuedNodes(q + [e])
      ensures y in QueuedNodes(q) + {e.0}
    {
      var j :| 0 <= j < |q + [e]| && (q + [e])[j].0 == y;
      if j < |q| {
        assert q[j].0 == y;
      }
    }
    forall y | y in QueuedNodes(q)
      ensures y in QueuedNodes(q + [e])
    {
      var j :| 0 <= j < |q| && q[j].0 == y;
      assert (q + [e])[j].0 == y;
    }
    assert (q + [e])[|q|].0 == e.0;
  }

  /** The facts a breadth-first prediction walk from the node for `p` keeps:
      `done` holds the expanded nodes and `q` the waiting ones with their
      paths, every marked strict extension among the expanded nodes has
      been listed, and nothing listed comes after a waiting node. */
  ghost predicate WalkState(nodes: seq<Node>, path: seq<string>, index: map<string, nat>, words: set<string>,
                            p: string, done: set<nat>, q: seq<(nat, string)>, predictions: seq<string>)
  {
    && WellFormed(nodes, path, index, words)
    && p in index
    && (forall x :: x in done ==> x < |nodes|)
    && (forall j :: 0 <= j < |q| ==> q[j].0 < |nodes| && path[q[j].0] == q[j].1)
    && (index[p] in done || index[p] in QueuedNodes(q))
    && Closed(nodes, done, QueuedNodes(q))
    && (forall x :: x in done && nodes[x].endOfWord && p < path[x] ==> path[x] in predictions)
    && StrictlyIncreasing(predictions)
    && (forall i :: 0 <= i < |predictions| ==> predictions[i] in Extensions(words, p))
    && (forall i, j :: 0 <= i < |predictions| && 0 <= j < |q| ==> NotAfter(predictions[i], q[j].1))
  }

  /** Every strict extension that has not been listed comes after every
      one that has. */
  lemma UnlistedComeLater(nodes: seq<Node>, path: seq<string>, index: map<string, nat>, words: set<string>,
                          p: string, done: set<nat>, q: seq<(nat, string)>, predictions: seq<string>)
    requires WalkState(nodes, path, index, words, p, done, q, predictions)
    ensures forall w, i :: w in Extensions(words, p) && w !in predictions && 0 <= i < |predictions| ==>
              Before(predictions[i], w)
  {
    var queued := QueuedNodes(q);
    forall w, i | w in Extensions(words, p) && w !in predictions && 0 <= i < |predictions|
      ensures Before(predictions[i], w)
    {
      var x := index[w];
      assert path[x] == w;
      Reachable(nodes, path, index, words, done, queued, index[p], x);
      var y :| y in queued && y < |path| && path[y] <= path[x];
      var j :| 0 <= j < |q| && q[j].0 == y;
      assert NotAfter(predictions[i], q[j].1);
      if q[j].1 != w {
        assert |q[j].1| < |w|;
      }
    }
  }

  /** Once the queue is empty every strict extension has been listed. */
  lemma ExhaustedListsAll(nodes: seq<Node>, path: seq<string>, index: map<string, nat>, words: set<string>,
                          p: string, done: set<nat>, predictions: seq<string>)
    requires WalkState(nodes, path, index, words, p, done, [], predictions)
    ensures (set x | x in predictions) == Extensions(words, p)
  {
    forall w | w in Extensions(words, p)
      ensures w in predictions
    {
      var x := index[w];
      assert path[x] == w;
      if x !in done {
        Reachable(nodes, path, index, words, done, {}, index[p], x);
      }
    }
  }

  /** When the walk stops, because the queue is empty or `k` words have
      been listed, the list is the first min(k, n) stored strict extensions
      of `p` in shortlex order. */
  lemma PredictionsComplete(nodes: seq<Node>, path: seq<string>, index: map<string, nat>, words: set<string>,
                            p: string, done: set<nat>, q: seq<(nat, string)>, predictions: seq<string>, k: nat)
    requires WalkState(nodes, path, index, words, p, done, q, predictions)
    requires |predictions| <= k
    requires q == [] || |predictions| == k
    ensures FirstInOrder(predictions, Extensions(words, p), k)
  {
    var e := Extensions(words, p);
    assert (set x | x in predictions) <= e;
    IncreasingCard(predictions);
    SubsetCard((set x | x in predictions), e);
    UnlistedComeLater(nodes, path, index, words, p, done, q, predictions);
    if q == [] {
      ExhaustedListsAll(nodes, path, index, words, p, done, predictions);
    }
  }

  /** The part of predict's walk that every step keeps as it is: the tree
      is well formed, `start` is the node of the prefix `p`, and the
      expanded nodes are nodes of the tree. */
  ghost predicate WalkFrame(nodes: seq<Node>, path: seq<string>, index: map<string, nat>, words: set<string>,
                            p: string, start: nat, done: set<nat>)
  {
    && WellFormed(nodes, path, index, words)
    && p in index && start == index[p]
    && (forall y :: y in done ==> y < |nodes|)
  }

  /** The queue of predict's walk: each entry pairs a node with its path,
      which extends the prefix; the paths strictly increase in shortlex
      order; no queued node is expanded, and each one but the prefix's own
      node hangs below an expanded node; every expanded path comes before
      every queued one. */
  ghost predicate QueueShape(nodes: seq<Node>, path: seq<string>, index: map<string, nat>,
                             p: string, start: nat, done: set<nat>, q: seq<(nat, string)>)
    requires |path| == |nodes|
    requires forall y :: y in done ==> y < |nodes|
  {
    && (forall j :: 0 <= j < |q| ==> q[j].0 < |nodes| && path[q[j].0] == q[j].1 && p <= q[j].1 && q[j].0 !in done)
    && (forall j :: 0 <= j < |q| && q[j].0 != start ==> ParentIn(path, index, q[j].0, done))
    && (forall i, j :: 0 <= i < j < |q| ==> Before(q[i].1, q[j].1))
    && (forall y, j :: y in done && 0 <= j < |q| ==> Before(path[y], q[j].1))
  }

  /** The list of predict's walk: every marked strict extension of `p` among
      the expanded nodes is on it, it strictly increases, it holds only
      strict extensions of `p`, and it comes before everything queued. */
  ghost predicate Listing(nodes: seq<Node>, path: seq<string>, words: set<string>,
                          p: string, done: set<nat>, q: seq<(nat, string)>, predictions: seq<string>)
    requires |path| == |nodes|
    requires forall y :: y in done ==> y < |nodes|
  {
    && (forall y :: y in done && nodes[y].endOfWord && p < path[y] ==> path[y] in predictions)
    && StrictlyIncreasing(predictions)
    && (forall i :: 0 <= i < |predictions| ==> predictions[i] in Extensions(words, p))
    && (forall i, j :: 0 <= i < |predictions| && 0 <= j < |q| ==> Before(predictions[i], q[j].1))
  }

  /** predict's walk between two pops. Either nothing is expanded yet and
      the prefix's node is alone in the queue, or the prefix's node is
      expanded; every child of an expanded node is expanded or queued. */
  ghost predicate PredictState(nodes: seq<Node>, path: seq<string>, index: map<string, nat>, words: set<string>,
                               p: string, start: nat, done: set<nat>, q: seq<(nat, string)>, predictions: seq<string>)
  {
    && WalkFrame(nodes, path, index, words, p, start, done)
    && QueueShape(nodes, path, index, p, start, done, q)
    && Listing(nodes, path, words, p, done, q, predictions)
    && (start in done || q == [(start, p)])
    && Closed(nodes, done, QueuedNodes(q))
  }

  /** The node x being expanded: it was the head, so its path extends the
      prefix and is at least as long as every expanded path; `cs` lists its
      edge characters in ascending order. */
  ghost predicate ExpandHead(nodes: seq<Node>, path: seq<string>, p: string, done: set<nat>, x: nat, cs: seq<char>)
    requires |path| == |nodes|
  {
    && x in done && x < |nodes| && p <= path[x]
    && (forall i, j :: 0 <= i < j < |cs| ==> cs[i] < cs[j])
    && (forall c :: c in nodes[x].children <==> c in cs)
    && (forall y :: y in done && y < |path| ==> |path[y]| <= |path[x]|)
  }

  /** Every queued path comes before the paths of the children of x still
      to be queued, those for cs[m..]. */
  ghost predicate Pending(path: seq<string>, q: seq<(nat, string)>, x: nat, cs: seq<char>, m: nat)
    requires x < |path|
  {
    m <= |cs| && forall j, k :: 0 <= j < |q| && m <= k < |cs| ==> Before(q[j].1, path[x] + [cs[k]])
  }

  /** Every child of an expanded node is expanded or queued, except the
      children of x still to be queued. */
  ghost predicate ExpandClosed(nodes: seq<Node>, done: set<nat>, q: seq<(nat, string)>, x: nat, cs: seq<char>, m: nat)
    requires m <= |cs|
  {
    forall y, c {:trigger nodes[y].children[c]} :: y in done && 0 <= y < |nodes| && c in nodes[y].children ==>
      nodes[y].children[c] in done || nodes[y].children[c] in QueuedNodes(q) || (y == x && c in cs[m..])
  }

  /** predict's walk while the children of the popped node x are queued in
      ascending order of their edge characters; cs[m..] are still to go. */
  ghost predicate PredictExpanding(nodes: seq<Node>, path: seq<string>, index: map<string, nat>, words: set<string>,
                                   p: string, start: nat, done: set<nat>, q: seq<(nat, string)>, predictions: seq<string>,
                                   x: nat, cs: seq<char>, m: nat)
  {
    && WalkFrame(nodes, path, index, words, p, start, done)
    && QueueShape(nodes, path, index, p, start, done, q)
    && Listing(nodes, path, words, p, done, q, predictions)
    && start in done
    && ExpandHead(nodes, path, p, done, x, cs)
    && Pending(path, q, x, cs, m)
    && ExpandClosed(nodes, done, q, x, cs, m)
    && (forall i :: 0 <= i < |predictions| ==> |predictions[i]| <= |path[x]|)
  }

  /** What popping the head (x, s) does to the list: s is appended when x
      is marked and s is longer than the prefix. */
  function Visit(nodes: seq<Node>, p: string, head: (nat, string), predictions: seq<string>): seq<string>
    requires head.0 < |nodes|
  {
    if nodes[head.0].endOfWord && |head.1| > |p| then predictions + [head.1] else predictions
  }

  /** The walk starts with the prefix's node alone in the queue. */
  lemma PredictBegin(nodes: seq<Node>, path: seq<string>, index: map<string, nat>, words: set<string>, p: string)
    requires WellFormed(nodes, path, index, words)
    requires p in index
    ensures PredictState(nodes, path, index, words, p, index[p], {}, [(index[p], p)], [])
  {
    var q := [(index[p], p)];
    assert q[0].0 in QueuedNodes(q);
  }

  /** Between two pops the walk is in the state that PredictionsComplete
      reads. */
  lemma PredictWalk(nodes: seq<Node>, path: seq<string>, index: map<string, nat>, words: set<string>,
                    p: string, start: nat, done: set<nat>, q: seq<(nat, string)>, predictions: seq<string>)
    requires PredictState(nodes, path, index, words, p, start, done, q, predictions)
    ensures WalkState(nodes, path, index, words, p, done, q, predictions)
  {
    if start !in done {
      assert q[0].0 in QueuedNodes(q);
    }
  }

  /** Listing the popped head keeps the list strictly increasing, drawn
      from the extensions of the prefix, and no later than the queue it was
      popped from: the facts needed to stop right after it. */
  lemma PredictListed(nodes: seq<Node>, path: seq<string>, index: map<string, nat>, words: set<string>,
                      p: string, start: nat, done: set<nat>, q: seq<(nat, string)>, predictions: seq<string>)
    requires PredictState(nodes, path, index, words, p, start, done, q, predictions)
    requires q != []
    ensures WalkState(nodes, path, index, words, p, done, q, Visit(nodes, p, q[0], predictions))
  {
    PredictWalk(nodes, path, index, words, p, start, done, q, predictions);
    var s := q[0].1;
    var r := Visit(nodes, p, q[0], predictions);
    if r != predictions {
      assert s in words;
      assert p < s;
      forall i, j | 0 <= i < |r| && 0 <= j < |q|
        ensures NotAfter(r[i], q[j].1)
      {
        if i == |predictions| && j > 0 {
          assert Before(q[0].1, q[j].1);
        }
      }
    }
  }

  /** A path queued after the head s is either as long as s or, one
      character longer, hangs below a path that comes before s; either way
      it comes before every child of s. */
  lemma QueuedBeforeChild(s: string, t: string, c: char)
    requires Before(s, t)
    requires |t| > |s| ==> Before(Parent(t), s)
    ensures Before(t, s + [c])
  {
    if |t| > |s| {
      assert t == Parent(t) + [t[|t| - 1]];
      BeforeExtend(Parent(t), s, t[|t| - 1], c);
    }
  }

  lemma PopHead(nodes: seq<Node>, path: seq<string>, index: map<string, nat>, words: set<string>,
                p: string, start: nat, done: set<nat>, q: seq<(nat, string)>, predictions: seq<string>,
                cs: seq<char>)
    requires PredictState(nodes, path, index, words, p, start, done, q, predictions)
    requires q != []
    requires forall i, j :: 0 <= i < j < |cs| ==> cs[i] < cs[j]
    requires forall c :: c in nodes[q[0].0].children <==> c in cs
    ensures ExpandHead(nodes, path, p, done + {q[0].0}, q[0].0, cs)
  {
    var x := q[0].0;
    forall y | y in done + {x} && y < |path|
      ensures |path[y]| <= |path[x]|
    {
      if y != x {
        assert Before(path[y], q[0].1);
      }
    }
  }

  lemma PopShape(nodes: seq<Node>, path: seq<string>, index: map<string, nat>, words: set<string>,
                 p: string, start: nat, done: set<nat>, q: seq<(nat, string)>, predictions: seq<string>)
    requires PredictState(nodes, path, index, words, p, start, done, q, predictions)
    requires q != []
    ensures forall y :: y in done + {q[0].0} ==> y < |nodes|
    ensures QueueShape(nodes, path, index, p, start, done + {q[0].0}, q[1..])
  {
    var x := q[0].0;
    var done' := done + {x};
    var rest := q[1..];
    forall j | 0 <= j < |rest|
      ensures rest[j].0 !in done'
      ensures rest[j].0 != start ==> ParentIn(path, index, rest[j].0, done')
    {
      assert rest[j] == q[j + 1];
      assert Before(q[0].1, rest[j].1);
      BeforeIrreflexive(q[0].1);
    }
    forall y, j | y in done' && 0 <= j < |rest|
      ensures Before(path[y], rest[j].1)
    {
      assert rest[j] == q[j + 1];
      assert Before(q[0].1, q[j + 1].1);
    }
  }

  lemma PopListing(nodes: seq<Node>, path: seq<string>, words: set<string>,
                   p: string, done: set<nat>, q: seq<(nat, string)>, predictions: seq<string>)
    requires |path| == |nodes|
    requires forall y :: y in done ==> y < |nodes|
    requires forall i :: 0 <= i < |nodes| ==> (nodes[i].endOfWord <==> path[i] in words)
    requires q != [] && q[0].0 < |nodes| && path[q[0].0] == q[0].1 && p <= q[0].1
    requires forall j :: 0 < j < |q| ==> Before(q[0].1, q[j].1)
    requires Listing(nodes, path, words, p, done, q, predictions)
    ensures forall y :: y in done + {q[0].0} ==> y < |nodes|
    ensures Listing(nodes, path, words, p, done + {q[0].0}, q[1..], Visit(nodes, p, q[0], predictions))
    ensures forall i :: 0 <= i < |Visit(nodes, p, q[0], predictions)| ==>
              |Visit(nodes, p, q[0], predictions)[i]| <= |path[q[0].0]|
  {
    var x := q[0].0;
    var s := q[0].1;
    var rest := q[1..];
    var r := Visit(nodes, p, q[0], predictions);
    if r != predictions {
      assert s in words && p < s;
      assert r[|predictions|] == s;
    }
    forall i | 0 <= i < |r|
      ensures |r[i]| <= |path[x]|
    {
      if i < |predictions| {
        assert Before(predictions[i], q[0].1);
      }
    }
    forall i, j | 0 <= i < |r| && 0 <= j < |rest|
      ensures Before(r[i], rest[j].1)
    {
      assert rest[j] == q[j + 1];
      if i < |predictions| {
        assert Before(predictions[i], q[j + 1].1);
      } else {
        assert Before(q[0].1, q[j + 1].1);
      }
    }
  }

  lemma PopPending(nodes: seq<Node>, path: seq<string>, index: map<string, nat>,
                   p: string, start: nat, done: set<nat>, q: seq<(nat, string)>, cs: seq<char>)
    requires |path| == |nodes|
    requires forall s :: s in index ==> index[s] < |path| && path[index[s]] == s
    requires forall y :: y in done ==> y < |nodes|
    requires q != []
    requires QueueShape(nodes, path, index, p, start, done, q)
    requires start in done || q == [(start, p)]
    ensures q[0].0 < |path|
    ensures Pending(path, q[1..], q[0].0, cs, 0)
  {
    var rest := q[1..];
    var s := q[0].1;
    forall j, k | 0 <= j < |rest| && 0 <= k < |cs|
      ensures Before(rest[j].1, path[q[0].0] + [cs[k]])
    {
      var t := q[j + 1].1;
      assert rest[j] == q[j + 1];
      assert Before(s, t);
      if |t| > |s| {
        assert start in done;
        assert Before(path[start], t);
        BeforeIrreflexive(t);
        assert ParentIn(path, index, q[j + 1].0, done);
        assert Before(path[index[Parent(t)]], s);
      }
      QueuedBeforeChild(s, t, cs[k]);
    }
  }

  lemma PopClosed(nodes: seq<Node>, path: seq<string>, index: map<string, nat>, words: set<string>,
                  p: string, start: nat, done: set<nat>, q: seq<(nat, string)>, predictions: seq<string>,
                  cs: seq<char>)
    requires PredictState(nodes, path, index, words, p, start, done, q, predictions)
    requires q != []
    requires forall c :: c in nodes[q[0].0].children <==> c in cs
    ensures ExpandClosed(nodes, done + {q[0].0}, q[1..], q[0].0, cs, 0)
  {
    QueuedNodesPop(q);
  }

  /** Popping the head and marking it expanded starts the queueing of its
      children in ascending order. */
  lemma PredictPop(nodes: seq<Node>, path: seq<string>, index: map<string, nat>, words: set<string>,
                   p: string, start: nat, done: set<nat>, q: seq<(nat, string)>, predictions: seq<string>,
                   cs: seq<char>)
    requires PredictState(nodes, path, index, words, p, start, done, q, predictions)
    requires q != []
    requires forall i, j :: 0 <= i < j < |cs| ==> cs[i] < cs[j]
    requires forall c :: c in nodes[q[0].0].children <==> c in cs
    ensures PredictExpanding(nodes, path, index, words, p, start, done + {q[0].0}, q[1..],
                             Visit(nodes, p, q[0], predictions), q[0].0, cs, 0)
  {
    PopHead(nodes, path, index, words, p, start, done, q, predictions, cs);
    PopShape(nodes, path, index, words, p, start, done, q, predictions);
    PopListing(nodes, path, words, p, done, q, predictions);
    PopPending(nodes, path, index, p, start, done, q, cs);
    PopClosed(nodes, path, index, words, p, start, done, q, predictions, cs);
  }

  /** The child for cs[m], paired with its path, may join the queue: it
      is new, it hangs below x, and its path comes after everything queued
      or expanded. */
  lemma PushShape(nodes: seq<Node>, path: seq<string>, index: map<string, nat>, words: set<string>,
                  p: string, start: nat, done: set<nat>, q: seq<(nat, string)>, x: nat, cs: seq<char>, m: nat)
    requires WellFormed(nodes, path, index, words)
    requires forall y :: y in done ==> y < |nodes|
    requires QueueShape(nodes, path, index, p, start, done, q)
    requires ExpandHead(nodes, path, p, done, x, cs)
    requires Pending(path, q, x, cs, m) && m < |cs|
    ensures cs[m] in nodes[x].children
    ensures QueueShape(nodes, path, index, p, start, done, q + [(nodes[x].children[cs[m]], path[x] + [cs[m]])])
  {
    var c := cs[m];
    assert c in nodes[x].children;
    ChildPath(nodes, path, index, words, x, c);
    var e := (nodes[x].children[c], path[x] + [c]);
    assert Parent(path[e.0]) == path[x];
    assert ParentIn(path, index, e.0, done);
    assert |path[e.0]| > |path[x]|;
    assert e.0 !in done;
    var q' := q + [e];
    forall j | 0 <= j < |q'|
      ensures q'[j].0 < |nodes| && path[q'[j].0] == q'[j].1 && p <= q'[j].1 && q'[j].0 !in done
      ensures q'[j].0 != start ==> ParentIn(path, index, q'[j].0, done)
    {
      if j < |q| {
        assert q'[j] == q[j];
      }
    }
    forall i, j | 0 <= i < j < |q'|
      ensures Before(q'[i].1, q'[j].1)
    {
      if j == |q| {
        assert Before(q[i].1, path[x] + [cs[m]]);
      } else {
        assert q'[i] == q[i] && q'[j] == q[j];
      }
    }
    forall y, j | y in done && 0 <= j < |q'|
      ensures Before(path[y], q'[j].1)
    {
      if j < |q| {
        assert q'[j] == q[j];
      }
    }
  }

  lemma PushPending(path: seq<string>, q: seq<(nat, string)>, x: nat, cs: seq<char>, m: nat, child: nat)
    requires x < |path|
    requires Pending(path, q, x, cs, m) && m < |cs|
    requires forall i, j :: 0 <= i < j < |cs| ==> cs[i] < cs[j]
    ensures Pending(path, q + [(child, path[x] + [cs[m]])], x, cs, m + 1)
  {
    forall k | m + 1 <= k < |cs|
      ensures Before(path[x] + [cs[m]], path[x] + [cs[k]])
    {
      BeforeSiblings(path[x], cs[m], cs[k]);
    }
  }

  lemma PushClosed(nodes: seq<Node>, done: set<nat>, q: seq<(nat, string)>, x: nat, cs: seq<char>, m: nat)
    requires m < |cs|
    requires x < |nodes| && cs[m] in nodes[x].children
    requires ExpandClosed(nodes, done, q, x, cs, m)
    ensures forall s :: ExpandClosed(nodes, done, q + [(nodes[x].children[cs[m]], s)], x, cs, m + 1)
  {
    forall s: string
      ensures ExpandClosed(nodes, done, q + [(nodes[x].children[cs[m]], s)], x, cs, m + 1)
    {
      var c := cs[m];
      var q' := q + [(nodes[x].children[c], s)];
      QueuedNodesPush(q, (nodes[x].children[c], s));
      forall y, d | y in done && 0 <= y < |nodes| && d in nodes[y].children
        ensures nodes[y].children[d] in done || nodes[y].children[d] in QueuedNodes(q') || (y == x && d in cs[m + 1..])
      {
        if y == x && d in cs[m..] && d != c {
          var k :| m <= k < |cs| && cs[k] == d;
          assert cs[m + 1..][k - m - 1] == d;
        }
      }
    }
  }

  lemma PushListing(nodes: seq<Node>, path: seq<string>, words: set<string>,
                    p: string, done: set<nat>, q: seq<(nat, string)>, predictions: seq<string>, x: nat, e: (nat, string))
    requires |path| == |nodes| && x < |path|
    requires forall y :: y in done ==> y < |nodes|
    requires Listing(nodes, path, words, p, done, q, predictions)
    requires forall i :: 0 <= i < |predictions| ==> |predictions[i]| <= |path[x]|
    requires |e.1| == |path[x]| + 1
    ensures Listing(nodes, path, words, p, done, q + [e], predictions)
  {
  }

  /** Queueing the child for cs[m] keeps the expansion state. */
  lemma PredictPush(nodes: seq<Node>, path: seq<string>, index: map<string, nat>, words: set<string>,
                    p: string, start: nat, done: set<nat>, q: seq<(nat, string)>, predictions: seq<string>,
                    x: nat, cs: seq<char>, m: nat)
    requires PredictExpanding(nodes, path, index, words, p, start, done, q, predictions, x, cs, m)
    requires m < |cs|
    ensures cs[m] in nodes[x].children && nodes[x].children[cs[m]] < |nodes|
    ensures PredictExpanding(nodes, path, index, words, p, start, done,
                             q + [(nodes[x].children[cs[m]], path[x] + [cs[m]])], predictions, x, cs, m + 1)
  {
    var e := (nodes[x].children[cs[m]], path[x] + [cs[m]]);
    ChildPath(nodes, path, index, words, x, cs[m]);
    PushShape(nodes, path, index, words, p, start, done, q, x, cs, m);
    PushPending(path, q, x, cs, m, e.0);
    PushClosed(nodes, done, q, x, cs, m);
    assert ExpandClosed(nodes, done, q + [(e.0, e.1)], x, cs, m + 1);
    PushListing(nodes, path, words, p, done, q, predictions, x, e);
  }

  /** With every child of the head queued, the walk is back between pops. */
  lemma PredictPushed(nodes: seq<Node>, path: seq<string>, index: map<string, nat>, words: set<string>,
                      p: string, start: nat, done: set<nat>, q: seq<(nat, string)>, predictions: seq<string>,
                      x: nat, cs: seq<char>)
    requires PredictExpanding(nodes, path, index, words, p, start, done, q, predictions, x, cs, |cs|)
    ensures PredictState(nodes, path, index, words, p, start, done, q, predictions)
  {
    assert cs[|cs|..] == [];
    forall y, c | y in done && 0 <= y < |nodes| && c in nodes[y].children
      ensures nodes[y].children[c] in done || nodes[y].children[c] in QueuedNodes(q)
    {
      assert c !in cs[|cs|..];
    }
  }

  /** What FirstInOrder promises about an answer of predict, spelled out: at
      most k words, each a stored word that starts with the prefix and is
      longer than it, no repeats, lengths never decreasing, words of equal
      length in ascending alphabetical order; nothing when k is 0 or no
      stored word extends the prefix. */
  lemma AnswerFacts(r: seq<string>, words: set<string>, p: string, k: nat)
    requires FirstInOrder(r, Extensions(words, p), k)
    ensures |r| <= k
    ensures k == 0 || Extensions(words, p) == {} ==> r == []
    ensures forall i :: 0 <= i < |r| ==> r[i] in words && p < r[i] && |r[i]| > |p|
    ensures forall i, j :: 0 <= i < j < |r| ==> r[i] != r[j] && |r[i]| <= |r[j]|
    ensures forall i, j :: 0 <= i < j < |r| && |r[i]| == |r[j]| ==> LexLess(r[i], r[j])
  {
    forall i, j | 0 <= i < j < |r|
      ensures r[i] != r[j]
    {
      BeforeIrreflexive(r[i]);
      assert Before(r[i], r[j]);
    }
  }

  /** When at most k stored words extend the prefix, the answer lists every
      one of them. */
  lemma AnswerListsAllWhenFew(r: seq<string>, words: set<string>, p: string, k: nat)
    requires FirstInOrder(r, Extensions(words, p), k)
    requires |Extensions(words, p)| <= k
    ensures (set x | x in r) == Extensions(words, p)
  {
    var e := Extensions(words, p);
    var listed := set x | x in r;
    IncreasingCard(r);
    SubsetEqual(listed, e);
  }

  lemma SubsetEqual(a: set<string>, b: set<string>)
    requires a <= b && |a| == |b|
    ensures a == b
  {
    assert b * a == a;
    assert |b - a| == 0;
    assert b - a == {};
  }
}
