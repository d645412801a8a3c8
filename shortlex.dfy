/** The order in which `predict` hands back its completions: shorter words
    first and, among words of the same length, ascending lexicographic order.
    The module also states what "the first k members of a set in that order"
    means and proves that this description fixes the answer. */
module ShortLex {

  /** Strict lexicographic order: `a` is below `b` at the first position
      where they differ. */
  predicate LexLess(a: string, b: string)
    decreases |a|
  {
    |a| > 0 && |b| > 0 && (a[0] < b[0] || (a[0] == b[0] && LexLess(a[1..], b[1..])))
  }

  /** Shortlex order: length first, then lexicographic. */
  predicate Before(a: string, b: string)
  {
    |a| < |b| || (|a| == |b| && LexLess(a, b))
  }

  predicate NotAfter(a: string, b: string)
  {
    a == b || Before(a, b)
  }

  predicate StrictlyIncreasing(s: seq<string>)
  {
    forall i, j :: 0 <= i < j < |s| ==> Before(s[i], s[j])
  }

  /** `r` lists the first min(k, |e|) members of `e` in shortlex order:
      the right length, in strictly increasing order, drawn from `e`, and
      every member of `e` that is left out comes after every one listed. */
  ghost predicate FirstInOrder(r: seq<string>, e: set<string>, k: nat)
  {
    && |r| == (if k < |e| then k else |e|)
    && StrictlyIncreasing(r)
    && (forall i :: 0 <= i < |r| ==> r[i] in e)
    && (forall w, i :: w in e && w !in r && 0 <= i < |r| ==> Before(r[i], w))
  }

  lemma {:induction false} LexIrreflexive(a: string)
    ensures !LexLess(a, a)
  {
    if |a| > 0 {
      LexIrreflexive(a[1..]);
    }
  }

  lemma {:induction false} LexTransitive(a: string, b: string, c: string)
    requires LexLess(a, b) && LexLess(b, c)
    ensures LexLess(a, c)
  {
    if a[0] == b[0] && b[0] == c[0] {
      LexTransitive(a[1..], b[1..], c[1..]);
    }
  }

  lemma {:induction false} LexTotal(a: string, b: string)
    requires |a| == |b| && a != b
    ensures LexLess(a, b) || LexLess(b, a)
  {
    if a[0] == b[0] {
      assert a == [a[0]] + a[1..] && b == [b[0]] + b[1..];
      LexTotal(a[1..], b[1..]);
    }
  }

  /** Appending anything to both sides keeps a lexicographic difference. */
  lemma {:induction false} LexAppend(a: string, b: string, x: string, y: string)
    requires LexLess(a, b)
    ensures LexLess(a + x, b + y)
  {
    assert (a + x)[0] == a[0] && (b + y)[0] == b[0];
    if a[0] == b[0] {
      assert (a + x)[1..] == a[1..] + x;
      assert (b + y)[1..] == b[1..] + y;
      LexAppend(a[1..], b[1..], x, y);
    }
  }

  /** Two children of one node compare as their edge characters do. */
  lemma {:induction false} LexSiblings(s: string, c: char, d: char)
    requires c < d
    ensures LexLess(s + [c], s + [d])
  {
    if |s| > 0 {
      assert (s + [c])[1..] == s[1..] + [c];
      assert (s + [d])[1..] == s[1..] + [d];
      LexSiblings(s[1..], c, d);
    }
  }

  lemma BeforeIrreflexive(a: string)
    ensures !Before(a, a)
  {
    LexIrreflexive(a);
  }

  lemma BeforeTransitive(a: string, b: string, c: string)
    requires Before(a, b) && Before(b, c)
    ensures Before(a, c)
  {
    if |a| == |b| == |c| {
      LexTransitive(a, b, c);
    }
  }

  lemma BeforeTotal(a: string, b: string)
    requires a != b
    ensures Before(a, b) || Before(b, a)
  {
    if |a| == |b| {
      LexTotal(a, b);
    }
  }

  /** Extending two nodes' paths by one edge each keeps their order: the
      children of an earlier node come before the children of a later one. */
  lemma BeforeExtend(a: string, b: string, x: char, y: char)
    requires Before(a, b)
    ensures Before(a + [x], b + [y])
  {
    if |a| == |b| {
      LexAppend(a, b, [x], [y]);
    }
  }

  lemma BeforeSiblings(s: string, c: char, d: char)
    requires c < d
    ensures Before(s + [c], s + [d])
  {
    LexSiblings(s, c, d);
  }

  /** A strictly increasing list has no repeats, so it has as many distinct
      members as entries. */
  lemma {:induction false} IncreasingCard(s: seq<string>)
    requires StrictlyIncreasing(s)
    ensures |set x | x in s| == |s|
  {
    if |s| > 0 {
      var t := s[..|s| - 1];
      var last := s[|s| - 1];
      IncreasingCard(t);
      assert (set x | x in s) == (set x | x in t) + {last};
      if last in t {
        var j :| 0 <= j < |t| && t[j] == last;
        assert Before(s[j], s[|s| - 1]);
        BeforeIrreflexive(last);
      }
    }
  }

  lemma {:induction false} SubsetCard(a: set<string>, b: set<string>)
    requires a <= b
    ensures |a| <= |b|
  {
    if a != {} {
      var x :| x in a;
      SubsetCard(a - {x}, b - {x});
    }
  }

  /** An entry of one answer cannot come strictly before the entry of the
      other answer at the first position where they could differ. */
  lemma NotBelow(r1: seq<string>, r2: seq<string>, e: set<string>, k: nat, i: nat)
    requires FirstInOrder(r1, e, k) && FirstInOrder(r2, e, k)
    requires i < |r1|
    requires forall j :: 0 <= j < i ==> r1[j] == r2[j]
    ensures !Before(r1[i], r2[i])
  {
    var x := r1[i];
    if Before(x, r2[i]) {
      if x in r2 {
        var j :| 0 <= j < |r2| && r2[j] == x;
        if j < i {
          assert Before(r1[j], r1[i]);
          BeforeIrreflexive(x);
        } else if j == i {
          BeforeIrreflexive(x);
        } else {
          assert Before(r2[i], r2[j]);
          BeforeTransitive(x, r2[i], x);
          BeforeIrreflexive(x);
        }
      } else {
        assert Before(r2[i], x);
        BeforeTransitive(x, r2[i], x);
        BeforeIrreflexive(x);
      }
    }
  }

  lemma {:induction false} AgreeBelow(r1: seq<string>, r2: seq<string>, e: set<string>, k: nat, n: nat)
    requires FirstInOrder(r1, e, k) && FirstInOrder(r2, e, k)
    requires n <= |r1|
    ensures forall j :: 0 <= j < n ==> r1[j] == r2[j]
  {
    if n > 0 {
      AgreeBelow(r1, r2, e, k, n - 1);
      NotBelow(r1, r2, e, k, n - 1);
      NotBelow(r2, r1, e, k, n - 1);
      if r1[n - 1] != r2[n - 1] {
        BeforeTotal(r1[n - 1], r2[n - 1]);
      }
    }
  }

  /** The description of `predict`'s answer leaves no freedom: two lists
      that both satisfy it are the same list. */
  lemma FirstInOrderUnique(r1: seq<string>, r2: seq<string>, e: set<string>, k: nat)
    requires FirstInOrder(r1, e, k) && FirstInOrder(r2, e, k)
    ensures r1 == r2
  {
    AgreeBelow(r1, r2, e, k, |r1|);
  }
}
