/** The demo program's two trees, replayed against the model, and two
    client-side consequences of the contracts of add, find and size. */
module Scenarios {
  import opened Normalization
  import opened ShortLex
  import opened TrieShape
  import opened Walks
  import opened WordTrees

  /** A fresh tree after adding four words that are already lowercase
      letters. */
  method TreeOf(a: string, b: string, c: string, d: string) returns (tree: WordTree)
    requires IsLowerWord(a) && IsLowerWord(b) && IsLowerWord(c) && IsLowerWord(d)
    ensures fresh(tree) && tree.Valid()
    ensures tree.Words == {a, b, c, d}
  {
    LoweredKeepsLowerWords(a);
    LoweredKeepsLowerWords(b);
    LoweredKeepsLowerWords(c);
    LoweredKeepsLowerWords(d);
    tree := new WordTree();
    tree.Add(a);
    assert tree.Words == {a};
    tree.Add(b);
    assert tree.Words == {a, b};
    tree.Add(c);
    assert tree.Words == {a, b, c};
    tree.Add(d);
  }

  /** The first demo tree holds "tree", "three", "free" and "pizza":
      "pizza" is found, the size is 4, and the first two completions of "t"
      are "tree" and then "three". One probe the demo does not make: "tre",
      a path of the tree that is not a stored word, is not found. */
  method FourWords() returns (pizza: bool, tre: bool, count: nat, completions: seq<string>)
    ensures pizza && !tre && count == 4
    ensures completions == ["tree", "three"]
  {
    var tree := TreeOf("tree", "three", "free", "pizza");
    FourWordsFacts(tree.Words);
    pizza := tree.Find("pizza");
    tre := tree.Find("tre");
    count := tree.Size();
    completions := tree.Predict("t", 2);
    FirstInOrderUnique(completions, ["tree", "three"], Extensions(tree.Words, "t"), 2);
  }

  lemma FourWordsFacts(words: set<string>)
    requires words == {"tree", "three", "free", "pizza"}
    ensures Lowered("pizza") in words && Lowered("tre") !in words && |words| == 4
    ensures IsLowerWord(Lowered("t")) && Lowered("t") == "t"
    ensures FirstInOrder(["tree", "three"], Extensions(words, "t"), 2)
  {
    LoweredKeepsLowerWords("pizza");
    LoweredKeepsLowerWords("tre");
    LoweredKeepsLowerWords("t");
    assert "t" < "tree" && "t" < "three";
    assert "free"[0] != 't' && "pizza"[0] != 't';
    assert Extensions(words, "t") == {"tree", "three"};
  }

  /** The second demo tree: of "acknowledging", "acorn", "acorns" and
      "acoustic", only "acorns" strictly extends "acorn", so asking for two
      completions gives that one word. */
  method AcornCompletions() returns (completions: seq<string>)
    ensures completions == ["acorns"]
  {
    var wordTree := TreeOf("acknowledging", "acorn", "acorns", "acoustic");
    AcornFacts(wordTree.Words);
    completions := wordTree.Predict("acorn", 2);
    FirstInOrderUnique(completions, ["acorns"], Extensions(wordTree.Words, "acorn"), 2);
  }

  lemma AcornFacts(words: set<string>)
    requires words == {"acknowledging", "acorn", "acorns", "acoustic"}
    ensures IsLowerWord(Lowered("acorn")) && Lowered("acorn") == "acorn"
    ensures FirstInOrder(["acorns"], Extensions(words, "acorn"), 2)
  {
    LoweredKeepsLowerWords("acorn");
    assert "acknowledging"[2] != "acorn"[2];
    assert "acoustic"[3] != "acorn"[3];
    assert "acorn" < "acorns";
    assert Extensions(words, "acorn") == {"acorns"};
  }

  /** After a word is added, every spelling that lowercases to the same
      string is found, its lowercase form is found as it is, and so is every
      word found before. */
  method AddThenFind(t: WordTree, word: string, other: string, earlier: string)
      returns (found: bool, foundNormal: bool, stillFound: bool)
    requires t.Valid()
    requires IsLowerWord(Lowered(word)) && Lowered(other) == Lowered(word)
    requires Lowered(earlier) in t.Words
    modifies t
    ensures t.Valid()
    ensures found && foundNormal && stillFound
  {
    t.Add(word);
    found := t.Find(other);
    LoweredIdempotent(word);
    foundNormal := t.Find(Lowered(word));
    stillFound := t.Find(earlier);
  }

  /** A fresh tree holds no words: its size is 0 and nothing is found. */
  method FreshTree(probe: string) returns (count: nat, found: bool)
    ensures count == 0 && !found
  {
    var t := new WordTree();
    count := t.Size();
    found := t.Find(probe);
  }

  /** Adding a word that is empty or has a non-letter after lowercasing
      changes nothing that size or find can see. */
  method RejectedAdd(t: WordTree, word: string, probe: string)
      returns (sizeBefore: nat, sizeAfter: nat, foundBefore: bool, foundAfter: bool)
    requires t.Valid()
    requires !IsLowerWord(Lowered(word))
    modifies t
    ensures t.Valid()
    ensures sizeAfter == sizeBefore && foundAfter == foundBefore
  {
    sizeBefore := t.Size();
    foundBefore := t.Find(probe);
    t.Add(word);
    sizeAfter := t.Size();
    foundAfter := t.Find(probe);
  }

  /** Adding a word that is already stored, in any casing, leaves the size
      unchanged. */
  method AddAgain(t: WordTree, word: string) returns (before: nat, after: nat)
    requires t.Valid()
    requires Lowered(word) in t.Words
    modifies t
    ensures t.Valid()
    ensures after == before
  {
    before := t.Size();
    t.Add(word);
    assert t.Words == old(t.Words);
    after := t.Size();
  }
}
