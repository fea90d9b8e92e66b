/**
 The trie dictionary of trie.js: a `Trie` object owning its root `dictionary` and the
 public operations `isValidPrefix`, `lookup`, `addWord`, `removeWord` and `getWords`, and
 the bulk constructor `createTrieFromArray`. The pruning helper `cleanupBranch` is
 imported from `TrieSteps`, the subtree readers from `TrieHelpers`.

 Every operation is specified against `Words()`, the set of stored words.
 */
module TrieDictionary {
  import opened TrieStore
  import opened TrieHelpers
  import opened TrieSteps

  class Trie {
    /** The node objects; handle 0 is the root `dictionary`. */
    var nodes: seq<Entry>
    /** The path spelled from the root to each reachable node. */
    ghost var paths: map<string, nat>

    /**
     The tree is well formed, the root is never terminal (the empty string is never
     stored) and no branch is dead.
     */
    ghost predicate Valid()
      reads this
    {
      Shape(nodes, paths) && !nodes[0].flag && Pruned(nodes, paths)
    }

    /** The stored words. */
    ghost function Words(): set<string>
      reads this
      requires Valid()
    {
      Stored(nodes, paths)
    }

    /** `new Trie()`: an empty dictionary. */
    constructor ()
      ensures Valid() && Words() == {}
    {
      nodes := [Entry(false, map[])];
      paths := map[[] := 0];
    }

    /** `isValidPrefix(word)`: does some stored word start with `word`? False for the empty string. */
    method IsValidPrefix(word: string) returns (valid: bool)
      requires Valid()
      ensures valid <==> word != [] && Below(Words(), word)
    {
      if |word| == 0 {
        return false;
      }
      var current := 0;
      for i := 0 to |word|
        invariant word[..i] in paths && paths[word[..i]] == current
      {
        Step(nodes, paths, word, i);
        if word[i] !in nodes[current].kids {
          LostPath(nodes, paths, word, i + 1);
          return false;
        }
        current := nodes[current].kids[word[i]];
      }
      assert word[..|word|] == word;
      valid := ContainsWords(nodes, current);
      HasWordMeans(nodes, paths, word);
    }

    /** `lookup(word)`: is `word` stored? Only the terminal flag at the end of its path counts. */
    method Lookup(word: string) returns (found: bool)
      requires Valid()
      ensures found <==> word in Words()
    {
      if |word| == 0 {
        return false;
      }
      var current := 0;
      for i := 0 to |word|
        invariant word[..i] in paths && paths[word[..i]] == current
      {
        Step(nodes, paths, word, i);
        if word[i] !in nodes[current].kids {
          LostPath(nodes, paths, word, i + 1);
          return false;
        }
        current := nodes[current].kids[word[i]];
      }
      assert word[..|word|] == word;
      return nodes[current].flag;
    }

    /**
     `addWord(word)`: store `word`, creating a node for each missing prefix. The empty string
     is ignored, and adding a stored word changes nothing.
     */
    method AddWord(word: string)
      requires Valid()
      modifies this
      ensures Valid()
      ensures Words() == if word == [] then old(Words()) else old(Words()) + {word}
      ensures word == [] || word in old(Words()) ==> nodes == old(nodes) && paths == old(paths)
      ensures PathsGrown(old(paths), paths, word)
      ensures forall p :: p in old(paths) ==> paths[p] == old(paths)[p]
    {
      if |word| == 0 {
        GrownByNothing(paths);
        return;
      }
      InsertStart(nodes, paths, word);
      var ns := nodes;
      ghost var ps: map<string, nat> := paths;
      var current: nat := 0;
      for i := 0 to |word|
        modifies {}
        invariant Inserting(old(nodes), old(paths), ns, ps, word, i, current)
      {
        InsertStep(old(nodes), old(paths), ns, ps, word, i, current);
        if word[i] !in ns[current].kids {
          ghost var handle := |ns|;
          ns := Attach(ns, current, word[i]);
          ps := ps[word[..i + 1] := handle];
        }
        current := ns[current].kids[word[i]];
      }
      InsertEnd(old(nodes), old(paths), ns, ps, word, current);
      nodes, paths := Mark(ns, current, true), ps;
    }

    /**
     `removeWord(word)`: clear the terminal flag at the end of `word`'s path and prune the
     branch. Nothing happens for the empty string, for a path that does not exist, or for a
     path that ends at a node which is not terminal. Afterwards exactly the nodes that still
     root a word remain.
     */
    method RemoveWord(word: string)
      requires Valid()
      modifies this
      ensures Valid()
      ensures Words() == old(Words()) - {word}
      ensures word !in old(Words()) ==> nodes == old(nodes) && paths == old(paths)
      ensures forall p :: p in paths <==> p in old(paths) && (p == [] || Below(Words(), p))
      ensures forall p :: p in paths ==> paths[p] == old(paths[p])
    {
      if |word| == 0 {
        return;
      }
      var current := 0;
      for i := 0 to |word|
        modifies {}
        invariant word[..i] in paths && paths[word[..i]] == current
      {
        Step(nodes, paths, word, i);
        if word[i] !in nodes[current].kids {
          LostPath(nodes, paths, word, i + 1);
          return;
        }
        current := nodes[current].kids[word[i]];
      }
      assert word[..|word|] == word;
      ClearWord(nodes, paths, word);
      nodes, paths := CleanupBranch(Mark(nodes, current, false), paths, word);
    }

    /** `getWords()`: every stored word exactly once, each before the words that extend it. */
    method GetWords() returns (words: seq<string>)
      requires Valid()
      ensures forall v :: v in words <==> v in Words()
      ensures NoDuplicates(words) && PrefixFirst(words)
    {
      words := CollectWords(nodes, paths, 0, []);
    }
  }

  /** The non-empty strings of `words`. */
  ghost function NonEmpty(words: seq<string>): set<string>
  {
    set w | w in words && w != []
  }

  lemma NonEmptyStep(words: seq<string>, i: nat)
    requires i < |words|
    ensures NonEmpty(words[..i + 1]) == NonEmpty(words[..i]) + (if words[i] == [] then {} else {words[i]})
  {
    assert words[..i + 1] == words[..i] + [words[i]];
  }

  /** `createTrieFromArray(words)`: a new trie holding the non-empty strings of `words`. */
  method CreateTrieFromArray(words: seq<string>) returns (t: Trie)
    ensures fresh(t) && t.Valid()
    ensures t.Words() == NonEmpty(words)
  {
    t := new Trie();
    for i := 0 to |words|
      invariant fresh(t) && t.Valid()
      invariant t.Words() == NonEmpty(words[..i])
    {
      t.AddWord(words[i]);
      NonEmptyStep(words, i);
    }
    assert words[..|words|] == words;
  }
}
