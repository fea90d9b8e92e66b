/**
 The helper functions of trie.js that read a subtree: `containsWords`, which asks whether
 any word ends at or below a node, and `getWords(dictionary, prefix)`, which lists the words
 of a subtree depth-first.
 */
module TrieHelpers {
  import opened TrieStore

  /** Some terminal node lies at or below node `n`. */
  ghost predicate HasWord(nodes: seq<Entry>, n: nat)
    requires Ordered(nodes) && n < |nodes|
    decreases |nodes| - n
  {
    nodes[n].flag || exists c :: c in nodes[n].kids && HasWord(nodes, nodes[n].kids[c])
  }

  /** A node at `p` has a word at or below it exactly when some stored word starts with `p`. */
  lemma {:induction false} HasWordMeans(nodes: seq<Entry>, paths: map<string, nat>, p: string)
    requires Shape(nodes, paths) && p in paths
    ensures HasWord(nodes, paths[p]) <==> Below(Stored(nodes, paths), p)
    decreases |nodes| - paths[p]
  {
    var n := paths[p];
    var words := Stored(nodes, paths);
    if nodes[n].flag {
      assert p in words && p <= p;
    } else {
      assert HasWord(nodes, n) ==> Below(words, p) by {
        if HasWord(nodes, n) {
          var c :| c in nodes[n].kids && HasWord(nodes, nodes[n].kids[c]);
          HasWordMeans(nodes, paths, p + [c]);
          var v :| v in words && p + [c] <= v;
          assert p <= v;
        }
      }
      assert Below(words, p) ==> HasWord(nodes, n) by {
        if Below(words, p) {
          var v :| v in words && p <= v;
          assert v != p;
          var c := v[|p|];
          PrefixReachable(nodes, paths, v, |p| + 1);
          assert v[..|p| + 1] == p + [c];
          HasWordMeans(nodes, paths, p + [c]);
          assert p + [c] <= v;
        }
      }
    }
  }

  /**
   `containsWords(dictionary)`: true at once if the node is terminal, otherwise asks each
   child in turn and stops at the first that contains a word.
   */
  method ContainsWords(nodes: seq<Entry>, n: nat) returns (found: bool)
    requires Ordered(nodes) && n < |nodes|
    ensures found == HasWord(nodes, n)
    decreases |nodes| - n
  {
    if nodes[n].flag {
      return true;
    }
    var keys := nodes[n].kids.Keys;
    while keys != {}
      invariant keys <= nodes[n].kids.Keys
      invariant forall c :: c in nodes[n].kids && c !in keys ==> !HasWord(nodes, nodes[n].kids[c])
      decreases keys
    {
      var c :| c in keys;
      found := ContainsWords(nodes, nodes[n].kids[c]);
      if found {
        return;
      }
      keys := keys - {c};
    }
    return false;
  }

  /** No word occurs twice. */
  ghost predicate NoDuplicates(words: seq<string>)
  {
    forall i, j :: 0 <= i < j < |words| ==> words[i] != words[j]
  }

  /** Depth-first order: a word comes before every word that extends it. */
  ghost predicate PrefixFirst(words: seq<string>)
  {
    forall i, j :: 0 <= i < j < |words| ==> !(words[j] < words[i])
  }

  /** Joining two depth-first listings that share no word and never extend back keeps both properties. */
  lemma JoinListings(a: seq<string>, b: seq<string>)
    requires NoDuplicates(a) && PrefixFirst(a) && NoDuplicates(b) && PrefixFirst(b)
    requires forall x, y :: x in a && y in b ==> x != y && !(y < x)
    ensures NoDuplicates(a + b) && PrefixFirst(a + b)
  {
    forall i, j | 0 <= i < j < |a + b|
      ensures (a + b)[i] != (a + b)[j] && !((a + b)[j] < (a + b)[i])
    {
      if j < |a| {
      } else if |a| <= i {
        assert (a + b)[i] == b[i - |a|] && (a + b)[j] == b[j - |a|];
      } else {
        assert (a + b)[i] in a && (a + b)[j] in b;
      }
    }
  }

  /**
   The state of the loop of `getWords` at the node of `prefix`: `words` lists, depth-first and
   without repetition, exactly the stored words that start with `prefix` except those below
   the children whose characters are still in `keys`.
   */
  ghost predicate Collected(stored: set<string>, prefix: string, keys: set<char>, words: seq<string>)
  {
    && (forall v :: v in words <==> v in stored && prefix <= v && (v == prefix || v[|prefix|] !in keys))
    && NoDuplicates(words) && PrefixFirst(words)
  }

  /** Appending the listing of the child under `c` moves `c` from the pending keys to the done ones. */
  lemma CollectChild(stored: set<string>, prefix: string, keys: set<char>, words: seq<string>, c: char, sub: seq<string>)
    requires Collected(stored, prefix, keys, words) && c in keys
    requires forall v :: v in sub <==> v in stored && prefix + [c] <= v
    requires NoDuplicates(sub) && PrefixFirst(sub)
    ensures Collected(stored, prefix, keys - {c}, words + sub)
  {
    forall x, y | x in words && y in sub
      ensures x != y && !(y < x)
    {
      assert y[..|prefix| + 1] == prefix + [c];
      assert y[|prefix|] == c;
    }
    JoinListings(words, sub);
    forall v | v in stored && prefix + [c] <= v
      ensures prefix <= v && v != prefix && v[|prefix|] == c
    {
      assert v[..|prefix| + 1] == prefix + [c];
    }
    forall v | v in stored && prefix <= v && v != prefix && v[|prefix|] == c
      ensures prefix + [c] <= v
    {
      assert v[..|prefix| + 1] == prefix + [c];
    }
  }

  /**
   `getWords(dictionary, prefix)` on the node at `prefix`: every stored word that starts
   with `prefix`, each exactly once, the node's own word before those of its descendants.
   Children are visited in an unspecified order, as the source's property iteration is.
   */
  method CollectWords(nodes: seq<Entry>, ghost paths: map<string, nat>, n: nat, prefix: string)
    returns (words: seq<string>)
    requires Shape(nodes, paths) && prefix in paths && paths[prefix] == n
    ensures forall v :: v in words <==> v in Stored(nodes, paths) && prefix <= v
    ensures NoDuplicates(words) && PrefixFirst(words)
    decreases |nodes| - n
  {
    ghost var stored := Stored(nodes, paths);
    words := [];
    if nodes[n].flag {
      words := [prefix];
    }
    var keys := nodes[n].kids.Keys;
    forall v | v in stored && prefix <= v && v != prefix
      ensures v[|prefix|] in keys
    {
      PrefixReachable(nodes, paths, v, |prefix| + 1);
      assert v[..|prefix| + 1] == prefix + [v[|prefix|]];
    }
    assert Collected(stored, prefix, keys, words);
    while keys != {}
      invariant keys <= nodes[n].kids.Keys
      invariant Collected(stored, prefix, keys, words)
      decreases keys
    {
      var c :| c in keys;
      assert prefix + [c] in paths;
      var sub := CollectWords(nodes, paths, nodes[n].kids[c], prefix + [c]);
      CollectChild(stored, prefix, keys, words, c, sub);
      words := words + sub;
      keys := keys - {c};
    }
  }
}
