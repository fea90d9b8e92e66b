/**
 The loop states of the two walks of trie.js that change the tree: the descent of
 `addWord`, which creates the missing nodes of a word's path, and the climb of
 `cleanupBranch`, which detaches the dead nodes of a path from the deepest up. Each state
 is one predicate over the tree before the walk and the tree now, with a lemma for its
 start, one for a step and one for its end.
 */
module TrieSteps {
  import opened TrieStore
  import opened TrieHelpers

  /**
   `addWord` has followed or created the first `i` characters of `w` and stands at `cur`:
   the nodes made so far are exactly the missing prefixes of `w` up to length `i`, the old
   paths still lead to their old nodes, no word was stored yet, and a word already stored
   was not touched at all.
   */
  ghost predicate Inserting(nodes0: seq<Entry>, paths0: map<string, nat>,
                            nodes: seq<Entry>, paths: map<string, nat>, w: string, i: nat, cur: nat)
  {
    && Shape(nodes0, paths0) && Shape(nodes, paths) && i <= |w|
    && nodes[0].flag == nodes0[0].flag
    && w[..i] in paths && paths[w[..i]] == cur
    && Stored(nodes, paths) == Stored(nodes0, paths0)
    && (forall p :: p in paths <==> p in paths0 || (p <= w && |p| <= i))
    && (forall p :: p in paths0 ==> paths[p] == paths0[p])
    && PrunedOff(nodes, paths, w)
    && (w in Stored(nodes0, paths0) ==> nodes == nodes0 && paths == paths0)
  }

  /** The paths now are those of before plus every prefix of `w`. */
  ghost predicate PathsGrown(paths0: map<string, nat>, paths: map<string, nat>, w: string)
  {
    forall p :: p in paths <==> p in paths0 || p <= w
  }

  /** The only prefix of the empty word is the root's path, so growing by it adds nothing. */
  lemma GrownByNothing(paths: map<string, nat>)
    requires [] in paths
    ensures PathsGrown(paths, paths, [])
  {
  }

  /** The descent starts at the root of a tree with no dead branch. */
  lemma InsertStart(nodes: seq<Entry>, paths: map<string, nat>, w: string)
    requires Shape(nodes, paths) && Pruned(nodes, paths)
    ensures Inserting(nodes, paths, nodes, paths, w, 0, 0)
  {
    assert w[..0] == [];
  }

  /**
   One character further: if the child exists the walk moves to it; otherwise a fresh node
   is attached under that character, and this only happens for a word not yet stored.
   */
  lemma InsertStep(nodes0: seq<Entry>, paths0: map<string, nat>,
                   nodes: seq<Entry>, paths: map<string, nat>, w: string, i: nat, cur: nat)
    requires Inserting(nodes0, paths0, nodes, paths, w, i, cur) && i < |w|
    ensures w[i] in nodes[cur].kids ==>
              Inserting(nodes0, paths0, nodes, paths, w, i + 1, nodes[cur].kids[w[i]])
    ensures w[i] !in nodes[cur].kids ==>
              Inserting(nodes0, paths0, Attach(nodes, cur, w[i]), paths[w[..i + 1] := |nodes|],
                        w, i + 1, Attach(nodes, cur, w[i])[cur].kids[w[i]])
  {
    Step(nodes, paths, w, i);
    forall p | p <= w && |p| <= i + 1
      ensures |p| <= i || p == w[..i + 1]
    {
    }
    if w[i] !in nodes[cur].kids {
      Grow(nodes, paths, w, i);
      LostPath(nodes, paths, w, i + 1);
    }
  }

  /**
   At the end of the word, setting the flag stores exactly `w` and leaves no dead branch;
   the new paths are the prefixes of `w`, and a word already stored changes nothing.
   */
  lemma InsertEnd(nodes0: seq<Entry>, paths0: map<string, nat>,
                  nodes: seq<Entry>, paths: map<string, nat>, w: string, cur: nat)
    requires Inserting(nodes0, paths0, nodes, paths, w, |w|, cur) && w != []
    ensures Shape(Mark(nodes, cur, true), paths) && Pruned(Mark(nodes, cur, true), paths)
    ensures Mark(nodes, cur, true)[0].flag == nodes0[0].flag
    ensures Stored(Mark(nodes, cur, true), paths) == Stored(nodes0, paths0) + {w}
    ensures PathsGrown(paths0, paths, w)
    ensures forall p :: p in paths0 ==> paths[p] == paths0[p]
    ensures w in Stored(nodes0, paths0) ==> Mark(nodes, cur, true) == nodes0 && paths == paths0
  {
    assert w[..|w|] == w;
    SetWord(nodes, paths, w);
  }

  /**
   `levels` lists the handles along the whole path of `w`, deepest first: `levels[j]` is
   the node at the prefix of `w` that is `j` characters shorter than `w`.
   */
  ghost predicate Spine(paths: map<string, nat>, w: string, levels: seq<nat>)
  {
    && |levels| == |w| + 1
    && forall j :: 0 <= j <= |w| ==> w[..|w| - j] in paths && levels[j] == paths[w[..|w| - j]]
  }

  /**
   `cleanupBranch` has visited the first `i` entries of the spine of `w`: the nodes it
   detached are exactly the non-empty prefixes of `w` longer than `|w| - i`, none of them
   rooted a word, the handles of the others did not move, no word was lost, and a path
   that still roots a word was not touched at all.
   */
  ghost predicate Pruning(nodes0: seq<Entry>, paths0: map<string, nat>,
                          nodes: seq<Entry>, paths: map<string, nat>, w: string, i: nat)
  {
    && Shape(nodes0, paths0) && Shape(nodes, paths)
    && nodes[0].flag == nodes0[0].flag
    && Stored(nodes, paths) == Stored(nodes0, paths0)
    && PrunedOff(nodes, paths, w)
    && Cut(nodes0, paths0, Stored(nodes0, paths0), nodes, paths, w, i)
  }

  /**
   The path bookkeeping of `Pruning`, given the words `stored` of the tree before the climb:
   only prefixes of `w` longer than `|w| - i` are gone, none of them had a word below, and
   the tree is untouched if `w` itself has one.
   */
  ghost predicate Cut(nodes0: seq<Entry>, paths0: map<string, nat>, stored: set<string>,
                      nodes: seq<Entry>, paths: map<string, nat>, w: string, i: nat)
  {
    && w in paths0 && w != [] && i <= |w| + 1
    && (forall p :: p in paths <==> p in paths0 && !(p != [] && p <= w && |w| - i < |p|))
    && (forall p :: p in paths ==> paths[p] == paths0[p])
    && (forall p :: p in paths0 && p != [] && p <= w && |w| - i < |p| ==> !Below(stored, p))
    && (Below(stored, w) ==> i == 0 && nodes == nodes0 && paths == paths0)
  }

  /** Dropping the dead path `w[..|w| - i]` moves the bookkeeping one entry up. */
  lemma CutStep(nodes0: seq<Entry>, paths0: map<string, nat>, stored: set<string>,
                nodes: seq<Entry>, paths: map<string, nat>, w: string, i: nat,
                nodes': seq<Entry>, paths': map<string, nat>)
    requires Cut(nodes0, paths0, stored, nodes, paths, w, i) && i < |w|
    requires !Below(stored, w[..|w| - i])
    requires forall p :: p in paths' <==> p in paths && p != w[..|w| - i]
    requires forall p :: p in paths' ==> paths'[p] == paths[p]
    ensures Cut(nodes0, paths0, stored, nodes', paths', w, i + 1)
  {
    var n := |w|;
    var t := w[..n - i];
    forall p
      ensures p in paths' <==> p in paths0 && !(p != [] && p <= w && n - (i + 1) < |p|)
    {
      if p <= w && |p| == n - i {
        assert p == t;
      }
    }
    forall p | p in paths0 && p != [] && p <= w && n - (i + 1) < |p|
      ensures !Below(stored, p)
    {
      if |p| == n - i {
        assert p == t;
      }
    }
    assert !Below(stored, w) by {
      if i == 0 {
        assert t == w;
      }
    }
  }
  /** The climb starts at the deepest node with nothing detached. */
  lemma PruneStart(nodes: seq<Entry>, paths: map<string, nat>, w: string)
    requires Shape(nodes, paths) && w in paths && w != [] && PrunedOff(nodes, paths, w)
    ensures Pruning(nodes, paths, nodes, paths, w, 0)
  {
  }

  /**
   One entry further up: the node at `levels[i]` roots a word exactly when some stored word
   starts with its path; if it roots none, it is the only node left below its path, and
   detaching it from its parent (the next entry) drops that path alone.
   */
  lemma PruneStep(nodes0: seq<Entry>, paths0: map<string, nat>,
                  nodes: seq<Entry>, paths: map<string, nat>, w: string, levels: seq<nat>, i: nat)
    requires Pruning(nodes0, paths0, nodes, paths, w, i) && Spine(paths0, w, levels) && i < |levels|
    ensures levels[i] < |nodes|
    ensures HasWord(nodes, levels[i]) <==> Below(Stored(nodes0, paths0), w[..|w| - i])
    ensures !HasWord(nodes, levels[i]) && i + 1 < |levels| ==>
              && levels[i + 1] < |nodes|
              && Pruning(nodes0, paths0, Detach(nodes, levels[i + 1], w[|w| - (i + 1)]),
                         Prune(paths, w[..|w| - i]), w, i + 1)
    ensures !HasWord(nodes, levels[i]) && i + 1 == |levels| ==>
              Pruning(nodes0, paths0, nodes, paths, w, i + 1)
  {
    var t := w[..|w| - i];
    var here := levels[i];
    assert t in paths0 && here == paths0[t];
    assert t <= w && t in paths && paths[t] == here;
    HasWordMeans(nodes, paths, t);
    if !HasWord(nodes, here) {
      if i + 1 < |levels| {
        PruneDetach(nodes0, paths0, nodes, paths, w, levels, i);
      } else {
        PruneRoot(nodes0, paths0, nodes, paths, w);
      }
    }
  }

  /** The root is never detached: when it roots no word, the climb just ends above it. */
  lemma PruneRoot(nodes0: seq<Entry>, paths0: map<string, nat>,
                  nodes: seq<Entry>, paths: map<string, nat>, w: string)
    requires Pruning(nodes0, paths0, nodes, paths, w, |w|)
    requires !Below(Stored(nodes0, paths0), [])
    ensures Pruning(nodes0, paths0, nodes, paths, w, |w| + 1)
  {
    BelowPrefix(Stored(nodes0, paths0), [], w);
  }

  /**
   A prefix `t` of `w` below which no word is stored, in a tree with no dead branch off the
   path of `w` and no path along `w` longer than `t`, is a leaf: detaching it from its
   parent removes the path `t` alone and loses no word.
   */
  lemma DetachDead(nodes: seq<Entry>, paths: map<string, nat>, w: string, t: string)
    requires Shape(nodes, paths) && PrunedOff(nodes, paths, w)
    requires t in paths && t <= w && t != [] && !Below(Stored(nodes, paths), t)
    requires forall p :: p in paths && p != [] && p <= w ==> |p| <= |t|
    ensures t[..|t| - 1] in paths
    ensures Shape(Detach(nodes, paths[t[..|t| - 1]], t[|t| - 1]), Prune(paths, t))
    ensures Stored(Detach(nodes, paths[t[..|t| - 1]], t[|t| - 1]), Prune(paths, t)) == Stored(nodes, paths)
    ensures PrunedOff(Detach(nodes, paths[t[..|t| - 1]], t[|t| - 1]), Prune(paths, t), w)
    ensures Detach(nodes, paths[t[..|t| - 1]], t[|t| - 1])[0].flag == nodes[0].flag
    ensures forall p :: p in Prune(paths, t) <==> p in paths && p != t
  {
    var stored := Stored(nodes, paths);
    DetachStores(nodes, paths, t);
    forall p | p in paths && t <= p
      ensures p == t
    {
      BelowPrefix(stored, t, p);
      assert !Below(stored, p);
      assert p[..|t|] == t;
    }
    forall v | v in stored
      ensures !(t <= v)
    {
      assert !Below(stored, t);
    }
  }

  /** The detaching case of `PruneStep`. */
  lemma PruneDetach(nodes0: seq<Entry>, paths0: map<string, nat>,
                    nodes: seq<Entry>, paths: map<string, nat>, w: string, levels: seq<nat>, i: nat)
    requires Pruning(nodes0, paths0, nodes, paths, w, i) && Spine(paths0, w, levels) && i + 1 < |levels|
    requires !Below(Stored(nodes0, paths0), w[..|w| - i])
    ensures levels[i + 1] < |nodes|
    ensures Pruning(nodes0, paths0, Detach(nodes, levels[i + 1], w[|w| - (i + 1)]),
                    Prune(paths, w[..|w| - i]), w, i + 1)
  {
    var n := |w|;
    var t := w[..n - i];
    assert t in paths && t <= w && t != [] && paths[t[..|t| - 1]] == levels[i + 1]
        && t[..|t| - 1] == w[..n - (i + 1)] && t[|t| - 1] == w[n - (i + 1)] by {
      var here, parent := levels[i], levels[i + 1];
      assert t in paths0 && here == paths0[t] && parent == paths0[w[..n - (i + 1)]];
      assert t[..|t| - 1] == w[..n - (i + 1)];
    }
    DetachDead(nodes, paths, w, t);
    CutStep(nodes0, paths0, Stored(nodes0, paths0), nodes, paths, w, i,
            Detach(nodes, levels[i + 1], w[n - (i + 1)]), Prune(paths, t));
  }

  /**
   The climb stops at the root or at the first node that roots a word. Then the paths kept
   are the root and exactly those below which a word is stored, and nothing else changed.
   */
  lemma PruneEnd(nodes0: seq<Entry>, paths0: map<string, nat>,
                 nodes: seq<Entry>, paths: map<string, nat>, w: string, levels: seq<nat>, i: nat)
    requires Pruning(nodes0, paths0, nodes, paths, w, i) && Spine(paths0, w, levels) && i <= |levels|
    requires i < |levels| ==> Below(Stored(nodes0, paths0), w[..|w| - i])
    ensures Shape(nodes, paths) && Pruned(nodes, paths)
    ensures nodes[0].flag == nodes0[0].flag
    ensures Stored(nodes, paths) == Stored(nodes0, paths0)
    ensures forall p :: p in paths <==> p in paths0 && (p == [] || Below(Stored(nodes0, paths0), p))
    ensures forall p :: p in paths ==> paths[p] == paths0[p]
    ensures Below(Stored(nodes0, paths0), w) ==> nodes == nodes0 && paths == paths0
  {
    var n := |w|;
    var stored := Stored(nodes0, paths0);
    forall p | p in paths0 && p != [] && p <= w && |p| <= n - i
      ensures Below(stored, p)
    {
      assert p <= w[..n - i];
      BelowPrefix(stored, p, w[..n - i]);
    }
    forall p | p in paths0 && p != [] && !(p <= w)
      ensures p in paths && Below(stored, p)
    {
      assert Below(Stored(nodes, paths), p);
    }
  }

  /**
   `cleanupBranch(dictionary, word)`: collect the nodes along `word`'s path, deepest first,
   then walk them back towards the root, detaching each node that roots no word from its
   parent, and stop at the first node that still roots one; the root is never detached.
   Its only caller, `removeWord`, has checked that the whole path exists and cleared the
   flag at its end.
   */
  method CleanupBranch(nodes: seq<Entry>, ghost paths: map<string, nat>, word: string)
    returns (nodes': seq<Entry>, ghost paths': map<string, nat>)
    requires Shape(nodes, paths) && word != [] && word in paths && PrunedOff(nodes, paths, word)
    ensures Shape(nodes', paths') && Pruned(nodes', paths')
    ensures nodes'[0].flag == nodes[0].flag
    ensures Stored(nodes', paths') == Stored(nodes, paths)
    ensures forall p :: p in paths' <==> p in paths && (p == [] || Below(Stored(nodes, paths), p))
    ensures forall p :: p in paths' ==> paths'[p] == paths[p]
    ensures Below(Stored(nodes, paths), word) ==> nodes' == nodes && paths' == paths
  {
    var n := |word|;
    forall k | 0 <= k <= n
      ensures word[..k] in paths
    {
      PrefixReachable(nodes, paths, word, k);
    }
    var levels := [0];
    var i := 0;
    while i < n
      invariant 0 <= i <= n && |levels| == i + 1
      invariant forall j :: 0 <= j <= i ==> levels[j] == paths[word[..i - j]]
    {
      var ch := word[i];
      Step(nodes, paths, word, i);
      if ch !in nodes[levels[0]].kids {
        break;
      }
      levels := [nodes[levels[0]].kids[ch]] + levels;
      i := i + 1;
    }
    assert Spine(paths, word, levels);

    nodes', paths' := nodes, paths;
    PruneStart(nodes, paths, word);
    i := 0;
    while i < |levels|
      invariant i <= |levels|
      invariant Pruning(nodes, paths, nodes', paths', word, i)
    {
      PruneStep(nodes, paths, nodes', paths', word, levels, i);
      var live := ContainsWords(nodes', levels[i]);
      if live {
        break;
      }
      if i + 1 < |levels| {
        var ch := word[n - (i + 1)];
        nodes' := Detach(nodes', levels[i + 1], ch);
        paths' := Prune(paths', word[..n - i]);
      }
      i := i + 1;
    }
    PruneEnd(nodes, paths, nodes', paths', word, levels, i);
  }
}
