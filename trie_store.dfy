/**
 The storage model of the trie dictionary.

 In trie.js every node is a plain object that maps single characters to child objects
 and carries a terminal marker under a reserved key. Here the objects live in an arena:
 a node handle is an index into `nodes`, the root dictionary is handle 0, and updating an
 object in place is updating its arena entry. A ghost map `paths` records which path from
 the root reaches which node; `Shape` ties it to the arena.
 */
module TrieStore {

  /** One node object: its terminal flag and its links to children by character. */
  datatype Entry = Entry(flag: bool, kids: map<char, nat>)

  /** Child links always point forward in the arena, so every walk down the tree ends. */
  ghost predicate Ordered(nodes: seq<Entry>)
  {
    forall n, c :: 0 <= n < |nodes| && c in nodes[n].kids ==> n < nodes[n].kids[c] < |nodes|
  }

  /** The root is reachable by the empty path and every reachable path ends at a node of the arena. */
  ghost predicate Rooted(nodes: seq<Entry>, paths: map<string, nat>)
  {
    && [] in paths && paths[[]] == 0
    && (forall p :: p in paths ==> paths[p] < |nodes|)
  }

  /** Following a child link from a reachable node reaches the node of the extended path. */
  ghost predicate Linked(nodes: seq<Entry>, paths: map<string, nat>)
    requires Rooted(nodes, paths)
  {
    forall p, c {:trigger c in nodes[paths[p]].kids} :: p in paths && c in nodes[paths[p]].kids ==>
      p + [c] in paths && paths[p + [c]] == nodes[paths[p]].kids[c]
  }

  /** Every reachable non-empty path is reached through its parent's child link. */
  ghost predicate Parented(nodes: seq<Entry>, paths: map<string, nat>)
    requires Rooted(nodes, paths)
  {
    forall p, c {:trigger p + [c] in paths} :: p + [c] in paths ==> p in paths && c in nodes[paths[p]].kids
  }

  /** The paths `p` and `q` both lead to the same node. */
  ghost predicate SameNode(paths: map<string, nat>, p: string, q: string)
  {
    p in paths && q in paths && paths[p] == paths[q]
  }

  /**
   No node is reached by two different paths: the structure is a tree, not a DAG. (The
   quantifier fires only where a proof names `SameNode`, which keeps it cheap elsewhere.)
   */
  ghost predicate Unique(paths: map<string, nat>)
  {
    forall p, q {:trigger SameNode(paths, p, q)} :: SameNode(paths, p, q) ==> p == q
  }

  /**
   `paths` holds exactly the strings spelled by walks from the root, each mapped to the
   node where its walk ends, and the nodes form a tree.
   */
  ghost predicate Shape(nodes: seq<Entry>, paths: map<string, nat>)
  {
    && Ordered(nodes)
    && Rooted(nodes, paths)
    && Linked(nodes, paths)
    && Parented(nodes, paths)
    && Unique(paths)
  }

  /** The stored words: the paths whose final node is terminal. */
  ghost function Stored(nodes: seq<Entry>, paths: map<string, nat>): set<string>
    requires Shape(nodes, paths)
  {
    set p | p in paths && nodes[paths[p]].flag
  }

  /** Some word of `words` starts with `p` (or is `p`). */
  ghost predicate Below(words: set<string>, p: string)
  {
    exists v :: v in words && p <= v
  }

  /** Every node other than the root roots at least one stored word: no dead branches. */
  ghost predicate Pruned(nodes: seq<Entry>, paths: map<string, nat>)
    requires Shape(nodes, paths)
  {
    forall p {:trigger Below(Stored(nodes, paths), p)} :: p in paths && p != [] ==> Below(Stored(nodes, paths), p)
  }

  /** Every node off the path of `w`, other than the root, roots at least one stored word. */
  ghost predicate PrunedOff(nodes: seq<Entry>, paths: map<string, nat>, w: string)
    requires Shape(nodes, paths)
  {
    forall p {:trigger Below(Stored(nodes, paths), p)} :: p in paths && p != [] && !(p <= w) ==> Below(Stored(nodes, paths), p)
  }

  /** Setting the terminal marker of node `n` to `b` (`current[FLAG_INDEX] = 1` or `= 0`). */
  function Mark(nodes: seq<Entry>, n: nat, b: bool): seq<Entry>
    requires n < |nodes|
  {
    nodes[n := nodes[n].(flag := b)]
  }

  /** Creating an empty child object of node `n` under character `c` (`current[c] = { }`). */
  function Attach(nodes: seq<Entry>, n: nat, c: char): seq<Entry>
    requires n < |nodes|
  {
    nodes[n := nodes[n].(kids := nodes[n].kids[c := |nodes|])] + [Entry(false, map[])]
  }

  /** Deleting the child link of node `n` under character `c` (`delete node[c]`). */
  function Detach(nodes: seq<Entry>, n: nat, c: char): seq<Entry>
    requires n < |nodes|
  {
    nodes[n := nodes[n].(kids := nodes[n].kids - {c})]
  }

  /** The paths that remain reachable once the node at `t` is detached. */
  ghost function Prune(paths: map<string, nat>, t: string): map<string, nat>
  {
    map p | p in paths && !(t <= p) :: paths[p]
  }

  /** The prefixes of a reachable path are reachable. */
  lemma {:induction false} PrefixReachable(nodes: seq<Entry>, paths: map<string, nat>, w: string, k: nat)
    requires Shape(nodes, paths) && w in paths && k <= |w|
    ensures w[..k] in paths
    decreases |w| - k
  {
    if k < |w| {
      PrefixReachable(nodes, paths, w, k + 1);
      assert w[..k + 1] == w[..k] + [w[k]];
    } else {
      assert w[..k] == w;
    }
  }

  /**
   One step of a walk down the tree: the node reached by `w[..i]` has a child under
   `w[i]` exactly when `w[..i + 1]` is reachable, and that child is its node.
   */
  lemma Step(nodes: seq<Entry>, paths: map<string, nat>, w: string, i: nat)
    requires Shape(nodes, paths) && i < |w| && w[..i] in paths
    ensures w[i] in nodes[paths[w[..i]]].kids <==> w[..i + 1] in paths
    ensures w[i] in nodes[paths[w[..i]]].kids ==> nodes[paths[w[..i]]].kids[w[i]] == paths[w[..i + 1]]
  {
    assert w[..i + 1] == w[..i] + [w[i]];
    assert w[..i + 1][..i] == w[..i];
  }

  /** A walk that falls off the tree before its end reaches neither `w` nor any word below it. */
  lemma LostPath(nodes: seq<Entry>, paths: map<string, nat>, w: string, k: nat)
    requires Shape(nodes, paths) && k <= |w| && w[..k] !in paths
    ensures w !in paths && !Below(Stored(nodes, paths), w)
  {
    if w in paths {
      PrefixReachable(nodes, paths, w, k);
    }
    forall v | v in Stored(nodes, paths) && w <= v
      ensures v[..k] == w[..k] && v[..k] in paths
    {
      PrefixReachable(nodes, paths, v, k);
    }
  }

  /** A word below `p` is also below every prefix of `p`. */
  lemma BelowPrefix(words: set<string>, t: string, p: string)
    requires t <= p
    ensures Below(words, p) ==> Below(words, t)
  {
    if Below(words, p) {
      var v :| v in words && p <= v;
      assert t <= v;
    }
  }

  /** Setting the flag of the node at `w` adds or removes exactly the word `w`. */
  lemma MarkStores(nodes: seq<Entry>, paths: map<string, nat>, w: string, b: bool)
    requires Shape(nodes, paths) && w in paths
    ensures Shape(Mark(nodes, paths[w], b), paths)
    ensures Stored(Mark(nodes, paths[w], b), paths) == if b then Stored(nodes, paths) + {w} else Stored(nodes, paths) - {w}
  {
    var nodes' := Mark(nodes, paths[w], b);
    assert forall k :: 0 <= k < |nodes| ==> nodes'[k].kids == nodes[k].kids;
    assert Shape(nodes', paths);
    forall p | p in paths
      ensures nodes'[paths[p]].flag == if p == w then b else nodes[paths[p]].flag
    {
      if paths[p] == paths[w] {
        assert SameNode(paths, p, w);
      }
    }
  }

  lemma AttachLinked(nodes: seq<Entry>, paths: map<string, nat>, p: string, c: char)
    requires Shape(nodes, paths) && p in paths && c !in nodes[paths[p]].kids
    ensures p + [c] !in paths
    ensures Rooted(Attach(nodes, paths[p], c), paths[p + [c] := |nodes|])
    ensures Linked(Attach(nodes, paths[p], c), paths[p + [c] := |nodes|])
  {
    var q := p + [c];
    var nodes' := Attach(nodes, paths[p], c);
    var paths' := paths[q := |nodes|];
    forall r, d | r in paths' && d in nodes'[paths'[r]].kids
      ensures r + [d] in paths' && paths'[r + [d]] == nodes'[paths'[r]].kids[d]
    {
      if r != q && paths[r] == paths[p] {
        assert SameNode(paths, r, p);
        if d != c {
          assert r + [d] != q;
        }
      } else if r != q {
        assert r + [d] != q by {
          assert (r + [d])[..|r|] == r;
        }
      }
    }
  }

  lemma AttachParented(nodes: seq<Entry>, paths: map<string, nat>, p: string, c: char)
    requires Shape(nodes, paths) && p in paths && c !in nodes[paths[p]].kids
    requires p + [c] !in paths
    requires Rooted(Attach(nodes, paths[p], c), paths[p + [c] := |nodes|])
    ensures Parented(Attach(nodes, paths[p], c), paths[p + [c] := |nodes|])
  {
    var q := p + [c];
    var nodes' := Attach(nodes, paths[p], c);
    var paths' := paths[q := |nodes|];
    forall r, d | r + [d] in paths'
      ensures r in paths' && d in nodes'[paths'[r]].kids
    {
      if r + [d] != q {
        assert r + [d] in paths;
        assert r in paths && r != q;
      } else {
        assert r == p && d == c by {
          assert (r + [d])[..|r|] == r;
          assert (r + [d])[|r|] == d;
        }
      }
    }
  }

  /**
   Creating a fresh child under `c` of the node at `p` makes `p + [c]` reachable at the new
   handle and stores no new word.
   */
  lemma AttachStores(nodes: seq<Entry>, paths: map<string, nat>, p: string, c: char)
    requires Shape(nodes, paths) && p in paths && c !in nodes[paths[p]].kids
    ensures p + [c] !in paths
    ensures Shape(Attach(nodes, paths[p], c), paths[p + [c] := |nodes|])
    ensures Stored(Attach(nodes, paths[p], c), paths[p + [c] := |nodes|]) == Stored(nodes, paths)
  {
    AttachLinked(nodes, paths, p, c);
    AttachParented(nodes, paths, p, c);
    var nodes' := Attach(nodes, paths[p], c);
    var paths' := paths[p + [c] := |nodes|];
    assert Ordered(nodes');
    forall r, u | SameNode(paths', r, u)
      ensures r == u
    {
      if r != p + [c] && u != p + [c] {
        assert SameNode(paths, r, u);
      }
    }
    assert Shape(nodes', paths');
    assert Stored(nodes', paths') == Stored(nodes, paths);
  }

  lemma DetachLinked(nodes: seq<Entry>, paths: map<string, nat>, t: string)
    requires Shape(nodes, paths) && t in paths && t != []
    requires t[..|t| - 1] in paths
    ensures Rooted(Detach(nodes, paths[t[..|t| - 1]], t[|t| - 1]), Prune(paths, t))
    ensures Linked(Detach(nodes, paths[t[..|t| - 1]], t[|t| - 1]), Prune(paths, t))
  {
    var u := t[..|t| - 1];
    var c := t[|t| - 1];
    assert t == u + [c];
    var nodes' := Detach(nodes, paths[u], c);
    var paths' := Prune(paths, t);
    forall r, d | r in paths' && d in nodes'[paths'[r]].kids
      ensures r + [d] in paths' && paths'[r + [d]] == nodes'[paths'[r]].kids[d]
    {
      assert d in nodes[paths[r]].kids;
      assert !(t <= r);
      if r == u {
        assert d != c;
        assert (r + [d])[|r|] != t[|r|];
      } else if |r| + 1 == |t| {
        assert (r + [d])[..|r|] == r != u == t[..|r|];
      } else if |t| <= |r| {
        assert (r + [d])[..|t|] == r[..|t|];
      }
      assert !(t <= r + [d]);
    }
  }

  lemma DetachParented(nodes: seq<Entry>, paths: map<string, nat>, t: string)
    requires Shape(nodes, paths) && t in paths && t != []
    requires t[..|t| - 1] in paths
    requires Rooted(Detach(nodes, paths[t[..|t| - 1]], t[|t| - 1]), Prune(paths, t))
    ensures Parented(Detach(nodes, paths[t[..|t| - 1]], t[|t| - 1]), Prune(paths, t))
  {
    var u := t[..|t| - 1];
    var c := t[|t| - 1];
    assert t == u + [c];
    var nodes' := Detach(nodes, paths[u], c);
    var paths' := Prune(paths, t);
    forall r, d | r + [d] in paths'
      ensures r in paths' && d in nodes'[paths'[r]].kids
    {
      assert r + [d] in paths && !(t <= r + [d]);
      assert r in paths && d in nodes[paths[r]].kids;
      assert !(t <= r) by {
        assert r <= r + [d];
      }
      if paths[r] == paths[u] {
        assert SameNode(paths, r, u);
        assert r + [d] != t;
      }
    }
  }

  /**
   Deleting the link to the node at `t` from its parent leaves a well-formed tree whose
   reachable paths are those that do not start with `t`.
   */
  lemma DetachShape(nodes: seq<Entry>, paths: map<string, nat>, t: string)
    requires Shape(nodes, paths) && t in paths && t != []
    ensures t[..|t| - 1] in paths
    ensures Shape(Detach(nodes, paths[t[..|t| - 1]], t[|t| - 1]), Prune(paths, t))
  {
    PrefixReachable(nodes, paths, t, |t| - 1);
    DetachLinked(nodes, paths, t);
    DetachParented(nodes, paths, t);
    var nodes' := Detach(nodes, paths[t[..|t| - 1]], t[|t| - 1]);
    var paths' := Prune(paths, t);
    assert Ordered(nodes');
    forall r, v | SameNode(paths', r, v)
      ensures r == v
    {
      assert SameNode(paths, r, v);
    }
  }

  /**
   Deleting the link to the node at `t` from its parent removes exactly the stored words
   that start with `t`.
   */
  lemma DetachStores(nodes: seq<Entry>, paths: map<string, nat>, t: string)
    requires Shape(nodes, paths) && t in paths && t != []
    ensures t[..|t| - 1] in paths
    ensures Shape(Detach(nodes, paths[t[..|t| - 1]], t[|t| - 1]), Prune(paths, t))
    ensures Stored(Detach(nodes, paths[t[..|t| - 1]], t[|t| - 1]), Prune(paths, t))
            == set v | v in Stored(nodes, paths) && !(t <= v)
  {
    DetachShape(nodes, paths, t);
    var nodes' := Detach(nodes, paths[t[..|t| - 1]], t[|t| - 1]);
    var paths' := Prune(paths, t);
    assert forall k :: 0 <= k < |nodes| ==> nodes'[k].flag == nodes[k].flag;
  }

  /**
   One step of `addWord` that creates a node: extending the path `w[..i]` by the missing
   character `w[i]` stores no new word, keeps the root as it was and leaves no dead branch
   off the path of `w` beyond those already there.
   */
  lemma Grow(nodes: seq<Entry>, paths: map<string, nat>, w: string, i: nat)
    requires Shape(nodes, paths) && i < |w| && w[..i] in paths
    requires w[i] !in nodes[paths[w[..i]]].kids && PrunedOff(nodes, paths, w)
    ensures w[..i + 1] !in paths
    ensures Shape(Attach(nodes, paths[w[..i]], w[i]), paths[w[..i + 1] := |nodes|])
    ensures Stored(Attach(nodes, paths[w[..i]], w[i]), paths[w[..i + 1] := |nodes|]) == Stored(nodes, paths)
    ensures PrunedOff(Attach(nodes, paths[w[..i]], w[i]), paths[w[..i + 1] := |nodes|], w)
    ensures Attach(nodes, paths[w[..i]], w[i])[0].flag == nodes[0].flag
  {
    assert w[..i] + [w[i]] == w[..i + 1];
    AttachStores(nodes, paths, w[..i], w[i]);
    var nodes' := Attach(nodes, paths[w[..i]], w[i]);
    var paths' := paths[w[..i + 1] := |nodes|];
    forall p | p in paths' && p != [] && !(p <= w)
      ensures Below(Stored(nodes', paths'), p)
    {
      assert p != w[..i + 1];
    }
  }

  /**
   Setting the flag at the end of the non-empty path `w`, with no dead branch off that path,
   stores `w` and leaves no dead branch at all; the root is untouched, and if `w` was
   already stored nothing changes.
   */
  lemma SetWord(nodes: seq<Entry>, paths: map<string, nat>, w: string)
    requires Shape(nodes, paths) && w in paths && w != [] && PrunedOff(nodes, paths, w)
    ensures Shape(Mark(nodes, paths[w], true), paths)
    ensures Stored(Mark(nodes, paths[w], true), paths) == Stored(nodes, paths) + {w}
    ensures Pruned(Mark(nodes, paths[w], true), paths)
    ensures Mark(nodes, paths[w], true)[0] == nodes[0]
    ensures w in Stored(nodes, paths) ==> Mark(nodes, paths[w], true) == nodes
  {
    MarkStores(nodes, paths, w, true);
    assert !SameNode(paths, w, []);
    var nodes' := Mark(nodes, paths[w], true);
    var stored' := Stored(nodes', paths);
    forall p | p in paths && p != []
      ensures Below(stored', p)
    {
      if p <= w {
        assert w in stored';
      } else {
        assert Below(Stored(nodes, paths), p);
        var v :| v in Stored(nodes, paths) && p <= v;
        assert v in stored';
      }
    }
    if w in Stored(nodes, paths) {
      assert nodes[paths[w]].(flag := true) == nodes[paths[w]];
    }
  }

  /**
   Clearing the flag at the end of the non-empty path `w` in a tree with no dead branch
   removes exactly `w` and leaves no dead branch off the path of `w`; the root is
   untouched, and if `w` was not stored nothing changes and the node at `w` still roots a word.
   */
  lemma ClearWord(nodes: seq<Entry>, paths: map<string, nat>, w: string)
    requires Shape(nodes, paths) && Pruned(nodes, paths) && w in paths && w != []
    ensures Shape(Mark(nodes, paths[w], false), paths)
    ensures Stored(Mark(nodes, paths[w], false), paths) == Stored(nodes, paths) - {w}
    ensures PrunedOff(Mark(nodes, paths[w], false), paths, w)
    ensures Mark(nodes, paths[w], false)[0] == nodes[0]
    ensures w !in Stored(nodes, paths) ==>
              Mark(nodes, paths[w], false) == nodes && Below(Stored(nodes, paths), w)
  {
    MarkStores(nodes, paths, w, false);
    assert !SameNode(paths, w, []);
    var nodes' := Mark(nodes, paths[w], false);
    var stored := Stored(nodes, paths);
    forall p | p in paths && p != [] && !(p <= w)
      ensures Below(Stored(nodes', paths), p)
    {
      assert Below(stored, p);
      var v :| v in stored && p <= v;
      assert v != w && v in Stored(nodes', paths);
    }
    if w !in stored {
      assert Below(stored, w);
      assert nodes[paths[w]].(flag := false) == nodes[paths[w]];
    }
  }
}
