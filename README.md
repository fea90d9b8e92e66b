# trie.js — a verified model of the trie dictionary

trie.js stores a dictionary of words in a prefix tree of plain objects. Each node object
maps single characters to child objects and marks a stored word with the reserved
property `'^'`. A `Trie` owns the root object `dictionary` and offers these operations:

- `isValidPrefix(word)`: does some stored word start with `word`?
- `lookup(word)`: is `word` stored?
- `addWord(word)`: creates the missing nodes of the path and sets the mark.
- `removeWord(word)`: clears the mark and prunes the branch with `cleanupBranch`.
- `getWords()`: depth-first listing of the stored words.

`createTrieFromArray(words)` builds a trie from a list of words.

This project models those operations in Dafny.

- **Node objects in an arena.** The objects live in a sequence `nodes` of
  `Entry(flag, kids)`. A handle is an index into it, and the root `dictionary` is
  handle 0. `kids` maps a character to a child handle. `flag` stands for the `'^'`
  property being equal to 1.
- **In-place updates.** Updating an object in place is updating its entry. Deleting a
  child property drops the link. The detached object stays in the arena, unreachable,
  like garbage in JavaScript.
- **Ghost path map.** A ghost map `paths` records which string leads from the root to
  which handle. `Shape` ties it to the arena: the structure is a tree, child links point
  forward, and `paths` holds exactly the reachable strings.
- **Stored words.** The stored words are `Stored(nodes, paths)`, the paths whose node is
  terminal. Every public operation is specified against this set.
- **Pruned.** The class invariant `Valid` adds two facts. The root is never terminal.
  Every non-root node roots at least one stored word (`Pruned`).

Modules:

- `TrieStore` (`trie_store.dfy`): the arena, the shape predicates, and the three
  primitive updates: set the mark, attach an empty child, delete a child. It also holds
  the lemmas describing what each update does to the stored words.
- `TrieHelpers` (`trie_helpers.dfy`): the helper functions that read a subtree,
  `containsWords` and `getWords(dictionary, prefix)`.
- `TrieSteps` (`trie_steps.dfy`): the loop states of the descent of `addWord` and of
  `cleanupBranch`, and `cleanupBranch` itself.
- `TrieDictionary` (`trie.dfy`): the `Trie` class and `createTrieFromArray`.
- `TrieAsWritten` (`trie_sentinel.dfy`): the source's object layout with the `'^'`
  property, used only for the findings below.

The source's individual writes are the functions of `TrieStore`, each specified by lemmas
in the table below:

- `TrieStore.Mark` sets or clears the flag (`current[FLAG_INDEX] = 1` at trie.js:65 and
  `= 0` at trie.js:78). It is specified by `MarkStores`, `SetWord` and `ClearWord`.
- `TrieStore.Attach` creates an empty child (`current[c] = { }` at trie.js:61). It is
  specified by `AttachLinked`, `AttachParented`, `AttachStores` and `Grow`.
- `TrieStore.Detach` deletes a child link (`delete levels[i + 1][ch]` at trie.js:130). It
  is specified by `DetachLinked`, `DetachParented`, `DetachShape`, `DetachStores` and
  `DetachDead`.

In `TrieAsWritten`, each function models the source's own object layout:

- `AddWordAsWritten` with `Insert` models trie.js:56-66.
- `LookupAsWritten` with `Descend` models trie.js:43-51.
- `RemoveWordAsWritten` models trie.js:71-80. It uses `Gather` and `Climb`, which model
  trie.js:119-124 and trie.js:125-132.
- `ContainsWordsAsWritten` models trie.js:108-116.
- `Read`, `Write` and `Delete` are JavaScript's property read, assignment and `delete`.

These functions are stated outright and exercised by the two lemmas of the Findings table.

Walks that change the tree run on local copies of the arena and the path map, and the
fields are assigned once at the end. This matches the source's loops step for step: each
iteration that creates or deletes a property makes one `Attach` or `Detach`. The loop
states and their start, step and end lemmas live in `TrieSteps`.

## Model

| member | source | states |
|---|---|---|
| TrieDictionary.Trie.constructor | trie.js:16-22 | a new trie is well formed and stores no word |
| TrieDictionary.Trie.IsValidPrefix | trie.js:30-38 | true exactly when `word` is non-empty and some stored word starts with `word` (including `word` itself); false for the empty string and for a path that leaves the tree |
| TrieDictionary.Trie.Lookup | trie.js:43-51 | true exactly when `word` is a stored word; the empty string and a missing path give false, and a path whose end node is not terminal gives false |
| TrieDictionary.Trie.AddWord | trie.js:56-66 | the stored words become the old ones plus `word`; the empty string changes nothing; adding a stored word leaves the tree identical (idempotence); the reachable paths grow by exactly the prefixes of `word`, and every old path still leads to its old node; the trie stays well formed with no dead branch |
| TrieDictionary.Trie.RemoveWord | trie.js:71-80 | the stored words become the old ones minus `word`, so every other word is kept; the empty string, a missing path or an unstored word leaves the tree identical; afterwards exactly the root and the paths below which a word remains are reachable, at the same nodes as before |
| TrieDictionary.Trie.GetWords | trie.js:99-101 | lists exactly the stored words, none twice, each before every word that extends it |
| TrieDictionary.NonEmptyStep | trie.js:155-157 | one more element adds itself to the set of non-empty elements, or nothing if it is empty |
| TrieDictionary.CreateTrieFromArray | trie.js:153-159 | the new trie stores exactly the non-empty strings of the array |
| TrieHelpers.HasWordMeans | trie.js:108-116 | a node has a terminal node at or below it exactly when some stored word starts with the node's path |
| TrieHelpers.ContainsWords | trie.js:108-116 | the loop over the children, with its early return, answers whether a terminal node lies at or below the node |
| TrieHelpers.JoinListings | trie.js:143 | concatenating two duplicate-free depth-first listings that share no word and never list an extension before its prefix keeps both properties |
| TrieHelpers.CollectChild | trie.js:141-145 | appending a child's listing moves that child from the pending keys to the listed ones |
| TrieHelpers.CollectWords | trie.js:135-147 | lists exactly the stored words that start with `prefix`, none twice, the node's own word before its descendants' |
| TrieSteps.GrownByNothing | trie.js:57 | the path map counts as grown by the empty word when it is unchanged |
| TrieSteps.InsertStart | trie.js:58 | the descent of `addWord` starts at the root in its loop state |
| TrieSteps.InsertStep | trie.js:59-63 | following an existing child, or attaching a fresh one for a missing character, keeps the loop state: the created nodes are exactly the missing prefixes walked so far, no word is stored yet, and a stored word is never touched |
| TrieSteps.InsertEnd | trie.js:65 | setting the mark at the end stores exactly `word` in addition, leaves no dead branch, and changes nothing for a stored word |
| TrieSteps.CutStep | trie.js:128-131 | dropping the dead path of one spine entry advances the bookkeeping of removed prefixes by one |
| TrieSteps.PruneStart | trie.js:125 | the climb of `cleanupBranch` starts at the deepest node with nothing detached |
| TrieSteps.PruneStep | trie.js:126-131 | the node at each spine entry contains words exactly when a stored word starts with its path; a dead node is detached from the next entry, its parent; at the root, nothing is detached |
| TrieSteps.PruneRoot | trie.js:128 | when the climb reaches a root without words, it ends and nothing is detached |
| TrieSteps.DetachDead | trie.js:127-131 | a dead prefix of the word is a leaf, so deleting it from its parent removes that path alone and loses no word |
| TrieSteps.PruneDetach | trie.js:128-131 | the detaching step keeps the climb's loop state |
| TrieSteps.PruneEnd | trie.js:125-133 | when the climb stops, the reachable paths are exactly the root and the paths below which a word is stored; nothing else moved or changed |
| TrieSteps.CleanupBranch | trie.js:118-133 | prunes exactly the dead nodes at the end of the word's path and stops at the first ancestor that still roots a word. It never detaches the root, loses no word and leaves every other node where it was. The result has no dead branch. It changes nothing when the word's node still roots a word |
| TrieStore.Step | trie.js:33-36 | one step of a walk: the node at `w[..i]` has a child under `w[i]` exactly when `w[..i+1]` is reachable, and that child is its node |
| TrieStore.LostPath | trie.js:34 | a walk that falls off the tree reaches neither the word nor any stored word starting with it |
| TrieStore.MarkStores | trie.js:65 | setting or clearing the mark of a node adds or removes exactly the word of its path |
| TrieStore.SetWord | trie.js:65 | setting the mark at a non-empty path stores exactly that word in addition and leaves no dead branch; the root is untouched; a stored word changes nothing |
| TrieStore.ClearWord | trie.js:78 | clearing the mark at a non-empty path removes exactly that word and leaves dead nodes only along its path; an unstored word changes nothing, and its node still roots a word |
| TrieStore.AttachLinked | trie.js:60-62 | after attaching a fresh child, the extended path map still follows every child link |
| TrieStore.AttachParented | trie.js:60-62 | after attaching a fresh child, every reachable path is still reached through its parent's link |
| TrieStore.AttachStores | trie.js:60-62 | attaching a fresh empty child under a missing character keeps a well-formed tree and stores no new word |
| TrieStore.Grow | trie.js:59-63 | creating a missing node along the word's path keeps the tree well formed, stores nothing and adds no dead branch off that path |
| TrieStore.DetachLinked | trie.js:130 | after deleting a child link, the paths that remain still follow every child link |
| TrieStore.DetachParented | trie.js:130 | after deleting a child link, every remaining path is still reached through its parent |
| TrieStore.DetachShape | trie.js:130 | deleting a child link leaves a well-formed tree whose paths are those that do not start with the detached path |
| TrieStore.DetachStores | trie.js:130 | deleting a child link removes exactly the stored words that start with the detached path |
| TrieAsWritten.AddedWordNotFound | trie.js:56-66 | with the mark stored under `'^'` among the children: after `addWord("a")`, `addWord("a^")` leaves the objects unchanged, and `lookup("a^")` is false |
| TrieAsWritten.RemovingAbsentWordLosesStored | trie.js:71-80 | with the mark stored under `'^'`: after `addWord("a")`, the word `"a^"` is not stored, yet `removeWord("a^")` makes `lookup("a")` false |

## Left out

- `dumpJson`, `loadJson` and `createTrieFromJson` convert to and from JSON text. They are
  parsing and printing rather than trie logic, so they are not modelled.
- The `typeof word !== 'string'` guards are not modelled. Arguments are typed as strings,
  so only the empty-string half of each guard remains, and it is modelled.
- `TrieDictionary.Trie.AddWord` and `TrieDictionary.Trie.RemoveWord` have no results.
  - Both source functions return `false` on an empty or non-string argument.
  - `removeWord` returns `true` on a missing path.
  - Otherwise both return `undefined`.

  Callers never use these values.
- Characters are Unicode code points, not UTF-16 code units. JavaScript indexes `word[i]`
  by code unit, so the source gives a character outside the Basic Multilingual Plane two
  nodes (one per surrogate) where the model makes one. The stored-word answers agree for
  well-formed strings. The model cannot express two things:
  - a query that splits a surrogate pair, such as `isValidPrefix` of a lone high
    surrogate;
  - a word that contains a lone surrogate.
- The mark is a typed `flag` rather than the property `'^'`. The source accepts words
  that contain `'^'`, but they collide with the mark and corrupt other words. The main
  model stores them like any other word. Two Findings show the worst effects:
  - `addWord("a^")` after `addWord("a")` stores nothing.
  - `removeWord("a^")` after `addWord("a")` deletes the stored word `"a"`.

  Two more effects of the property are also gone:
  - `lookup("^")` is true after `addWord("^")`, but `getWords()` skips `"^"`.
  - `removeWord` leaves a property `'^': 0` whenever the node at the end of the word's
    path survives `cleanupBranch`. That happens when the path is not a word, or when the
    word is a prefix of another stored word. The leftover is visible only in `dumpJson`.
- Children are visited in an unspecified order. The model picks the next key
  nondeterministically, where the source uses JavaScript property order. The listing
  properties therefore hold for every order.
- `cleanupBranch` sets `levels[i] = null`. That writes only to a local array, so it is
  not modelled.
- `TrieSteps.CleanupBranch` requires that the whole path of the word exists. Its only
  caller, `removeWord`, has checked this. On a partial path, the source's second loop
  would pair nodes with the wrong characters of the word.
- `module.exports` is not modelled. It only publishes the constructor and factories.

## Findings

| source | as written | input that shows it | evidently intended | confidence | as-written member | corrected member |
|---|---|---|---|---|---|---|
| trie.js:11, trie.js:56-66 | the word mark is the property `'^'` of the node object, so it shares a namespace with the child characters | `addWord("a")` then `addWord("a^")`: the walk steps onto the number 1 under `'^'`, the write of the mark is lost, and `lookup("a^")` is false | after `addWord(w)`, `lookup(w)` is true for every non-empty `w` | medium, not executed | TrieAsWritten.AddedWordNotFound | TrieDictionary.Trie.AddWord |
| trie.js:71-80, trie.js:118-133 | `removeWord` and `cleanupBranch` walk through the property `'^'` as if it were a child | `addWord("a")` then `removeWord("a^")`: the walk and `levels` reach the number 1 under `'^'`, which contains no words, so `cleanupBranch` deletes the mark of `"a"` and then `"a"` itself; `lookup("a")` turns false | removing a word keeps every other stored word, and removing an unstored word changes nothing | medium, not executed | TrieAsWritten.RemovingAbsentWordLosesStored | TrieDictionary.Trie.RemoveWord |

In the corrected model, `TrieDictionary.Trie.AddWord` ensures `word` is in `Words()`, and
`TrieDictionary.Trie.Lookup` is true exactly for members of `Words()`. So a word added is
always found, whatever characters it contains. `TrieDictionary.Trie.RemoveWord` ensures
that the new `Words()` is the old set minus `word`, and that an unstored word leaves the
tree identical.
