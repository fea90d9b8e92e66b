/**
 trie.js as written keeps the terminal mark of a node in the same object as its children,
 under the property `'^'`. This module models that layout closely enough to show that a
 word containing `'^'` collides with the mark:
 - after `addWord("a")`, `addWord("a^")` does not store `"a^"`;
 - after `addWord("a")`, `removeWord("a^")` deletes the stored word `"a"`.
 The rest of the project uses a separate flag instead (see `TrieStore`).
 */
module TrieAsWritten {
  /** A property read on a node object: a child object, a number, or `undefined`. */
  datatype Value = Ref(handle: nat) | Num(n: int) | Undefined

  datatype Option<T> = None | Some(value: T)

  /** An object maps property names (here single characters) to values. */
  type Object = map<char, Value>

  /** `FLAG_INDEX`. */
  const Mark: char := '^'

  /** `current[k]` on a value: only objects have own properties. */
  function Read(heap: seq<Object>, current: Value, k: char): Value
  {
    if current.Ref? && current.handle < |heap| && k in heap[current.handle] then heap[current.handle][k]
    else Undefined
  }

  /** JavaScript truthiness of a read value. */
  predicate Truthy(v: Value)
  {
    v.Ref? || (v.Num? && v.n != 0)
  }

  /** `current[k] = x`: outside strict mode a write to a property of a number is silently lost. */
  function Write(heap: seq<Object>, current: Value, k: char, x: Value): (r: seq<Object>)
    ensures |r| == |heap|
    ensures !x.Ref? && Ordered(heap) ==> Ordered(r)
  {
    if current.Ref? && current.handle < |heap| then heap[current.handle := heap[current.handle][k := x]]
    else heap
  }

  /** `delete current[k]`: deleting a property of a number does nothing. */
  function Delete(heap: seq<Object>, current: Value, k: char): (r: seq<Object>)
    ensures |r| == |heap|
    ensures Ordered(heap) ==> Ordered(r)
  {
    if current.Ref? && current.handle < |heap| then heap[current.handle := heap[current.handle] - {k}]
    else heap
  }

  /** Every object links only to objects created after it, as `addWord` creates them. */
  ghost predicate Ordered(heap: seq<Object>)
  {
    forall h, k :: 0 <= h < |heap| && k in heap[h] && heap[h][k].Ref? ==> h < heap[h][k].handle
  }

  /**
   The loop of `addWord` from `current` over the characters still to insert, then the store
   of the mark. Assignments to a property of a number are silently lost; a property read on
   `undefined` throws, which yields `None`.
   */
  function Insert(heap: seq<Object>, current: Value, rest: string): Option<seq<Object>>
    decreases |rest|
  {
    if current.Undefined? then None
    else if rest == [] then Some(Write(heap, current, Mark, Num(1)))
    else if Truthy(Read(heap, current, rest[0])) then
      Insert(heap, Read(heap, current, rest[0]), rest[1..])
    else if current.Ref? && current.handle < |heap| then
      var child := |heap|;
      var heap' := heap[current.handle := heap[current.handle][rest[0] := Ref(child)]] + [map[]];
      Insert(heap', Ref(child), rest[1..])
    else
      Insert(heap, Undefined, rest[1..])
  }

  /** `addWord(word)` as written on the dictionary object at handle 0. */
  function AddWordAsWritten(heap: seq<Object>, word: string): Option<seq<Object>>
  {
    if word == [] then Some(heap) else Insert(heap, Ref(0), word)
  }

  /**
   The walk shared by `lookup` and `removeWord`: follow `rest` while every read is truthy,
   and give the value reached, or `None` at the first falsy read.
   */
  function Descend(heap: seq<Object>, current: Value, rest: string): Option<Value>
    decreases |rest|
  {
    if rest == [] then Some(current)
    else if !Truthy(Read(heap, current, rest[0])) then None
    else Descend(heap, Read(heap, current, rest[0]), rest[1..])
  }

  /** `lookup(word)` as written: the walk, then the test of the mark against 1. */
  function LookupAsWritten(heap: seq<Object>, word: string): bool
  {
    word != [] && Descend(heap, Ref(0), word).Some? && Read(heap, Descend(heap, Ref(0), word).value, Mark) == Num(1)
  }

  /**
   `containsWords(dictionary)` as written: the mark is 1, or some own property other than
   the mark holds a value that contains words. A number has neither.
   */
  predicate ContainsWordsAsWritten(heap: seq<Object>, v: Value)
    requires Ordered(heap)
    decreases if v.Ref? && v.handle < |heap| then |heap| - v.handle else 0
  {
    || Read(heap, v, Mark) == Num(1)
    || (v.Ref? && v.handle < |heap| &&
        exists k :: k in heap[v.handle] && k != Mark && ContainsWordsAsWritten(heap, heap[v.handle][k]))
  }

  /**
   The first loop of `cleanupBranch`: with `levels[0]` the value reached by `word[..i]`,
   push the value under each further character of `word` in front, until a read is falsy.
   */
  function Gather(heap: seq<Object>, word: string, i: nat, levels: seq<Value>): (r: seq<Value>)
    requires i <= |word| && |levels| == i + 1
    ensures |r| <= |word| + 1
    decreases |word| - i
  {
    if i == |word| || !Truthy(Read(heap, levels[0], word[i])) then levels
    else Gather(heap, word, i + 1, [Read(heap, levels[0], word[i])] + levels)
  }

  /**
   The second loop of `cleanupBranch` from entry `i`: stop at the first entry that contains
   words; otherwise delete the property `word[|word| - (i + 1)]` of the next entry, if any.
   */
  function Climb(heap: seq<Object>, word: string, levels: seq<Value>, i: nat): seq<Object>
    requires Ordered(heap) && |levels| <= |word| + 1
    decreases |levels| - i
  {
    if i >= |levels| || ContainsWordsAsWritten(heap, levels[i]) then heap
    else if i + 1 < |levels| && Truthy(levels[i + 1]) then
      Climb(Delete(heap, levels[i + 1], word[|word| - (i + 1)]), word, levels, i + 1)
    else Climb(heap, word, levels, i + 1)
  }

  /**
   `removeWord(word)` as written: the walk, the store of 0 under the mark of the value
   reached, then `cleanupBranch(dictionary, word)`.
   */
  function RemoveWordAsWritten(heap: seq<Object>, word: string): seq<Object>
    requires Ordered(heap)
  {
    if word == [] || Descend(heap, Ref(0), word).None? then heap
    else
      var cleared := Write(heap, Descend(heap, Ref(0), word).value, Mark, Num(0));
      Climb(cleared, word, Gather(cleared, word, 0, [Ref(0)]), 0)
  }

  /**
   After `addWord("a")`, the mark of `"a"` is the number 1 under `'^'`; `addWord("a^")`
   walks onto that number, its store of the mark is lost, and `lookup("a^")` is false.
   */
  lemma AddedWordNotFound()
    ensures AddWordAsWritten([map[]], "a").Some?
    ensures var one := AddWordAsWritten([map[]], "a").value;
      && LookupAsWritten(one, "a")
      && AddWordAsWritten(one, "a^") == Some(one)
      && !LookupAsWritten(AddWordAsWritten(one, "a^").value, "a^")
  {
    var one := AddWordAsWritten([map[]], "a").value;
    assert one == [map['a' := Ref(1)], map[Mark := Num(1)]];
  }

  /**
   After `addWord("a")`, `removeWord("a^")` of a word that is not stored walks onto the
   number under `'^'` and gathers it as the deepest level. It contains no words, so the
   climb deletes the mark of `"a"`, then `"a"` itself: `lookup("a")` turns false.
   */
  lemma RemovingAbsentWordLosesStored()
    ensures AddWordAsWritten([map[]], "a").Some?
    ensures var one := AddWordAsWritten([map[]], "a").value;
      && Ordered(one)
      && LookupAsWritten(one, "a")
      && !LookupAsWritten(one, "a^")
      && !LookupAsWritten(RemoveWordAsWritten(one, "a^"), "a")
  {
    var one := AddWordAsWritten([map[]], "a").value;
    assert one == [map['a' := Ref(1)], map[Mark := Num(1)]];
    assert Descend(one, Ref(0), "a^") == Some(Num(1));
    assert Write(one, Num(1), Mark, Num(0)) == one;
    var levels := Gather(one, "a^", 0, [Ref(0)]);
    assert levels == [Num(1), Ref(1), Ref(0)];
    assert !ContainsWordsAsWritten(one, Num(1));
    var two := Delete(one, Ref(1), Mark);
    assert two == [map['a' := Ref(1)], map[]];
    assert !ContainsWordsAsWritten(two, Ref(1));
    var three := Delete(two, Ref(0), 'a');
    assert three == [map[], map[]];
    assert !ContainsWordsAsWritten(three, Ref(0));
    assert Climb(three, "a^", levels, 2) == three;
    assert Climb(two, "a^", levels, 1) == three;
    assert Climb(one, "a^", levels, 0) == three;
    assert RemoveWordAsWritten(one, "a^") == three;
  }
}
