/** Parts of sequences, by position: what is kept, how often, and in which order. */
module Enumerations {
  import opened Folding

  function Itself<T>(): T -> T {
    (x: T) => x
  }

  ghost predicate Ascending(at: seq<nat>) {
    forall i, j | 0 <= i < j < |at| :: at[i] < at[j]
  }

  /** `at` is the positions of the elements to keep, and `part` what is made of them, one for one and in order. */
  ghost predicate SelectsAt<S, T>(whole: seq<S>, keep: S -> bool, make: S -> T, part: seq<T>, at: seq<nat>) {
    && Ascending(at)
    && (forall i: nat :: i in at <==> i < |whole| && keep(whole[i]))
    && |part| == |at|
    && forall k | 0 <= k < |at| :: at[k] < |whole| && part[k] == make(whole[at[k]])
  }

  /** `part` is exactly the elements of `whole` to keep, each as often as it occurs, in the order of `whole`. */
  ghost predicate Selects<S, T>(whole: seq<S>, keep: S -> bool, make: S -> T, part: seq<T>) {
    forall u {:trigger Unfold(u)} | Unfold(u) :: exists at :: SelectsAt(whole, keep, make, part, at)
  }

  lemma PositionsOf<S, T>(whole: seq<S>, keep: S -> bool, make: S -> T, part: seq<T>) returns (at: seq<nat>)
    requires Selects(whole, keep, make, part)
    ensures SelectsAt(whole, keep, make, part, at)
  {
    assert Unfold(true);
    at :| SelectsAt(whole, keep, make, part, at);
  }

  lemma SelectsNone<S, T>(keep: S -> bool, make: S -> T)
    ensures Selects([], keep, make, [])
  {
    var whole: seq<S>, part: seq<T> := [], [];
    assert SelectsAt(whole, keep, make, part, []);
  }

  lemma SelectsNext<S, T>(whole: seq<S>, keep: S -> bool, make: S -> T, part: seq<T>, x: S)
    requires Selects(whole, keep, make, part)
    ensures Selects(whole + [x], keep, make, part + if keep(x) then [make(x)] else [])
  {
    var at := PositionsOf(whole, keep, make, part);
    var whole' := whole + [x];
    if keep(x) {
      AppendedPositions(whole, keep, make, part, at, x);
    } else {
      assert part + [] == part;
      forall i: nat ensures i in at <==> i < |whole'| && keep(whole'[i]) {
        assert i < |whole| ==> whole'[i] == whole[i];
      }
      assert SelectsAt(whole', keep, make, part, at);
    }
  }

  function Shifted(at: seq<nat>): seq<nat> {
    seq(|at|, k requires 0 <= k < |at| => at[k] + 1)
  }

  lemma ShiftedMember(at: seq<nat>, i: nat)
    ensures i in Shifted(at) <==> i > 0 && i - 1 in at
  {
    if i > 0 && i - 1 in at {
      var k :| 0 <= k < |at| && at[k] == i - 1;
      assert Shifted(at)[k] == i;
    }
    if i in Shifted(at) {
      var k :| 0 <= k < |at| && Shifted(at)[k] == i;
      assert at[k] == i - 1;
    }
  }

  lemma FirstMember(at: seq<nat>, i: nat)
    ensures i in [0] + Shifted(at) <==> i == 0 || i - 1 in at
  {
    ShiftedMember(at, i);
    assert i in [0] + Shifted(at) <==> i == 0 || i in Shifted(at);
  }

  /** The same with an element in front. */
  lemma SelectsBefore<S, T>(whole: seq<S>, keep: S -> bool, make: S -> T, part: seq<T>, x: S)
    requires Selects(whole, keep, make, part)
    ensures Selects([x] + whole, keep, make, (if keep(x) then [make(x)] else []) + part)
  {
    var at := PositionsOf(whole, keep, make, part);
    if keep(x) {
      KeptBefore(whole, keep, make, part, x, at);
    } else {
      assert [] + part == part;
      LeftBefore(whole, keep, make, part, x, at);
    }
  }

  lemma KeptPositions<S>(whole: seq<S>, keep: S -> bool, x: S, at: seq<nat>)
    requires (forall i: nat :: i in at <==> i < |whole| && keep(whole[i])) && keep(x)
    ensures forall i: nat :: i in [0] + Shifted(at) <==> i < |[x] + whole| && keep(([x] + whole)[i])
  {
    var whole' := [x] + whole;
    forall i: nat ensures i in [0] + Shifted(at) <==> i < |whole'| && keep(whole'[i]) {
      FirstMember(at, i);
      assert 0 < i < |whole'| ==> whole'[i] == whole[i - 1];
    }
  }

  lemma KeptBefore<S, T>(whole: seq<S>, keep: S -> bool, make: S -> T, part: seq<T>, x: S, at: seq<nat>)
    requires SelectsAt(whole, keep, make, part, at) && keep(x)
    ensures SelectsAt([x] + whole, keep, make, [make(x)] + part, [0] + Shifted(at))
  {
    var at', whole', part' := [0] + Shifted(at), [x] + whole, [make(x)] + part;
    KeptPositions(whole, keep, x, at);
    assert Ascending(Shifted(at));
    forall k | 0 <= k < |at'| ensures at'[k] < |whole'| && part'[k] == make(whole'[at'[k]]) {
      if k > 0 {
        assert whole'[at[k - 1] + 1] == whole[at[k - 1]];
      }
    }
  }

  lemma LeftBefore<S, T>(whole: seq<S>, keep: S -> bool, make: S -> T, part: seq<T>, x: S, at: seq<nat>)
    requires SelectsAt(whole, keep, make, part, at) && !keep(x)
    ensures SelectsAt([x] + whole, keep, make, part, Shifted(at))
  {
    var at', whole' := Shifted(at), [x] + whole;
    forall i: nat ensures i in at' <==> i < |whole'| && keep(whole'[i]) {
      ShiftedMember(at, i);
      assert 0 < i < |whole'| ==> whole'[i] == whole[i - 1];
    }
    forall k | 0 <= k < |at'| ensures at'[k] < |whole'| && part[k] == make(whole'[at'[k]]) {
      assert at[k] in at && whole'[at[k] + 1] == whole[at[k]];
    }
  }

  /** Where everything is kept, nothing changes. */
  lemma SelectsAll<T>(whole: seq<T>, keep: T -> bool)
    requires forall x | x in whole :: keep(x)
    ensures Selects(whole, keep, Itself(), whole)
  {
    var at: seq<nat> := seq(|whole|, k requires 0 <= k < |whole| => k);
    forall i: nat ensures i in at <==> i < |whole| {
      assert i < |whole| ==> at[i] == i;
    }
    assert SelectsAt(whole, keep, Itself(), whole, at);
  }

  lemma SameSelects<S, T>(whole: seq<S>, keep: S -> bool, make: S -> T, part: seq<T>, whole': seq<S>, part': seq<T>)
    requires Selects(whole, keep, make, part) && whole == whole' && part == part'
    ensures Selects(whole', keep, make, part')
  {
  }

  lemma AppendedPositions<S, T>(whole: seq<S>, keep: S -> bool, make: S -> T, part: seq<T>, at: seq<nat>, x: S)
    requires SelectsAt(whole, keep, make, part, at) && keep(x)
    ensures SelectsAt(whole + [x], keep, make, part + [make(x)], at + [|whole|])
  {
    var at', whole', part' := at + [|whole|], whole + [x], part + [make(x)];
    forall i: nat ensures i in at' <==> i < |whole'| && keep(whole'[i]) {
      assert i in at' <==> i in at || i == |whole|;
      assert i < |whole| ==> whole'[i] == whole[i];
    }
    forall k | 0 <= k < |at'| ensures at'[k] < |whole'| && part'[k] == make(whole'[at'[k]]) {
      if k < |at| {
        assert at[k] in at && whole'[at[k]] == whole[at[k]];
      }
    }
    forall i, j | 0 <= i < j < |at'| ensures at'[i] < at'[j] {
      assert at[i] in at;
    }
  }

  // What a selection says without positions.

  lemma SelectsMembers<S, T>(whole: seq<S>, keep: S -> bool, make: S -> T, part: seq<T>, y: T)
    requires Selects(whole, keep, make, part)
    ensures y in part <==> exists x | x in whole && keep(x) :: y == make(x)
  {
    var at := PositionsOf(whole, keep, make, part);
    if x :| x in whole && keep(x) && y == make(x) {
      var i: nat :| i < |whole| && whole[i] == x;
      assert i in at;
      var k :| 0 <= k < |at| && at[k] == i;
      assert part[k] == y;
    }
    if y in part {
      var k :| 0 <= k < |part| && part[k] == y;
      assert at[k] in at && whole[at[k]] in whole;
    }
  }

  // Parts laid end to end.

  /** `blocks[i]` is where the part of `whole` that belongs to `i` begins. */
  ghost predicate InBlocks<S, T>(keys: seq<S>, part: S -> seq<T>, whole: seq<T>, blocks: seq<nat>) {
    forall u {:trigger Unfold(u)} | Unfold(u) :: BlocksAt(keys, part, whole, blocks)
  }

  ghost predicate BlocksAt<S, T>(keys: seq<S>, part: S -> seq<T>, whole: seq<T>, blocks: seq<nat>) {
    && |blocks| == |keys| + 1 && blocks[0] == 0 && blocks[|keys|] == |whole|
    && forall i | 0 <= i < |keys| :: Block(part(keys[i]), whole, blocks[i], blocks, i + 1)
  }

  ghost predicate Block<T>(part: seq<T>, whole: seq<T>, begin: nat, blocks: seq<nat>, next: nat) {
    next < |blocks| && begin <= blocks[next] <= |whole| && whole[begin..blocks[next]] == part
  }

  lemma BlocksNext<S, T>(keys: seq<S>, part: S -> seq<T>, whole: seq<T>, blocks: seq<nat>, key: S)
    requires InBlocks(keys, part, whole, blocks)
    ensures InBlocks(keys + [key], part, whole + part(key), blocks + [|whole| + |part(key)|])
  {
    assert Unfold(true);
    var keys', whole', blocks' := keys + [key], whole + part(key), blocks + [|whole| + |part(key)|];
    forall i | 0 <= i < |keys'| ensures Block(part(keys'[i]), whole', blocks'[i], blocks', i + 1) {
      if i < |keys| {
        assert Block(part(keys[i]), whole, blocks[i], blocks, i + 1);
        assert whole'[blocks[i]..blocks[i + 1]] == whole[blocks[i]..blocks[i + 1]];
      }
    }
  }

  lemma SameBlocks<S, T>(keys: seq<S>, part: S -> seq<T>, whole: seq<T>, blocks: seq<nat>, keys': seq<S>,
                         whole': seq<T>)
    requires InBlocks(keys, part, whole, blocks) && keys == keys' && whole == whole'
    ensures InBlocks(keys', part, whole', blocks)
  {
  }

  lemma NoBlocks<S, T>(part: S -> seq<T>)
    ensures InBlocks([], part, [], [0])
  {
  }

  function Flat<S, T>(keys: seq<S>, part: S -> seq<T>): seq<T> {
    if keys == [] then [] else Flat(keys[..|keys| - 1], part) + part(keys[|keys| - 1])
  }

  lemma {:induction false} FlatInBlocks<S, T>(keys: seq<S>, part: S -> seq<T>) returns (blocks: seq<nat>)
    ensures InBlocks(keys, part, Flat(keys, part), blocks)
    decreases |keys|
  {
    if keys == [] {
      NoBlocks(part);
      blocks := [0];
    } else {
      var front, last := keys[..|keys| - 1], keys[|keys| - 1];
      blocks := FlatInBlocks(front, part);
      BlocksNext(front, part, Flat(front, part), blocks, last);
      blocks := blocks + [|Flat(front, part)| + |part(last)|];
      SameBlocks(front + [last], part, Flat(front, part) + part(last), blocks, keys, Flat(keys, part));
    }
  }

  // Counting.

  function Filter<T>(whole: seq<T>, keep: T -> bool): seq<T> {
    if whole == [] then []
    else Filter(whole[..|whole| - 1], keep) + if keep(whole[|whole| - 1]) then [whole[|whole| - 1]] else []
  }

  lemma FilterLast<T>(front: seq<T>, last: T, keep: T -> bool)
    ensures multiset(Filter(front + [last], keep)) ==
            multiset(Filter(front, keep)) + if keep(last) then multiset{last} else multiset{}
  {
    assert (front + [last])[..|front|] == front;
  }

  /** What a test keeps and what the opposite test keeps are everything, each as often as it occurs. */
  lemma {:induction false} FilterSplits<T>(whole: seq<T>, keep: T -> bool, other: T -> bool)
    requires forall x | x in whole :: keep(x) == !other(x)
    ensures multiset(Filter(whole, keep)) + multiset(Filter(whole, other)) == multiset(whole)
    decreases |whole|
  {
    if whole != [] {
      var front, last := whole[..|whole| - 1], whole[|whole| - 1];
      assert front + [last] == whole;
      FilterSplits(front, keep, other);
      FilterLast(front, last, keep);
      FilterLast(front, last, other);
    }
  }
}
