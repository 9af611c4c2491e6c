/**
 Guttman's quadratic split (g_cube_picksplit).  entries[0] is the unused slot of the entry vector;
 the last entry is the new one, which the search for seeds leaves out.
 */
module CubeSplit {
  import opened CubeBox

  /** The space wasted by putting two boxes on one page. */
  function Waste(a: Cube, b: Cube): real {
    Volume(UnionOf(a, b)) - Volume(InterOf(a, b))
  }

  // --------------------------------------------------------------------------------- seeds

  type Score = (nat, nat) -> real

  /** (i, j) is looked at before (k, l). */
  predicate Sooner(i: nat, j: nat, k: nat, l: nat) {
    i < k || (i == k && j < l)
  }

  /** (s, t) scores no less than the pairs sooner than (k, l). */
  ghost predicate Greatest(score: Score, last: nat, s: nat, t: nat, k: nat, l: nat) {
    forall i: nat, j: nat :: 1 <= i < j <= last && Sooner(i, j, k, l) ==> score(i, j) <= score(s, t)
  }

  /** (s, t) scores more than all the pairs sooner than itself. */
  ghost predicate FirstOfAll(score: Score, last: nat, s: nat, t: nat) {
    forall i: nat, j: nat :: 1 <= i < j <= last && Sooner(i, j, s, t) ==> score(i, j) < score(s, t)
  }

  /** The first pair of greatest score among the pairs sooner than (k, l). */
  ghost predicate BestBefore(score: Score, last: nat, s: nat, t: nat, k: nat, l: nat) {
    1 <= s < t <= last && Sooner(s, t, k, l) && Greatest(score, last, s, t, k, l) && FirstOfAll(score, last, s, t)
  }

  /** One more pair is better than the best so far, or it is not. */
  lemma NextPair(score: Score, last: nat, s: nat, t: nat, k: nat, l: nat)
    requires BestBefore(score, last, s, t, k, l) && 1 <= k < l <= last
    ensures if score(k, l) > score(s, t) then BestBefore(score, last, k, l, k, l + 1) else BestBefore(score, last, s, t, k, l + 1)
  {
    forall i: nat, j: nat | Sooner(i, j, k, l + 1) ensures Sooner(i, j, k, l) || (i == k && j == l) {}
  }

  lemma FirstPair(score: Score, last: nat)
    requires 2 <= last
    ensures BestBefore(score, last, 1, 2, 1, 3)
  {
    forall i: nat, j: nat | 1 <= i < j && Sooner(i, j, 1, 3) ensures i == 1 && j == 2 {}
  }

  lemma NextRow(score: Score, last: nat, s: nat, t: nat, k: nat)
    requires BestBefore(score, last, s, t, k, last + 1)
    ensures BestBefore(score, last, s, t, k + 1, k + 2)
  {
    forall i: nat, j: nat | 1 <= i < j <= last && Sooner(i, j, k + 1, k + 2) ensures score(i, j) <= score(s, t) {
      assert Sooner(i, j, k, last + 1);
    }
  }

  ghost function WasteIn(entries: seq<Cube>): Score {
    (i: nat, j: nat) => if i < |entries| && j < |entries| then Waste(entries[i], entries[j]) else 0.0
  }

  /** The pair scores most of all pairs, and more than the pairs sooner than itself. */
  ghost predicate MostWasteful(score: Score, last: nat, s: nat, t: nat) {
    1 <= s < t <= last && FirstOfAll(score, last, s, t) &&
    forall i: nat, j: nat :: 1 <= i < j <= last ==> score(i, j) <= score(s, t)
  }

  /** The seeds: the first two entries if there is no pair to look at, else the most wasteful pair. */
  ghost predicate Seeds(entries: seq<Cube>, s: nat, t: nat) {
    if |entries| <= 3 then s == 1 && t == 2 else MostWasteful(WasteIn(entries), |entries| - 2, s, t)
  }

  method PairWaste(a: Cube, b: Cube) returns (waste: real)
    ensures waste == Waste(a, b)
  {
    var union := CubeUnion(a, b);
    var inter := CubeInter(a, b);
    var sizeUnion := CubeSize(union);
    var sizeInter := CubeSize(inter);
    return sizeUnion - sizeInter;
  }

  method PickSeeds(entries: seq<Cube>) returns (s: nat, t: nat)
    requires |entries| >= 3
    ensures Seeds(entries, s, t)
  {
    var maxoff := |entries| - 2;
    ghost var score := WasteIn(entries);
    var first, waste := true, 0.0;
    s, t := 1, 2;
    var i := 1;
    while i < maxoff
      invariant 1 <= i <= maxoff && (first <==> i == 1)
      invariant first ==> s == 1 && t == 2
      invariant !first ==> BestBefore(score, maxoff, s, t, i, i + 1) && waste == score(s, t)
    {
      var j := i + 1;
      while j <= maxoff
        invariant i < j <= maxoff + 1 && (first <==> i == 1 && j == 2)
        invariant first ==> s == 1 && t == 2
        invariant !first ==> BestBefore(score, maxoff, s, t, i, j) && waste == score(s, t)
      {
        var w := PairWaste(entries[i], entries[j]);
        assert w == score(i, j);
        if first { FirstPair(score, maxoff); } else { NextPair(score, maxoff, s, t, i, j); }
        if w > waste || first {
          waste, s, t, first := w, i, j, false;
        }
        j := j + 1;
      }
      NextRow(score, maxoff, s, t, i);
      i := i + 1;
    }
    if !first { LastRow(score, maxoff, s, t); }
  }

  /** Nothing is left to look at in the row of the last offset. */
  lemma LastRow(score: Score, last: nat, s: nat, t: nat)
    requires BestBefore(score, last, s, t, last, last + 1)
    ensures MostWasteful(score, last, s, t)
  {
    forall i: nat, j: nat | 1 <= i < j <= last ensures score(i, j) <= score(s, t) {
      assert Sooner(i, j, last, last + 1);
    }
  }

  // ----------------------------------------------------------------------------- placement

  /** The offsets among 1 to n that go to the given side (true for left). */
  function Chosen(choices: seq<bool>, side: bool, n: nat): seq<nat>
    requires n <= |choices|
  {
    if n == 0 then [] else Chosen(choices, side, n - 1) + if choices[n - 1] == side then [n] else []
  }

  ghost predicate Ascending(s: seq<nat>) {
    forall i, j :: 0 <= i < j < |s| ==> s[i] < s[j]
  }

  /** Each side is in order, and every offset is on the side it was given to and on no other. */
  lemma {:induction false} ChosenSplits(choices: seq<bool>, side: bool, n: nat)
    requires n <= |choices|
    ensures Ascending(Chosen(choices, side, n))
    ensures forall i: nat :: i in Chosen(choices, side, n) <==> 1 <= i <= n && choices[i - 1] == side
  {
    if n > 0 {
      ChosenSplits(choices, side, n - 1);
      var front := Chosen(choices, side, n - 1);
      forall i | 0 <= i < |front| ensures front[i] < n { assert front[i] in front; }
    }
  }

  lemma {:induction false} ChosenPrefix(choices: seq<bool>, more: seq<bool>, side: bool, n: nat)
    requires n <= |choices|
    ensures Chosen(choices + more, side, n) == Chosen(choices, side, n)
  {
    if n > 0 { ChosenPrefix(choices, more, side, n - 1); }
  }

  ghost predicate Within(entries: seq<Cube>, side: seq<nat>) {
    forall i :: 0 <= i < |side| ==> side[i] < |entries|
  }

  /** The running box of a side: its seed, joined with what was placed there in turn. */
  ghost function BoxOf(entries: seq<Cube>, seed: nat, side: seq<nat>): Cube
    requires seed < |entries| && Within(entries, side)
  {
    if side == [] then entries[seed]
    else
      var n := |side| - 1;
      var box := BoxOf(entries, seed, side[..n]);
      if side[n] == seed then box else UnionOf(box, entries[side[n]])
  }

  /** k covers the seed and the entries listed. */
  ghost predicate CoversAll(k: Cube, entries: seq<Cube>, seed: nat, side: seq<nat>)
    requires seed < |entries| && Within(entries, side)
  {
    Covers(k, entries[seed]) && forall i :: 0 <= i < |side| ==> Covers(k, entries[side[i]])
  }

  lemma CoversAllSnoc(k: Cube, entries: seq<Cube>, seed: nat, side: seq<nat>)
    requires seed < |entries| && Within(entries, side) && side != []
    ensures CoversAll(k, entries, seed, side) <==>
      CoversAll(k, entries, seed, side[..|side| - 1]) && Covers(k, entries[side[|side| - 1]])
  {
    var front := side[..|side| - 1];
    assert forall i :: 0 <= i < |front| ==> front[i] == side[i];
  }

  /** The box of a side is the least cover of its entries. */
  lemma {:induction false} BoxIsLeastCover(entries: seq<Cube>, seed: nat, side: seq<nat>, k: Cube)
    requires seed < |entries| && Within(entries, side)
    ensures Covers(k, BoxOf(entries, seed, side)) <==> CoversAll(k, entries, seed, side)
  {
    if side != [] {
      var n := |side| - 1;
      BoxIsLeastCover(entries, seed, side[..n], k);
      CoversAllSnoc(k, entries, seed, side);
      UnionLeastCover(BoxOf(entries, seed, side[..n]), entries[side[n]], k);
    }
  }

  /** Offset n went to its seed's side, or to the side whose box grows less by it (right on a tie). */
  ghost predicate LeastGrowth(entries: seq<Cube>, s: nat, t: nat, left: seq<nat>, right: seq<nat>, n: nat, choice: bool) {
    s < |entries| && t < |entries| && n < |entries| && Within(entries, left) && Within(entries, right) &&
    if n == s then choice
    else if n == t then !choice
    else choice <==> Growth(BoxOf(entries, s, left), entries[n]) < Growth(BoxOf(entries, t, right), entries[n])
  }

  ghost function Growth(box: Cube, e: Cube): real {
    Volume(UnionOf(box, e)) - Volume(box)
  }

  /** Every offset up to |choices| was placed by least growth, given those placed before it. */
  ghost predicate Greedy(entries: seq<Cube>, s: nat, t: nat, choices: seq<bool>) {
    choices == [] ||
    var n := |choices| - 1;
    var before := choices[..n];
    Greedy(entries, s, t, before) &&
    LeastGrowth(entries, s, t, Chosen(before, true, n), Chosen(before, false, n), n + 1, choices[n])
  }

  lemma GreedySnoc(entries: seq<Cube>, s: nat, t: nat, choices: seq<bool>, choice: bool)
    requires Greedy(entries, s, t, choices)
    requires LeastGrowth(entries, s, t, Chosen(choices, true, |choices|), Chosen(choices, false, |choices|), |choices| + 1, choice)
    ensures Greedy(entries, s, t, choices + [choice])
  {
    assert (choices + [choice])[..|choices|] == choices;
  }

  lemma {:induction false} SeedsOnTheirSides(entries: seq<Cube>, s: nat, t: nat, choices: seq<bool>)
    requires Greedy(entries, s, t, choices) && 1 <= s < t
    ensures (s <= |choices| ==> choices[s - 1]) && (t <= |choices| ==> !choices[t - 1])
  {
    if choices != [] { SeedsOnTheirSides(entries, s, t, choices[..|choices| - 1]); }
  }

  lemma SeedsListed(choices: seq<bool>, s: nat, t: nat)
    requires 1 <= s <= |choices| && 1 <= t <= |choices| && choices[s - 1] && !choices[t - 1]
    ensures s in Chosen(choices, true, |choices|) && t in Chosen(choices, false, |choices|)
  {
    ChosenSplits(choices, true, |choices|);
    ChosenSplits(choices, false, |choices|);
  }

  lemma BoxSnoc(entries: seq<Cube>, seed: nat, side: seq<nat>, n: nat)
    requires seed < |entries| && Within(entries, side) && n < |entries|
    ensures Within(entries, side + [n])
    ensures BoxOf(entries, seed, side + [n]) ==
      if n == seed then BoxOf(entries, seed, side) else UnionOf(BoxOf(entries, seed, side), entries[n])
  {
    assert (side + [n])[..|side|] == side;
  }

  /** A side of the split in progress: the offsets placed there and their box. */
  ghost predicate SideOk(entries: seq<Cube>, seed: nat, choices: seq<bool>, which: bool, side: seq<nat>, box: Cube) {
    seed < |entries| && side == Chosen(choices, which, |choices|) && Within(entries, side) && box == BoxOf(entries, seed, side)
  }

  lemma SideStays(entries: seq<Cube>, seed: nat, choices: seq<bool>, which: bool, side: seq<nat>, box: Cube)
    requires SideOk(entries, seed, choices, which, side, box)
    ensures SideOk(entries, seed, choices + [!which], which, side, box)
  {
    ChosenPrefix(choices, [!which], which, |choices|);
  }

  lemma SideGrows(entries: seq<Cube>, seed: nat, choices: seq<bool>, which: bool, side: seq<nat>, box: Cube, more: Cube)
    requires SideOk(entries, seed, choices, which, side, box) && |choices| + 1 < |entries|
    requires more == if |choices| + 1 == seed then box else UnionOf(box, entries[|choices| + 1])
    ensures SideOk(entries, seed, choices + [which], which, side + [|choices| + 1], more)
  {
    ChosenPrefix(choices, [which], which, |choices|);
    BoxSnoc(entries, seed, side, |choices| + 1);
  }

  /**
   What a split promises: each offset but 0 on exactly one of two ascending lists, neither of them
   empty, and for each list the least box that covers it.
   */
  ghost predicate SplitOk(entries: seq<Cube>, left: seq<nat>, right: seq<nat>, leftBox: Cube, rightBox: Cube) {
    Ascending(left) && Ascending(right) && left != [] && right != [] &&
    (forall n: nat :: 1 <= n < |entries| <==> n in left || n in right) && (forall n: nat :: !(n in left && n in right)) &&
    (forall k :: Covers(k, leftBox) <==> forall n: nat :: n < |entries| && n in left ==> Covers(k, entries[n])) &&
    (forall k :: Covers(k, rightBox) <==> forall n: nat :: n < |entries| && n in right ==> Covers(k, entries[n]))
  }

  lemma SideCovers(entries: seq<Cube>, seed: nat, side: seq<nat>, k: Cube)
    requires seed < |entries| && Within(entries, side) && seed in side
    ensures Covers(k, BoxOf(entries, seed, side)) <==> forall n: nat :: n < |entries| && n in side ==> Covers(k, entries[n])
  {
    BoxIsLeastCover(entries, seed, side, k);
    if CoversAll(k, entries, seed, side) {
      forall n: nat | n < |entries| && n in side ensures Covers(k, entries[n]) {
        var i :| 0 <= i < |side| && side[i] == n;
      }
    }
    if forall n: nat :: n < |entries| && n in side ==> Covers(k, entries[n]) {
      forall i | 0 <= i < |side| ensures Covers(k, entries[side[i]]) { assert side[i] in side; }
    }
  }

  lemma SplitDone(entries: seq<Cube>, s: nat, t: nat, choices: seq<bool>, left: seq<nat>, right: seq<nat>,
                  leftBox: Cube, rightBox: Cube)
    requires 1 <= s < t < |entries| == |choices| + 1 && Greedy(entries, s, t, choices)
    requires SideOk(entries, s, choices, true, left, leftBox) && SideOk(entries, t, choices, false, right, rightBox)
    ensures SplitOk(entries, left, right, leftBox, rightBox) && s in left && t in right
  {
    ChosenSplits(choices, true, |choices|);
    ChosenSplits(choices, false, |choices|);
    assert s in left && t in right by {
      SeedsOnTheirSides(entries, s, t, choices);
      SeedsListed(choices, s, t);
    }
    forall k ensures Covers(k, leftBox) <==> forall n: nat :: n < |entries| && n in left ==> Covers(k, entries[n]) {
      SideCovers(entries, s, left, k);
    }
    forall k ensures Covers(k, rightBox) <==> forall n: nat :: n < |entries| && n in right ==> Covers(k, entries[n]) {
      SideCovers(entries, t, right, k);
    }
  }

  /** The side for an entry that is not a seed. */
  method Place(leftBox: Cube, sizeL: real, rightBox: Cube, sizeR: real, e: Cube)
    returns (choice: bool, box: Cube, size: real)
    requires sizeL == Volume(leftBox) && sizeR == Volume(rightBox)
    ensures choice <==> Growth(leftBox, e) < Growth(rightBox, e)
    ensures box == UnionOf(if choice then leftBox else rightBox, e) && size == Volume(box)
  {
    var unionL := CubeUnion(leftBox, e);
    var unionR := CubeUnion(rightBox, e);
    var sizeA := CubeSize(unionL);
    var sizeB := CubeSize(unionR);
    if sizeA - sizeL < sizeB - sizeR {
      return true, unionL, sizeA;
    } else {
      return false, unionR, sizeB;
    }
  }

  /** g_cube_picksplit for two entries or more. */
  method PickSplit(entries: seq<Cube>)
    returns (left: seq<nat>, right: seq<nat>, leftBox: Cube, rightBox: Cube, ghost s: nat, ghost t: nat, ghost choices: seq<bool>)
    requires |entries| >= 3
    ensures SplitOk(entries, left, right, leftBox, rightBox)
    ensures Seeds(entries, s, t) && s in left && t in right
    ensures |choices| == |entries| - 1 && Greedy(entries, s, t, choices)
    ensures left == Chosen(choices, true, |choices|) && right == Chosen(choices, false, |choices|)
  {
    var seed1, seed2 := PickSeeds(entries);
    s, t := seed1, seed2;
    var h;
    h, choices := PlaceAll(entries, seed1, seed2);
    left, right, leftBox, rightBox := h.left, h.right, h.leftBox, h.rightBox;
    SplitDone(entries, s, t, choices, left, right, leftBox, rightBox);
  }

  /** The state of the second loop of g_cube_picksplit: the lists, their boxes and sizes. */
  datatype Halves = Halves(left: seq<nat>, leftBox: Cube, sizeL: real, right: seq<nat>, rightBox: Cube, sizeR: real)

  ghost predicate Halfway(entries: seq<Cube>, s: nat, t: nat, choices: seq<bool>, h: Halves) {
    SideOk(entries, s, choices, true, h.left, h.leftBox) && h.sizeL == Volume(h.leftBox) &&
    SideOk(entries, t, choices, false, h.right, h.rightBox) && h.sizeR == Volume(h.rightBox) &&
    Greedy(entries, s, t, choices)
  }

  lemma GoesLeft(entries: seq<Cube>, s: nat, t: nat, choices: seq<bool>, h: Halves, box: Cube, size: real)
    requires Halfway(entries, s, t, choices, h) && |choices| + 1 < |entries| && size == Volume(box)
    requires LeastGrowth(entries, s, t, h.left, h.right, |choices| + 1, true)
    requires box == if |choices| + 1 == s then h.leftBox else UnionOf(h.leftBox, entries[|choices| + 1])
    ensures Halfway(entries, s, t, choices + [true], h.(left := h.left + [|choices| + 1], leftBox := box, sizeL := size))
  {
    SideGrows(entries, s, choices, true, h.left, h.leftBox, box);
    SideStays(entries, t, choices, false, h.right, h.rightBox);
    GreedySnoc(entries, s, t, choices, true);
  }

  lemma GoesRight(entries: seq<Cube>, s: nat, t: nat, choices: seq<bool>, h: Halves, box: Cube, size: real)
    requires Halfway(entries, s, t, choices, h) && |choices| + 1 < |entries| && size == Volume(box)
    requires LeastGrowth(entries, s, t, h.left, h.right, |choices| + 1, false)
    requires box == if |choices| + 1 == t then h.rightBox else UnionOf(h.rightBox, entries[|choices| + 1])
    ensures Halfway(entries, s, t, choices + [false], h.(right := h.right + [|choices| + 1], rightBox := box, sizeR := size))
  {
    SideGrows(entries, t, choices, false, h.right, h.rightBox, box);
    SideStays(entries, s, choices, true, h.left, h.leftBox);
    GreedySnoc(entries, s, t, choices, false);
  }

  /** One round: offset i goes to a side. */
  method PlaceOne(entries: seq<Cube>, s: nat, t: nat, i: nat, ghost choices: seq<bool>, h: Halves)
    returns (next: Halves, ghost choice: bool)
    requires 1 <= s < t < |entries| && |choices| == i - 1 && i < |entries| && Halfway(entries, s, t, choices, h)
    ensures Halfway(entries, s, t, choices + [choice], next)
  {
    if i == s {
      GoesLeft(entries, s, t, choices, h, h.leftBox, h.sizeL);
      return h.(left := h.left + [i]), true;
    } else if i == t {
      GoesRight(entries, s, t, choices, h, h.rightBox, h.sizeR);
      return h.(right := h.right + [i]), false;
    }
    var toLeft, box, size := Place(h.leftBox, h.sizeL, h.rightBox, h.sizeR, entries[i]);
    if toLeft {
      GoesLeft(entries, s, t, choices, h, box, size);
      return h.(left := h.left + [i], leftBox := box, sizeL := size), true;
    } else {
      GoesRight(entries, s, t, choices, h, box, size);
      return h.(right := h.right + [i], rightBox := box, sizeR := size), false;
    }
  }

  /** The second loop of g_cube_picksplit. */
  method PlaceAll(entries: seq<Cube>, s: nat, t: nat) returns (h: Halves, ghost choices: seq<bool>)
    requires 1 <= s < t < |entries|
    ensures |choices| == |entries| - 1 && Halfway(entries, s, t, choices, h)
  {
    var sizeL := CubeSize(entries[s]);
    var sizeR := CubeSize(entries[t]);
    h, choices := Halves([], entries[s], sizeL, [], entries[t], sizeR), [];
    var i := 1;
    while i < |entries|
      invariant 1 <= i <= |entries| && |choices| == i - 1
      invariant Halfway(entries, s, t, choices, h)
    {
      ghost var choice;
      h, choice := PlaceOne(entries, s, t, i, choices, h);
      choices := choices + [choice];
      i := i + 1;
    }
  }
}
