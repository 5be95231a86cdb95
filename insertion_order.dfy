/** A JavaScript `Set` seen through its iteration order: `add` appends a value it does not
    hold yet and ignores one it does, so `Array.from(set)` lists every value once, in the
    order of its first insertion. */
module InsertionOrder {

  predicate NoDuplicates(xs: seq<string>) {
    forall i, j | 0 <= i < j < |xs| :: xs[i] != xs[j]
  }

  /** `set.add(x)`. */
  function Insert(acc: seq<string>, x: string): (r: seq<string>)
    ensures acc <= r
    ensures forall y :: y in r <==> y in acc || y == x
    ensures NoDuplicates(acc) ==> NoDuplicates(r)
  {
    if x in acc then acc else acc + [x]
  }

  /** Adding the values `xs` one after another to a set that holds `acc`. */
  function AddAll(acc: seq<string>, xs: seq<string>): (r: seq<string>)
    ensures acc <= r
    ensures forall y :: y in r <==> y in acc || y in xs
    ensures NoDuplicates(acc) ==> NoDuplicates(r)
    decreases |xs|
  {
    if xs == [] then acc
    else
      var init := xs[..|xs| - 1];
      assert forall y :: y in xs <==> y in init || y == xs[|xs| - 1];
      Insert(AddAll(acc, init), xs[|xs| - 1])
  }

  /** `Array.from(new Set(xs))`. */
  function Dedup(xs: seq<string>): (r: seq<string>)
    ensures NoDuplicates(r)
    ensures forall y :: y in r <==> y in xs
  {
    AddAll([], xs)
  }

  /** Adding two batches one after the other is adding their concatenation. */
  lemma {:induction false} AddAllAppend(acc: seq<string>, xs: seq<string>, ys: seq<string>)
    ensures AddAll(acc, xs + ys) == AddAll(AddAll(acc, xs), ys)
    decreases |ys|
  {
    if ys == [] {
      assert xs + ys == xs;
    } else {
      var init := ys[..|ys| - 1];
      assert (xs + ys)[..|xs + ys| - 1] == xs + init;
      AddAllAppend(acc, xs, init);
    }
  }

  /** Adding values the set already holds changes nothing. */
  lemma {:induction false} AddAllKnown(acc: seq<string>, xs: seq<string>)
    requires forall x | x in xs :: x in acc
    ensures AddAll(acc, xs) == acc
    decreases |xs|
  {
    if xs != [] {
      var init := xs[..|xs| - 1];
      assert forall x | x in init :: x in xs;
      AddAllKnown(acc, init);
      assert xs[|xs| - 1] in xs;
    }
  }

  /** The position of the first `x` in `xs`. */
  function FirstIndex(xs: seq<string>, x: string): (k: nat)
    requires x in xs
    ensures k < |xs| && xs[k] == x && x !in xs[..k]
  {
    if xs[0] == x then 0
    else
      var k := 1 + FirstIndex(xs[1..], x);
      assert xs[..k] == [xs[0]] + xs[1..][..k - 1];
      k
  }

  lemma FirstIndexOfPrefix(xs: seq<string>, ys: seq<string>, x: string)
    requires x in xs
    ensures x in xs + ys && FirstIndex(xs + ys, x) == FirstIndex(xs, x)
  {
    var k := FirstIndex(xs, x);
    var j := FirstIndex(xs + ys, x);
    assert (xs + ys)[k] == x;
  }

  /** A set lists its values in the order in which they first occur among the added values. */
  lemma {:induction false} DedupKeepsFirstOccurrenceOrder(xs: seq<string>)
    ensures forall i, j | 0 <= i < j < |Dedup(xs)| :: FirstIndex(xs, Dedup(xs)[i]) < FirstIndex(xs, Dedup(xs)[j])
    decreases |xs|
  {
    if xs != [] {
      var init := xs[..|xs| - 1];
      var x := xs[|xs| - 1];
      var r := Dedup(init);
      assert xs == init + [x];
      DedupKeepsFirstOccurrenceOrder(init);
      forall y | y in init ensures FirstIndex(xs, y) == FirstIndex(init, y) {
        FirstIndexOfPrefix(init, [x], y);
      }
      if x !in r {
        assert Dedup(xs) == r + [x];
        assert FirstIndex(xs, x) == |init|;
      }
    }
  }

  /** Adding values that are all new and distinct appends them unchanged. */
  lemma {:induction false} DedupOfDistinct(xs: seq<string>)
    requires NoDuplicates(xs)
    ensures Dedup(xs) == xs
    decreases |xs|
  {
    if xs != [] {
      var init := xs[..|xs| - 1];
      assert NoDuplicates(init);
      DedupOfDistinct(init);
      assert xs[|xs| - 1] !in init;
      assert init + [xs[|xs| - 1]] == xs;
    }
  }

  /** `xs.flatMap(f)`: the lists `f` gives, one after another. */
  function FlatMap<T>(xs: seq<T>, f: T -> seq<string>): seq<string>
    decreases |xs|
  {
    if xs == [] then [] else FlatMap(xs[..|xs| - 1], f) + f(xs[|xs| - 1])
  }

  /** Mapping one more value appends its block. */
  lemma FlatMapSnoc<T>(xs: seq<T>, x: T, f: T -> seq<string>)
    ensures FlatMap(xs + [x], f) == FlatMap(xs, f) + f(x)
  {
    assert (xs + [x])[..|xs|] == xs;
  }

  /** A value is in a flat-map exactly when one of the blocks holds it. */
  lemma {:induction false} FlatMapMembers<T>(xs: seq<T>, f: T -> seq<string>)
    ensures forall y :: y in FlatMap(xs, f) <==> exists k | 0 <= k < |xs| :: y in f(xs[k])
    decreases |xs|
  {
    if xs != [] {
      var init := xs[..|xs| - 1];
      FlatMapMembers(init, f);
      forall y ensures y in FlatMap(xs, f) <==> exists k | 0 <= k < |xs| :: y in f(xs[k]) {
        if k :| 0 <= k < |xs| && y in f(xs[k]) {
          if k < |init| {
            assert init[k] == xs[k];
          }
        }
        if y in FlatMap(init, f) {
          var k :| 0 <= k < |init| && y in f(init[k]);
          assert init[k] == xs[k];
        }
      }
    }
  }

  /** `xss.flat()`: a path is in it exactly when one of the glob results holds it. */
  function Concat(xss: seq<seq<string>>): (r: seq<string>)
    ensures forall x :: x in r <==> exists k | 0 <= k < |xss| :: x in xss[k]
  {
    var id := (paths: seq<string>) => paths;
    FlatMapMembers(xss, id);
    FlatMap(xss, id)
  }
}
