/** The comparison of used against defined names: `missing` and `unused` are both
    order-preserving filters of one list by membership in the other. */
module Diff {
  import opened InsertionOrder

  /** `xs.filter((v) => !excluded.includes(v))`. */
  function Without(xs: seq<string>, excluded: seq<string>): (r: seq<string>)
    ensures forall v :: v in r <==> v in xs && v !in excluded
    ensures NoDuplicates(xs) ==> NoDuplicates(r)
    decreases |xs|
  {
    if xs == [] then []
    else (if xs[0] in excluded then [] else [xs[0]]) + Without(xs[1..], excluded)
  }

  lemma FirstIndexOfTail(xs: seq<string>, y: string)
    requires |xs| > 0 && y in xs[1..] && y != xs[0]
    ensures y in xs && FirstIndex(xs, y) == 1 + FirstIndex(xs[1..], y)
  {
  }

  /** Filtering keeps the order of the list it filters. */
  lemma {:induction false} WithoutKeepsOrder(xs: seq<string>, excluded: seq<string>)
    requires NoDuplicates(xs)
    ensures forall i, j | 0 <= i < j < |Without(xs, excluded)| ::
      FirstIndex(xs, Without(xs, excluded)[i]) < FirstIndex(xs, Without(xs, excluded)[j])
    decreases |xs|
  {
    if xs != [] {
      var t := xs[1..];
      var rest := Without(t, excluded);
      assert NoDuplicates(t);
      WithoutKeepsOrder(t, excluded);
      forall y | y in t ensures y in xs && FirstIndex(xs, y) == 1 + FirstIndex(t, y) {
        assert y != xs[0];
        FirstIndexOfTail(xs, y);
      }
      if xs[0] !in excluded {
        assert Without(xs, excluded) == [xs[0]] + rest;
      }
    }
  }

  datatype Report = Report(missing: seq<string>, unused: seq<string>)

  /** `missing = usedVars.filter((v) => !definedVars.includes(v))` and
      `unused = definedVars.filter((v) => !usedVars.includes(v))`. The two lists split the
      names: every used name is either defined or missing, every defined name either used
      or unused, never both. */
  function Compare(used: seq<string>, defined: seq<string>): (r: Report)
    ensures forall v | v in used :: v in r.missing <==> v !in defined
    ensures forall v | v in defined :: v in r.unused <==> v !in used
    ensures forall v | v in r.missing :: v in used && v !in defined
    ensures forall v | v in r.unused :: v in defined && v !in used
    ensures NoDuplicates(used) ==> NoDuplicates(r.missing)
    ensures NoDuplicates(defined) ==> NoDuplicates(r.unused)
  {
    Report(Without(used, defined), Without(defined, used))
  }

  /** `missing` lists the used names in the order the used set holds them, and `unused` the
      defined names in the order they were defined. */
  lemma CompareKeepsOrder(used: seq<string>, defined: seq<string>)
    requires NoDuplicates(used) && NoDuplicates(defined)
    ensures var r := Compare(used, defined);
      && (forall i, j | 0 <= i < j < |r.missing| :: FirstIndex(used, r.missing[i]) < FirstIndex(used, r.missing[j]))
      && (forall i, j | 0 <= i < j < |r.unused| :: FirstIndex(defined, r.unused[i]) < FirstIndex(defined, r.unused[j]))
  {
    WithoutKeepsOrder(used, defined);
    WithoutKeepsOrder(defined, used);
  }

  /** A `.env` with FOO and BAR, and code that uses FOO and BAZ: BAZ is missing, BAR unused. */
  lemma CompareFooBarBaz()
    ensures Compare(["FOO", "BAZ"], ["FOO", "BAR"]) == Report(["BAZ"], ["BAR"])
  {
  }

  /** A `.env` with X and code that uses nothing: nothing is missing, X is unused. */
  lemma CompareNothingUsed()
    ensures Compare([], ["X"]) == Report([], ["X"])
  {
  }
}
