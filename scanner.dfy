/** The scanning pass: the shared global RegExp objects, the `Set` of used names, the
    `exec` loops over one file's text, and the loop over all files. */
module Scanner {
  import opened Patterns
  import opened InsertionOrder
  import opened Names

  /** A global (`/g`) RegExp object: its pattern and the `lastIndex` that `exec` reads and
      writes. */
  class GlobalRegex {
    const pattern: Pattern
    var lastIndex: nat

    constructor (p: Pattern)
      ensures pattern == p && lastIndex == 0
    {
      pattern := p;
      lastIndex := 0;
    }

    /** `this.exec(s)`: searches from `lastIndex`; a match moves `lastIndex` to its end, a
        failed search (or a `lastIndex` past the end of `s`) resets it to 0. */
    method Exec(s: string) returns (m: Option<Match>)
      modifies this
      ensures m == if old(lastIndex) <= |s| then ExecFrom(pattern, s, old(lastIndex)) else None
      ensures lastIndex == if m.Some? then m.value.end else 0
    {
      if lastIndex > |s| {
        m := None;
      } else {
        m := ExecFrom(pattern, s, lastIndex);
      }
      lastIndex := if m.Some? then m.value.end else 0;
    }
  }

  /** The `Set` of used names, as the list of its values in insertion order. */
  class UsedVarSet {
    var items: seq<string>

    ghost predicate Valid()
      reads this
    {
      NoDuplicates(items)
    }

    constructor ()
      ensures Valid() && items == []
    {
      items := [];
    }

    /** `set.add(name)`. */
    method Add(name: string)
      requires Valid()
      modifies this
      ensures Valid() && items == Insert(old(items), name)
    {
      if name !in items {
        items := items + [name];
      }
    }
  }

  /** What an exec loop has still to see after `exec` returned `m`. */
  ghost function Pending(p: Pattern, s: string, m: Option<Match>): seq<string>
    requires m.Some? ==> m.value.end <= |s|
  {
    if m.None? then [] else [m.value.capture] + Captures(p, s, m.value.end)
  }

  /** One step of an exec loop: the search from `from` finds a non-empty match at or after
      `from`, and what remains to be seen is its capture and what follows it. */
  lemma ExecStep(p: Pattern, s: string, from: nat)
    requires from <= |s|
    ensures var m := ExecFrom(p, s, from);
      && (m.Some? ==> from <= m.value.start < m.value.end <= |s| && m.value.capture != [])
      && Captures(p, s, from) == Pending(p, s, m)
  {
  }

  /** Moving past one match: its capture joins what has been seen. */
  lemma SeenStep(p: Pattern, s: string, seen: seq<string>, m: Option<Match>)
    requires m.Some? && m.value.end <= |s|
    requires seen + Pending(p, s, m) == Captures(p, s, 0)
    ensures (seen + [m.value.capture]) + Captures(p, s, m.value.end) == Captures(p, s, 0)
  {
  }

  /** Adding one more value to a batch is one more `add`. */
  lemma AddAllSnoc(acc: seq<string>, xs: seq<string>, x: string)
    ensures AddAll(acc, xs + [x]) == Insert(AddAll(acc, xs), x)
  {
    assert (xs + [x])[..|xs|] == xs;
  }

  /** `while ((match = re.exec(content)) !== null) if (match[1]) usedVarsSet.add(match[1])`
      for one literal-prefix regex: adds its captures in order and leaves `lastIndex` at 0. */
  method ScanSimple(re: GlobalRegex, used: UsedVarSet, content: string)
    requires !re.pattern.Destructuring? && re.lastIndex == 0 && used.Valid()
    modifies re, used
    ensures re.lastIndex == 0
    ensures used.Valid() && used.items == AddAll(old(used.items), Captures(re.pattern, content, 0))
  {
    ExecStep(re.pattern, content, 0);
    var m := re.Exec(content);
    ghost var seen: seq<string> := [];
    while m.Some?
      invariant m.Some? ==> m.value.start < m.value.end <= |content| && m.value.capture != []
      invariant re.lastIndex == if m.Some? then m.value.end else 0
      invariant seen + Pending(re.pattern, content, m) == Captures(re.pattern, content, 0)
      invariant used.Valid() && used.items == AddAll(old(used.items), seen)
      decreases if m.Some? then |content| - m.value.start else 0
    {
      var name := m.value.capture;
      if name != [] {
        used.Add(name);
      }
      AddAllSnoc(old(used.items), seen, name);
      SeenStep(re.pattern, content, seen, m);
      seen := seen + [name];
      ExecStep(re.pattern, content, re.lastIndex);
      m := re.Exec(content);
    }
    assert seen == Captures(re.pattern, content, 0);
  }

  /** `names.forEach((n) => { if (/^[A-Za-z0-9_]+$/.test(n)) usedVarsSet.add(n) })`: adds the
      names that pass the test, in order. */
  method AddBindingNames(used: UsedVarSet, names: seq<string>)
    requires used.Valid()
    modifies used
    ensures used.Valid() && used.items == AddAll(old(used.items), KeepBindingNames(names))
  {
    for j := 0 to |names|
      invariant used.Valid() && used.items == AddAll(old(used.items), KeepBindingNames(names[..j]))
    {
      var n := names[j];
      ghost var before := names[..j];
      assert names[..j + 1] == before + [n];
      assert KeepBindingNames(before + [n]) == KeepBindingNames(before) + (if IsBindingName(n) then [n] else []) by {
        assert (before + [n])[..|before|] == before;
      }
      if IsBindingName(n) {
        used.Add(n);
        AddAllSnoc(old(used.items), KeepBindingNames(before), n);
      } else {
        assert KeepBindingNames(before + [n]) == KeepBindingNames(before);
      }
    }
    assert names[..|names|] == names;
  }

  /** The body of the destructuring loop for one match: split its brace text into names and
      add those that pass `/^[A-Za-z0-9_]+$/`. `acc` is the set before the loop and `refs`
      the names the earlier matches contributed. */
  method AddDestructuredNames(used: UsedVarSet, capture: string, ghost acc: seq<string>, ghost refs: seq<string>)
    requires used.Valid() && used.items == AddAll(acc, refs)
    modifies used
    ensures used.Valid() && used.items == AddAll(acc, refs + BindingsOf(capture))
  {
    var names := BoundNames(capture);
    AddBindingNames(used, names);
    AddAllAppend(acc, refs, BindingsOf(capture));
  }

  method ScanDestructuring(re: GlobalRegex, used: UsedVarSet, content: string)
    requires re.pattern == Destructuring && re.lastIndex == 0 && used.Valid()
    modifies re, used
    ensures re.lastIndex == 0
    ensures used.Valid()
    ensures used.items == AddAll(old(used.items), DestructuredRefs(Captures(Destructuring, content, 0)))
  {
    ExecStep(Destructuring, content, 0);
    var m := re.Exec(content);
    ghost var seen: seq<string> := [];
    ghost var refs: seq<string> := [];
    while m.Some?
      invariant m.Some? ==> m.value.start < m.value.end <= |content|
      invariant re.lastIndex == if m.Some? then m.value.end else 0
      invariant seen + Pending(Destructuring, content, m) == Captures(Destructuring, content, 0)
      invariant refs == DestructuredRefs(seen)
      invariant used.Valid() && used.items == AddAll(old(used.items), refs)
      decreases if m.Some? then |content| - m.value.start else 0
    {
      AddDestructuredNames(used, m.value.capture, old(used.items), refs);
      FlatMapSnoc(seen, m.value.capture, BindingsOf);
      SeenStep(Destructuring, content, seen, m);
      refs := refs + BindingsOf(m.value.capture);
      seen := seen + [m.value.capture];
      ExecStep(Destructuring, content, re.lastIndex);
      m := re.Exec(content);
    }
    assert seen == Captures(Destructuring, content, 0);
  }

  /** The body of `files.forEach` for one file's text: the four literal-prefix regexes in
      order, then the destructuring regex. Every regex is left with `lastIndex` 0, so the
      shared regex objects carry nothing over to the next file. */
  method ScanFile(simple: seq<GlobalRegex>, destructure: GlobalRegex, used: UsedVarSet, content: string)
    requires |simple| == |SimplePatterns|
    requires forall k | 0 <= k < |simple| :: simple[k].pattern == SimplePatterns[k]
    requires destructure.pattern == Destructuring
    requires forall k | 0 <= k < |simple| :: simple[k].lastIndex == 0
    requires destructure.lastIndex == 0
    requires used.Valid()
    modifies simple, destructure, used
    ensures forall k | 0 <= k < |simple| :: simple[k].lastIndex == 0
    ensures destructure.lastIndex == 0
    ensures used.Valid() && used.items == AddAll(old(used.items), FileRefs(content))
  {
    ScanSimplePatterns(simple, destructure, used, content);
    ghost var refs := SimpleRefs(content, SimplePatterns);
    ScanDestructuring(destructure, used, content);
    AddAllAppend(old(used.items), refs, DestructuredRefs(Captures(Destructuring, content, 0)));
  }

  /** The four literal-prefix regexes in order, each run to the end of the text. */
  method ScanSimplePatterns(simple: seq<GlobalRegex>, destructure: GlobalRegex, used: UsedVarSet, content: string)
    requires |simple| == |SimplePatterns|
    requires forall k | 0 <= k < |simple| :: simple[k].pattern == SimplePatterns[k]
    requires forall k | 0 <= k < |simple| :: simple[k].lastIndex == 0
    requires destructure.lastIndex == 0
    requires used.Valid()
    modifies simple, used
    ensures forall k | 0 <= k < |simple| :: simple[k].lastIndex == 0
    ensures destructure.lastIndex == 0
    ensures used.Valid() && used.items == AddAll(old(used.items), SimpleRefs(content, SimplePatterns))
  {
    ghost var refs: seq<string> := [];
    for k := 0 to |simple|
      invariant forall j | 0 <= j < |simple| :: simple[j].lastIndex == 0
      invariant destructure.lastIndex == 0
      invariant refs == SimpleRefs(content, SimplePatterns[..k])
      invariant used.Valid() && used.items == AddAll(old(used.items), refs)
    {
      ScanSimple(simple[k], used, content);
      AddAllAppend(old(used.items), refs, Captures(SimplePatterns[k], content, 0));
      SimpleRefsStep(content, SimplePatterns, k);
      refs := refs + Captures(SimplePatterns[k], content, 0);
    }
    assert SimplePatterns[..|simple|] == SimplePatterns;
  }

  /** The patterns up to `k`, one more pattern at a time. */
  lemma SimpleRefsStep(content: string, patterns: seq<Pattern>, k: nat)
    requires k < |patterns|
    ensures SimpleRefs(content, patterns[..k + 1])
      == SimpleRefs(content, patterns[..k]) + Captures(patterns[k], content, 0)
  {
    assert patterns[..k + 1] == patterns[..k] + [patterns[k]];
    FlatMapSnoc(patterns[..k], patterns[k], CapturesIn(content));
  }

  /** One more file adds its names to the set the earlier files built. */
  lemma NextFile(contents: seq<string>, i: nat)
    requires i < |contents|
    ensures Dedup(AllRefs(contents[..i + 1])) == AddAll(Dedup(AllRefs(contents[..i])), FileRefs(contents[i]))
  {
    assert contents[..i + 1][..i] == contents[..i];
    AddAllAppend([], AllRefs(contents[..i]), FileRefs(contents[i]));
  }

  /** `usedVarsSet` after the scan, listed by `Array.from`: every name any file yields, once,
      in the order of its first appearance, file after file. */
  method CollectUsedVars(contents: seq<string>) returns (usedVars: seq<string>)
    ensures usedVars == Dedup(AllRefs(contents))
  {
    var used := new UsedVarSet();
    var r0 := new GlobalRegex(SimplePatterns[0]);
    var r1 := new GlobalRegex(SimplePatterns[1]);
    var r2 := new GlobalRegex(SimplePatterns[2]);
    var r3 := new GlobalRegex(SimplePatterns[3]);
    var simple := [r0, r1, r2, r3];
    var destructure := new GlobalRegex(Destructuring);
    for i := 0 to |contents|
      invariant fresh(used) && fresh(destructure) && forall k | 0 <= k < |simple| :: fresh(simple[k])
      invariant forall k | 0 <= k < |simple| :: simple[k].lastIndex == 0
      invariant destructure.lastIndex == 0
      invariant used.Valid() && used.items == Dedup(AllRefs(contents[..i]))
    {
      ScanFile(simple, destructure, used, contents[i]);
      NextFile(contents, i);
    }
    assert contents[..|contents|] == contents;
    usedVars := used.items;
  }
}
