/** What one file contributes to the used-variable set: the names the four literal-prefix
    patterns capture, then the names bound by each matched destructuring, in the order the
    scanner adds them. */
module Names {
  import opened JsText
  import opened Patterns
  import opened InsertionOrder

  /** `/^[A-Za-z0-9_]+$/.test(n)`, the last check on a destructured name. */
  predicate IsBindingName(n: string) {
    n != [] && forall k | 0 <= k < |n| :: IsWordChar(n[k])
  }

  /** `n.trim().replace(/[:=].*$/, '')`, applied to each comma-separated piece. */
  function CleanPiece(piece: string): (r: string)
    ensures r <= Trim(piece)
    ensures forall k | 0 <= k < |r| :: !CutsAt(Trim(piece), k)
    ensures |r| < |Trim(piece)| ==> CutsAt(Trim(piece), |r|)
    ensures (forall k | 0 <= k < |piece| :: !IsRenameOrDefaultMark(piece[k])) ==> r == Trim(piece)
  {
    var t := Trim(piece);
    assert (forall k | 0 <= k < |piece| :: !IsRenameOrDefaultMark(piece[k])) ==> StripRenameDefault(t) == t by {
      if forall k | 0 <= k < |piece| :: !IsRenameOrDefaultMark(piece[k]) {
        assert forall k | 0 <= k < |t| :: t[k] in piece;
        StripWithoutMarks(t);
      }
    }
    StripRenameDefault(t)
  }

  /** `.filter(Boolean)` on strings: the non-empty ones, in order. */
  function NonEmpty(xs: seq<string>): (r: seq<string>)
    ensures forall n :: n in r <==> n in xs && n != []
    decreases |xs|
  {
    if xs == [] then []
    else
      var init := xs[..|xs| - 1];
      var last := xs[|xs| - 1];
      assert xs == init + [last];
      NonEmpty(init) + (if last == [] then [] else [last])
  }

  /** `.map((n) => n.trim().replace(/[:=].*$/, ''))`. */
  function CleanAll(parts: seq<string>): (r: seq<string>)
    ensures |r| == |parts| && forall k | 0 <= k < |parts| :: r[k] == CleanPiece(parts[k])
  {
    seq(|parts|, k requires 0 <= k < |parts| => CleanPiece(parts[k]))
  }

  /** A binding name is its own cleaned form. */
  lemma CleanPieceOfName(n: string)
    requires IsBindingName(n)
    ensures CleanPiece(n) == n
  {
    assert forall k | 0 <= k < |n| :: !IsSpace(n[k]) && !IsRenameOrDefaultMark(n[k]);
    StripWithoutMarks(n);
  }

  /** `dmatch[1].split(',').map(CleanPiece).filter(Boolean)`. */
  function BoundNames(capture: string): (names: seq<string>)
    ensures forall n :: n in names <==>
      n != [] && exists piece | piece in Split(capture, ',') :: CleanPiece(piece) == n
  {
    CleanAllMembers(Split(capture, ','));
    NonEmpty(CleanAll(Split(capture, ',')))
  }

  /** A cleaned piece is in the list exactly when some piece cleans to it. */
  lemma CleanAllMembers(parts: seq<string>)
    ensures forall n :: n in CleanAll(parts) <==> exists piece | piece in parts :: CleanPiece(piece) == n
  {
    var cleaned := CleanAll(parts);
    forall n | n in cleaned ensures exists piece | piece in parts :: CleanPiece(piece) == n {
      var k :| 0 <= k < |cleaned| && cleaned[k] == n;
      assert parts[k] in parts;
    }
    forall n | exists piece | piece in parts :: CleanPiece(piece) == n ensures n in cleaned {
      var piece :| piece in parts && CleanPiece(piece) == n;
      var k :| 0 <= k < |parts| && parts[k] == piece;
      assert cleaned[k] == n;
    }
  }

  /** The names that pass `/^[A-Za-z0-9_]+$/`, in order. */
  function KeepBindingNames(names: seq<string>): (kept: seq<string>)
    ensures forall n :: n in kept <==> n in names && IsBindingName(n)
    decreases |names|
  {
    if names == [] then []
    else
      var init := names[..|names| - 1];
      var last := names[|names| - 1];
      assert names == init + [last];
      KeepBindingNames(init) + (if IsBindingName(last) then [last] else [])
  }

  /** `filter` looks at the names one at a time, in order: filtering a concatenation is
      filtering each part, so kept names keep their order and their repeats. */
  lemma {:induction false} KeepBindingNamesAppend(xs: seq<string>, ys: seq<string>)
    ensures KeepBindingNames(xs + ys) == KeepBindingNames(xs) + KeepBindingNames(ys)
    decreases |ys|
  {
    if ys == [] {
      assert xs + ys == xs;
    } else {
      var init, last := ys[..|ys| - 1], ys[|ys| - 1];
      KeepBindingNamesAppend(xs, init);
      assert (xs + ys)[..|xs + ys| - 1] == xs + init && (xs + ys)[|xs + ys| - 1] == last;
      assert KeepBindingNames(xs + ys) == KeepBindingNames(xs + init) + (if IsBindingName(last) then [last] else []);
      assert KeepBindingNames(ys) == KeepBindingNames(init) + (if IsBindingName(last) then [last] else []);
    }
  }

  /** `filter(Boolean)` too drops the empty strings one at a time, in order. */
  lemma {:induction false} NonEmptyAppend(xs: seq<string>, ys: seq<string>)
    ensures NonEmpty(xs + ys) == NonEmpty(xs) + NonEmpty(ys)
    decreases |ys|
  {
    if ys == [] {
      assert xs + ys == xs;
    } else {
      var init, last := ys[..|ys| - 1], ys[|ys| - 1];
      NonEmptyAppend(xs, init);
      assert (xs + ys)[..|xs + ys| - 1] == xs + init && (xs + ys)[|xs + ys| - 1] == last;
      assert NonEmpty(xs + ys) == NonEmpty(xs + init) + (if last == [] then [] else [last]);
      assert NonEmpty(ys) == NonEmpty(init) + (if last == [] then [] else [last]);
    }
  }

  /** The names one matched destructuring adds. */
  function BindingsOf(capture: string): (names: seq<string>)
    ensures forall n :: n in names <==>
      IsBindingName(n) && exists piece | piece in Split(capture, ',') :: CleanPiece(piece) == n
  {
    KeepBindingNames(BoundNames(capture))
  }

  /** The names the destructurings with these captures add, capture after capture. */
  function DestructuredRefs(captures: seq<string>): (refs: seq<string>)
    ensures forall x :: x in refs <==> exists k | 0 <= k < |captures| :: x in BindingsOf(captures[k])
  {
    FlatMapMembers(captures, BindingsOf);
    FlatMap(captures, BindingsOf)
  }

  /** The names the given literal-prefix patterns capture, pattern after pattern: a name is
      among them exactly when the exec loop of one of the patterns captures it. */
  function SimpleRefs(s: string, patterns: seq<Pattern>): (refs: seq<string>)
    ensures forall x :: x in refs <==> exists k | 0 <= k < |patterns| :: x in Captures(patterns[k], s, 0)
  {
    FlatMapMembers(patterns, CapturesIn(s));
    FlatMap(patterns, CapturesIn(s))
  }

  /** Every name one file adds to the used set, in the order the scanner adds them. */
  function FileRefs(s: string): (refs: seq<string>)
    ensures forall x | x in refs :: IsBindingName(x)
  {
    FileRefsAreBindingNames(s);
    SimpleRefs(s, SimplePatterns) + DestructuredRefs(Captures(Destructuring, s, 0))
  }

  lemma FileRefsAreBindingNames(s: string)
    ensures forall x | x in SimpleRefs(s, SimplePatterns) + DestructuredRefs(Captures(Destructuring, s, 0)) ::
      IsBindingName(x)
  {
    var simple := SimpleRefs(s, SimplePatterns);
    var destructured := DestructuredRefs(Captures(Destructuring, s, 0));
    SimpleRefsAreEnvNames(s, SimplePatterns);
    DestructuredRefsAreBindingNames(Captures(Destructuring, s, 0));
    forall x | x in simple + destructured ensures IsBindingName(x) {
      if x in simple {
        EnvNameIsBindingName(x);
      }
    }
  }

  lemma EnvNameIsBindingName(x: string)
    requires IsEnvName(x)
    ensures IsBindingName(x)
  {
  }

  lemma DestructuredRefsAreBindingNames(caps: seq<string>)
    ensures forall x | x in DestructuredRefs(caps) :: IsBindingName(x)
  {
    forall x | x in DestructuredRefs(caps) ensures IsBindingName(x) {
      var k :| 0 <= k < |caps| && x in BindingsOf(caps[k]);
    }
  }

  /** The names of a sequence of files, file after file. */
  function AllRefs(contents: seq<string>): (refs: seq<string>)
    ensures forall x | x in refs :: IsBindingName(x)
    decreases |contents|
  {
    if contents == [] then []
    else AllRefs(contents[..|contents| - 1]) + FileRefs(contents[|contents| - 1])
  }

  /** A name is used somewhere exactly when some file contributes it. */
  lemma {:induction false} AllRefsMembers(contents: seq<string>)
    ensures forall x :: x in AllRefs(contents) <==> exists i | 0 <= i < |contents| :: x in FileRefs(contents[i])
    decreases |contents|
  {
    AllRefsIsFlatMap(contents);
    FlatMapMembers(contents, FileRefs);
  }

  lemma {:induction false} AllRefsIsFlatMap(contents: seq<string>)
    ensures AllRefs(contents) == FlatMap(contents, FileRefs)
    decreases |contents|
  {
    if contents != [] {
      AllRefsIsFlatMap(contents[..|contents| - 1]);
    }
  }

  /** A name from a literal-prefix pattern is a non-empty run of `[A-Z0-9_]`. */
  lemma SimpleRefsAreEnvNames(s: string, patterns: seq<Pattern>)
    requires forall k | 0 <= k < |patterns| :: !patterns[k].Destructuring?
    ensures forall x | x in SimpleRefs(s, patterns) :: IsEnvName(x)
  {
    forall x | x in SimpleRefs(s, patterns) ensures IsEnvName(x) {
      var k :| 0 <= k < |patterns| && x in Captures(patterns[k], s, 0);
      var j :| 0 <= j < |Captures(patterns[k], s, 0)| && Captures(patterns[k], s, 0)[j] == x;
      assert WellFormedCapture(patterns[k], x);
    }
  }

  /** What the exec loop of each pattern sees in `s`. */
  function CapturesIn(s: string): Pattern -> seq<string> {
    p => Captures(p, s, 0)
  }

  /** The literal-prefix patterns contribute exactly the names at the positions where one of
      them matches: nothing is missed, nothing is invented. */
  lemma SimpleRefsAreOccurrences(s: string, patterns: seq<Pattern>)
    requires forall k | 0 <= k < |patterns| :: !patterns[k].Destructuring?
    ensures forall x :: x in SimpleRefs(s, patterns) <==>
      exists k | 0 <= k < |patterns| :: x in Occurrences(patterns[k], s, 0)
  {
    forall k | 0 <= k < |patterns|
      ensures forall x :: x in Captures(patterns[k], s, 0) <==> x in Occurrences(patterns[k], s, 0)
    {
      SimpleCapturesAreAllOccurrences(patterns[k], s);
    }
  }

  /** The pieces of a destructuring's brace text never hold `:` or `=`, so the
      rename-and-default strip never changes one: a piece yields its trimmed self. */
  lemma StripIsDeadOnCaptures(capture: string, piece: string)
    requires WellFormedCapture(Destructuring, capture)
    requires piece in Split(capture, ',')
    ensures CleanPiece(piece) == Trim(piece)
  {
    SplitPiecesComeFromText(capture, ',');
    var t := Trim(piece);
    forall k | 0 <= k < |t| ensures !IsRenameOrDefaultMark(t[k]) {
      assert t[k] in piece;
      assert t[k] in capture;
      var j :| 0 <= j < |capture| && capture[j] == t[k];
      BraceBodyHasNoMarks(capture[j]);
    }
    StripWithoutMarks(t);
  }

  lemma BraceBodyHasNoMarks(c: char)
    requires IsBraceBodyChar(c)
    ensures !IsRenameOrDefaultMark(c)
  {
  }

  lemma {:induction false} SplitPiecesComeFromText(s: string, sep: char)
    ensures forall piece, c | piece in Split(s, sep) && c in piece :: c in s
    decreases |s|
  {
    if s != [] {
      SplitPiecesComeFromText(s[1..], sep);
    }
  }

  /** Each piece trimmed, in order. */
  function TrimAll(parts: seq<string>): (r: seq<string>)
    ensures |r| == |parts| && forall k | 0 <= k < |parts| :: r[k] == Trim(parts[k])
  {
    seq(|parts|, k requires 0 <= k < |parts| => Trim(parts[k]))
  }

  /** Every piece of a destructuring's brace text is cleaned to its trimmed self. */
  lemma CleanedPiecesAreTrimmed(capture: string)
    requires WellFormedCapture(Destructuring, capture)
    ensures BoundNames(capture) == NonEmpty(TrimAll(Split(capture, ',')))
  {
    var parts := Split(capture, ',');
    var cleaned := CleanAll(parts);
    var trimmed := TrimAll(parts);
    forall k | 0 <= k < |parts| ensures cleaned[k] == trimmed[k] {
      StripIsDeadOnCaptures(capture, parts[k]);
    }
    assert cleaned == trimmed;
  }

  lemma TrimAllMembers(parts: seq<string>)
    ensures forall n :: n in TrimAll(parts) <==> exists piece | piece in parts :: Trim(piece) == n
  {
    var trimmed := TrimAll(parts);
    forall n | n in trimmed ensures exists piece | piece in parts :: Trim(piece) == n {
      var k :| 0 <= k < |trimmed| && trimmed[k] == n;
      assert parts[k] in parts;
    }
    forall piece | piece in parts ensures Trim(piece) in trimmed {
      var k :| 0 <= k < |parts| && parts[k] == piece;
      assert trimmed[k] == Trim(piece);
    }
  }

  /** What a matched destructuring binds: exactly the comma-separated pieces of its brace
      text whose trimmed form is a `[A-Za-z0-9_]+` name. A piece with inner whitespace
      (`A B`) is rejected, and lower-case names are kept. */
  lemma DestructuredNamesOfCapture(capture: string)
    requires WellFormedCapture(Destructuring, capture)
    ensures forall n :: n in KeepBindingNames(BoundNames(capture)) <==>
      IsBindingName(n) && exists piece | piece in Split(capture, ',') :: Trim(piece) == n
  {
    var parts := Split(capture, ',');
    CleanedPiecesAreTrimmed(capture);
    TrimAllMembers(parts);
  }

  /** `x` is the group of a literal-prefix match somewhere in `s`. */
  predicate IsSimpleOccurrence(s: string, x: string) {
    exists k | 0 <= k < |SimplePatterns| :: x in Occurrences(SimplePatterns[k], s, 0)
  }

  /** `x` is a binding name that is the trimmed form of a piece of a destructuring the
      `exec` loop finds in `s`. */
  predicate IsDestructuredBinding(s: string, x: string) {
    exists c | c in Captures(Destructuring, s, 0) ::
      IsBindingName(x) && exists piece | piece in Split(c, ',') :: Trim(piece) == x
  }

  /** The names one file contributes: exactly the names at the positions where a
      literal-prefix pattern matches, and the names bound by the destructurings the exec
      loop finds. */
  lemma FileRefsMembers(s: string)
    ensures forall x :: x in FileRefs(s) <==> IsSimpleOccurrence(s, x) || IsDestructuredBinding(s, x)
  {
    var simple := SimpleRefs(s, SimplePatterns);
    var destructured := DestructuredRefs(Captures(Destructuring, s, 0));
    assert FileRefs(s) == simple + destructured;
    forall x ensures x in FileRefs(s) <==> IsSimpleOccurrence(s, x) || IsDestructuredBinding(s, x) {
      SimpleRefsMember(s, x);
      DestructuredRefsMember(s, x);
    }
  }

  lemma SimpleRefsMember(s: string, x: string)
    ensures x in SimpleRefs(s, SimplePatterns) <==> IsSimpleOccurrence(s, x)
  {
    SimpleRefsAreOccurrences(s, SimplePatterns);
  }

  lemma DestructuredRefsMember(s: string, x: string)
    ensures x in DestructuredRefs(Captures(Destructuring, s, 0)) <==> IsDestructuredBinding(s, x)
  {
    DestructuredRefsMembers(Captures(Destructuring, s, 0));
  }

  /** The names destructurings add: the binding names among the trimmed pieces of their
      captures. */
  lemma DestructuredRefsMembers(caps: seq<string>)
    requires forall c | c in caps :: WellFormedCapture(Destructuring, c)
    ensures forall x :: x in DestructuredRefs(caps) <==>
      exists c | c in caps :: IsBindingName(x) && exists piece | piece in Split(c, ',') :: Trim(piece) == x
  {
    FlatMapMembers(caps, BindingsOf);
    forall c | c in caps ensures forall n :: n in BindingsOf(c) <==>
      IsBindingName(n) && exists piece | piece in Split(c, ',') :: Trim(piece) == n
    {
      DestructuredNamesOfCapture(c);
    }
  }
}
