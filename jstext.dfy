/** Character classes and the few JavaScript string built-ins the scanner relies on:
    the regular-expression classes `[A-Z0-9_]`, `[A-Za-z0-9_]`, `\s`, and
    `String.prototype.split`, `trim` and `replace(/[:=].*$/, '')`. */
module JsText {

  /** The line terminators of ECMAScript; `.` in a regular expression does not match them. */
  predicate IsLineTerminator(c: char) {
    c == '\n' || c == '\r' || c == '\U{2028}' || c == '\U{2029}'
  }

  /** ECMAScript `\s`: WhiteSpace and LineTerminator code points. `trim` removes exactly these. */
  predicate IsSpace(c: char) {
    c == ' ' || c == '\t' || c == '\U{000B}' || c == '\U{000C}' || c == '\U{00A0}' || c == '\U{FEFF}'
    || c == '\U{1680}' || ('\U{2000}' <= c <= '\U{200A}') || c == '\U{202F}' || c == '\U{205F}'
    || c == '\U{3000}' || IsLineTerminator(c)
  }

  /** `[A-Z0-9_]`, the names the dotted and bracketed forms accept. */
  predicate IsEnvNameChar(c: char) {
    'A' <= c <= 'Z' || '0' <= c <= '9' || c == '_'
  }

  /** `[A-Za-z0-9_]`, the names a destructuring may bind. */
  predicate IsWordChar(c: char) {
    IsEnvNameChar(c) || 'a' <= c <= 'z'
  }

  /** `[A-Za-z0-9_,\s]`, what may stand between the braces of a destructuring. */
  predicate IsBraceBodyChar(c: char) {
    IsWordChar(c) || c == ',' || IsSpace(c)
  }

  predicate IsQuote(c: char) {
    c == '\'' || c == '"'
  }

  datatype CharClass = EnvName | Word | Space | BraceBody

  predicate InClass(cls: CharClass, c: char) {
    match cls
    case EnvName => IsEnvNameChar(c)
    case Word => IsWordChar(c)
    case Space => IsSpace(c)
    case BraceBody => IsBraceBodyChar(c)
  }

  /** `s` holds the literal `lit` at position `i`. */
  predicate LiteralAt(s: string, i: nat, lit: string) {
    i + |lit| <= |s| && s[i..i + |lit|] == lit
  }

  /** The first position in `[from, bound)` where `f` fails, or `bound`. */
  function Span(f: nat -> bool, from: nat, bound: nat): (q: nat)
    requires from <= bound
    ensures from <= q <= bound
    ensures forall k | from <= k < q :: f(k)
    ensures q == bound || !f(q)
    decreases bound - from
  {
    if from < bound && f(from) then Span(f, from + 1, bound) else from
  }

  /** Whether position `k` of `s` holds a `cls` character. */
  function ClassAt(s: string, cls: CharClass): nat -> bool {
    (k: nat) => k < |s| && InClass(cls, s[k])
  }

  /** The length of the longest run of `cls` characters starting at `i`: what a greedy
      `[...]*` consumes there. */
  function Run(s: string, i: nat, cls: CharClass): (n: nat)
    requires i <= |s|
    ensures i + n <= |s|
    ensures forall k | i <= k < i + n :: InClass(cls, s[k])
    ensures i + n == |s| || !InClass(cls, s[i + n])
  {
    var q := Span(ClassAt(s, cls), i, |s|);
    assert forall k | i <= k < q :: InClass(cls, s[k]) by {
      forall k | i <= k < q ensures InClass(cls, s[k]) {
        assert ClassAt(s, cls)(k);
      }
    }
    q - i
  }

  /** Two runs of one class from one position have one length: the contract of `Run` pins it down. */
  lemma RunUnique(s: string, i: nat, cls: CharClass, n: nat)
    requires i + n <= |s|
    requires forall k | i <= k < i + n :: InClass(cls, s[k])
    requires i + n == |s| || !InClass(cls, s[i + n])
    ensures Run(s, i, cls) == n
  {
  }

  /** `parts.join(sep)`. */
  function Join(parts: seq<string>, sep: char): string
    requires |parts| >= 1
  {
    if |parts| == 1 then parts[0] else parts[0] + [sep] + Join(parts[1..], sep)
  }

  /** `s.split(sep)` for a one-character separator: the text between separators, including
      the empty pieces before, between and after adjacent separators. The result is the one
      list of separator-free pieces that joins back to `s`. */
  function Split(s: string, sep: char): (parts: seq<string>)
    ensures |parts| >= 1
    ensures forall k | 0 <= k < |parts| :: sep !in parts[k]
    ensures Join(parts, sep) == s
    decreases |s|
  {
    if s == [] then [[]]
    else
      var rest := Split(s[1..], sep);
      if s[0] == sep then
        [[]] + rest
      else
        assert s == [s[0]] + s[1..];
        [[s[0]] + rest[0]] + rest[1..]
  }

  /** Splitting a join of separator-free pieces gives the pieces back. */
  lemma {:induction false} SplitJoin(parts: seq<string>, sep: char)
    requires |parts| >= 1
    requires forall k | 0 <= k < |parts| :: sep !in parts[k]
    ensures Split(Join(parts, sep), sep) == parts
    decreases |parts|, |parts[0]|
  {
    var p := parts[0];
    if p == [] {
      if |parts| > 1 {
        SplitJoin(parts[1..], sep);
        SplitJoinEmptyHead(parts, sep);
      }
    } else {
      var tail := [p[1..]] + parts[1..];
      assert forall c | c in p[1..] :: c in p;
      SplitJoin(tail, sep);
      SplitJoinLongerHead(parts, sep);
    }
  }

  /** The step of `SplitJoin` for an empty first piece: the join starts with the separator. */
  lemma SplitJoinEmptyHead(parts: seq<string>, sep: char)
    requires |parts| > 1 && parts[0] == []
    requires Split(Join(parts[1..], sep), sep) == parts[1..]
    ensures Split(Join(parts, sep), sep) == parts
  {
    var s := Join(parts, sep);
    assert s == [sep] + Join(parts[1..], sep);
    assert s[1..] == Join(parts[1..], sep);
    assert [[]] + parts[1..] == parts;
  }

  /** The step of `SplitJoin` for a non-empty first piece: its first character starts the
      first piece of the split of the rest. */
  lemma SplitJoinLongerHead(parts: seq<string>, sep: char)
    requires |parts| >= 1 && parts[0] != [] && sep !in parts[0]
    requires Split(Join([parts[0][1..]] + parts[1..], sep), sep) == [parts[0][1..]] + parts[1..]
    ensures Split(Join(parts, sep), sep) == parts
  {
    var p := parts[0];
    var tail := [p[1..]] + parts[1..];
    assert p[0] in p;
    JoinShiftsHead(parts, sep);
    SplitCons(p[0], Join(tail, sep), sep);
    assert [p[0]] + p[1..] == p;
    assert [p] + parts[1..] == parts;
  }

  /** Moving the first character of the first piece out in front of the join. */
  lemma JoinShiftsHead(parts: seq<string>, sep: char)
    requires |parts| >= 1 && parts[0] != []
    ensures Join(parts, sep) == [parts[0][0]] + Join([parts[0][1..]] + parts[1..], sep)
  {
    var p := parts[0];
    var tail := [p[1..]] + parts[1..];
    assert tail[0] == p[1..] && tail[1..] == parts[1..];
    assert p == [p[0]] + p[1..];
  }

  /** A character other than the separator joins the first piece of the split of the rest. */
  lemma SplitCons(c: char, rest: string, sep: char)
    requires c != sep
    ensures Split([c] + rest, sep) == [[c] + Split(rest, sep)[0]] + Split(rest, sep)[1..]
  {
    assert ([c] + rest)[1..] == rest;
  }

  /** `s.trimStart()`: drops the leading `\s` characters. */
  function TrimStart(s: string): (r: string)
    ensures |r| <= |s| && r == s[|s| - |r|..]
    ensures forall k | 0 <= k < |s| - |r| :: IsSpace(s[k])
    ensures r == [] || !IsSpace(r[0])
  {
    if s != [] && IsSpace(s[0]) then TrimStart(s[1..]) else s
  }

  /** `s.trimEnd()`: drops the trailing `\s` characters. */
  function TrimEnd(s: string): (r: string)
    ensures |r| <= |s| && r == s[..|r|]
    ensures forall k | |r| <= k < |s| :: IsSpace(s[k])
    ensures r == [] || !IsSpace(r[|r| - 1])
  {
    if s != [] && IsSpace(s[|s| - 1]) then TrimEnd(s[..|s| - 1]) else s
  }

  /** `s` is `r` with only `\s` characters before it (the first `a` of them) and after it. */
  predicate Padded(s: string, a: nat, r: string) {
    && a + |r| <= |s| && s[a..a + |r|] == r
    && (forall k | 0 <= k < a :: IsSpace(s[k]))
    && (forall k | a + |r| <= k < |s| :: IsSpace(s[k]))
  }

  /** `s.trim()`: `s` with its leading and trailing `\s` removed, and nothing else. */
  function Trim(s: string): (r: string)
    ensures exists a :: Padded(s, a, r)
    ensures r == [] || (!IsSpace(r[0]) && !IsSpace(r[|r| - 1]))
    ensures r == [] <==> forall k | 0 <= k < |s| :: IsSpace(s[k])
    ensures (forall k | 0 <= k < |s| :: !IsSpace(s[k])) ==> r == s
    ensures forall c | c in r :: c in s
  {
    var t := TrimStart(s);
    var r := TrimEnd(t);
    PaddedOfSuffixPrefix(s, t, r);
    PaddedMembers(s, |s| - |t|, r);
    r
  }

  /** A prefix `r` of a suffix `t` of `s`, with only `\s` cut off on either side, is `s`
      padded. */
  lemma PaddedOfSuffixPrefix(s: string, t: string, r: string)
    requires |t| <= |s| && t == s[|s| - |t|..] && forall k | 0 <= k < |s| - |t| :: IsSpace(s[k])
    requires |r| <= |t| && r == t[..|r|] && forall k | |r| <= k < |t| :: IsSpace(t[k])
    ensures Padded(s, |s| - |t|, r)
  {
    var a := |s| - |t|;
    forall k | 0 <= k < |r| ensures s[a + k] == r[k] {
      assert r[k] == t[k] == s[a + k];
    }
    assert s[a..a + |r|] == r;
    forall k | a + |r| <= k < |s| ensures IsSpace(s[k]) {
      assert s[k] == t[k - a];
    }
  }

  /** Every character of the padded text is a character of `s`. */
  lemma PaddedMembers(s: string, a: nat, r: string)
    requires Padded(s, a, r)
    ensures forall c | c in r :: c in s
  {
    forall c | c in r ensures c in s {
      var k :| 0 <= k < |r| && r[k] == c;
      assert s[a + k] == c;
    }
  }

  /** Trimming is idempotent. */
  lemma TrimIdempotent(s: string)
    ensures Trim(Trim(s)) == Trim(s)
  {
    var r := Trim(s);
    assert forall k | 0 <= k < |r| :: !IsSpace(r[k]) || (0 < k < |r| - 1);
    if r != [] {
      assert TrimStart(r) == r;
      assert TrimEnd(r) == r;
    }
  }

  predicate IsRenameOrDefaultMark(c: char) {
    c == ':' || c == '='
  }

  /** Where `/[:=].*$/` can match in `t`: a `:` or `=` with no line terminator after it. */
  predicate CutsAt(t: string, k: nat) {
    k < |t| && IsRenameOrDefaultMark(t[k]) && forall j | k < j < |t| :: !IsLineTerminator(t[j])
  }

  function CutFrom(t: string, i: nat): (q: nat)
    requires i <= |t|
    ensures i <= q <= |t|
    ensures q < |t| ==> CutsAt(t, q)
    ensures forall k | i <= k < q :: !CutsAt(t, k)
    decreases |t| - i
  {
    if i == |t| then |t| else if CutsAt(t, i) then i else CutFrom(t, i + 1)
  }

  /** `t.replace(/[:=].*$/, '')`: everything from the leftmost `:` or `=` that is followed by
      no line terminator is removed. */
  function StripRenameDefault(t: string): (r: string)
    ensures |r| <= |t| && r == t[..|r|]
    ensures forall k | 0 <= k < |r| :: !CutsAt(t, k)
    ensures |r| < |t| ==> CutsAt(t, |r|)
  {
    t[..CutFrom(t, 0)]
  }

  /** On text without `:` and `=` the strip changes nothing. */
  lemma StripWithoutMarks(t: string)
    requires forall k | 0 <= k < |t| :: !IsRenameOrDefaultMark(t[k])
    ensures StripRenameDefault(t) == t
  {
  }
}
