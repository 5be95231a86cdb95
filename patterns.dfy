/** The five global regular expressions of the scanner, written as explicit matchers:
    `MatchAt` says whether (and how) a pattern matches at one position, `ExecFrom` is
    `RegExp.prototype.exec` from a `lastIndex`, and `Captures` is what a
    `while ((m = re.exec(content)) !== null)` loop sees, in order. */
module Patterns {
  import opened JsText

  datatype Option<T> = None | Some(value: T)

  /** The two objects whose properties are environment variables. */
  datatype Namespace = ProcessEnv | ImportMetaEnv

  function NamespaceText(ns: Namespace): string {
    match ns
    case ProcessEnv => "process.env"
    case ImportMetaEnv => "import.meta.env"
  }

  datatype Pattern =
    | Dotted(ns: Namespace)      // /<ns>\.([A-Z0-9_]+)/g
    | Bracketed(ns: Namespace)   // /<ns>\[['"]([A-Z0-9_]+)['"]\]/g
    | Destructuring              // /(?:const|let|var)\s*\{\s*([A-Za-z0-9_,\s]+)\s*\}\s*=\s*(?:process\.env|import\.meta\.env)/g

  /** The four literal-prefix patterns, in the order the scanner runs them. */
  const SimplePatterns: seq<Pattern> :=
    [Dotted(ProcessEnv), Bracketed(ProcessEnv), Dotted(ImportMetaEnv), Bracketed(ImportMetaEnv)]

  /** A match: where it starts, where the regex's `lastIndex` goes after it, and group 1. */
  datatype Match = Match(start: nat, end: nat, capture: string)

  /** A name the dotted and bracketed forms can produce: `[A-Z0-9_]+`. */
  predicate IsEnvName(n: string) {
    n != [] && forall k | 0 <= k < |n| :: IsEnvNameChar(n[k])
  }

  /** What group 1 of a pattern can hold. */
  predicate WellFormedCapture(p: Pattern, x: string) {
    if p.Destructuring? then x != [] && forall k | 0 <= k < |x| :: IsBraceBodyChar(x[k])
    else IsEnvName(x)
  }

  /** `<ns>.NAME` at `i`: the name is the longest `[A-Z0-9_]` run after the dot, and there
      is a match exactly when that run is not empty. */
  function DottedAt(ns: Namespace, s: string, i: nat): (r: Option<Match>)
    ensures r.Some? <==>
      var a := i + |NamespaceText(ns)| + 1;
      LiteralAt(s, i, NamespaceText(ns) + ".") && a < |s| && IsEnvNameChar(s[a])
    ensures r.Some? ==>
      var a := i + |NamespaceText(ns)| + 1;
      var m := r.value;
      && m.start == i && m.end == a + |m.capture| <= |s|
      && m.capture == s[a..m.end] && IsEnvName(m.capture)
      && (m.end == |s| || !IsEnvNameChar(s[m.end]))
  {
    var pre := NamespaceText(ns) + ".";
    if LiteralAt(s, i, pre) then
      var n := Run(s, i + |pre|, EnvName);
      if n > 0 then Some(Match(i, i + |pre| + n, s[i + |pre|..i + |pre| + n])) else None
    else None
  }

  /** The text at `i` reads `<ns>[`, a quote, `n > 0` characters of `[A-Z0-9_]`, a quote
      and `]`. The two quotes are chosen independently. */
  predicate BracketShape(ns: Namespace, s: string, i: nat, n: nat) {
    var a := i + |NamespaceText(ns)| + 2;
    && LiteralAt(s, i, NamespaceText(ns) + "[")
    && n > 0 && a + n + 1 < |s|
    && IsQuote(s[a - 1])
    && (forall k | a <= k < a + n :: IsEnvNameChar(s[k]))
    && IsQuote(s[a + n]) && s[a + n + 1] == ']'
  }

  /** `<ns>['NAME']` at `i`: a match exactly when the text has that shape. */
  function BracketedAt(ns: Namespace, s: string, i: nat): (r: Option<Match>)
    ensures r.Some? ==>
      var a := i + |NamespaceText(ns)| + 2;
      var m := r.value;
      && BracketShape(ns, s, i, |m.capture|)
      && m.start == i && m.end == a + |m.capture| + 2
      && m.capture == s[a..a + |m.capture|] && IsEnvName(m.capture)
  {
    var pre := NamespaceText(ns) + "[";
    var q := i + |pre|;
    if LiteralAt(s, i, pre) && q < |s| && IsQuote(s[q]) then
      var n := Run(s, q + 1, EnvName);
      var e := q + 1 + n;
      if n > 0 && e + 1 < |s| && IsQuote(s[e]) && s[e + 1] == ']' then
        Some(Match(i, e + 2, s[q + 1..e]))
      else None
    else None
  }

  /** Conversely, text of that shape is a bracketed match, with the name the shape delimits. */
  lemma BracketedAtComplete(ns: Namespace, s: string, i: nat, n: nat)
    requires BracketShape(ns, s, i, n)
    ensures BracketedAt(ns, s, i).Some? && |BracketedAt(ns, s, i).value.capture| == n
  {
    var a := i + |NamespaceText(ns)| + 2;
    RunUnique(s, a, EnvName, n);
  }

  /** The alternatives of `(?:const|let|var)`. */
  const Keywords: seq<string> := ["const", "let", "var"]

  /** The length of the `const`, `let` or `var` at `i`, or 0 when none of them is there. */
  function KeywordAt(s: string, i: nat): (n: nat)
    ensures n > 0 ==> i + n <= |s| && s[i..i + n] in Keywords
    ensures n == 0 ==> forall w | w in Keywords :: !LiteralAt(s, i, w)
  {
    if LiteralAt(s, i, "const") then 5
    else if LiteralAt(s, i, "let") || LiteralAt(s, i, "var") then 3
    else 0
  }

  /** The keywords start with three different letters, so at most one of them is at `i`. */
  lemma KeywordUnique(s: string, i: nat, n: nat)
    requires i + n <= |s| && s[i..i + n] in Keywords
    ensures KeywordAt(s, i) == n
  {
    var w := s[i..i + n];
    assert w[0] == s[i];
    assert LiteralAt(s, i, w);
  }

  /** The length of the namespace literal at `i`, or 0 when neither is there. */
  function NamespaceAt(s: string, i: nat): (n: nat)
    ensures LiteralAt(s, i, NamespaceText(ProcessEnv)) <==> n == |NamespaceText(ProcessEnv)|
    ensures LiteralAt(s, i, NamespaceText(ImportMetaEnv)) <==> n == |NamespaceText(ImportMetaEnv)|
    ensures n == 0 || n == |NamespaceText(ProcessEnv)| || n == |NamespaceText(ImportMetaEnv)|
  {
    if LiteralAt(s, i, NamespaceText(ProcessEnv)) then
      assert !LiteralAt(s, i, NamespaceText(ImportMetaEnv)) by {
        LiteralCharAt(s, i, NamespaceText(ProcessEnv), i);
      }
      11
    else if LiteralAt(s, i, NamespaceText(ImportMetaEnv)) then 15
    else 0
  }

  /** Every character in `[from, to)` is `\s`. */
  predicate Spaces(s: string, from: nat, to: nat) {
    forall k | from <= k < to :: k < |s| && IsSpace(s[k])
  }

  /** What a `\s*` run covers is spaces. */
  lemma SpacesRun(s: string, i: nat)
    requires i <= |s|
    ensures Spaces(s, i, i + Run(s, i, Space))
  {
    var n := Run(s, i, Space);
    forall k | i <= k < i + n ensures k < |s| && IsSpace(s[k]) {
      assert InClass(Space, s[k]);
    }
  }

  /** Where a greedy `\s*` from `i` stops: past spaces only, and not before a space. */
  function SpacesEnd(s: string, i: nat): (j: nat)
    requires i <= |s|
    ensures i <= j <= |s| && Spaces(s, i, j) && (j == |s| || !IsSpace(s[j]))
  {
    SpacesRun(s, i);
    i + Run(s, i, Space)
  }

  /** Conversely, a `\s*` run stops exactly at the end of the spaces. */
  lemma SpacesEndUnique(s: string, i: nat, j: nat)
    requires i <= j <= |s| && Spaces(s, i, j) && (j == |s| || !IsSpace(s[j]))
    ensures SpacesEnd(s, i) == j
  {
    RunUnique(s, i, Space, j - i);
  }

  /** `{\s*([A-Za-z0-9_,\s]+)\s*}` with `{` at `b`, group 1 starting at `g` and `}` at
      `close`: the text between the braces is non-empty and all `[A-Za-z0-9_,\s]`; group 1
      starts after the leading `\s` but keeps at least the last character. */
  predicate BraceShape(s: string, b: nat, g: nat, close: nat) {
    && b < g < close < |s| && s[b] == '{' && s[close] == '}'
    && (forall k | b < k < close :: IsBraceBodyChar(s[k]))
    && Spaces(s, b + 1, g)
    && (g == close - 1 || !IsSpace(s[g]))
  }

  /** The braces at `b`: where group 1 starts and where the `}` is. Since `\s` is part of
      the body class, the greedy body run must end right at the `}`. */
  function BracesAt(s: string, b: nat): (r: Option<(nat, nat)>)
    ensures r.Some? ==>
      var (g, close) := r.value;
      && BraceShape(s, b, g, close)
      && WellFormedCapture(Destructuring, s[g..close])
  {
    if b < |s| && s[b] == '{' then
      var body := Run(s, b + 1, BraceBody);
      var close := b + 1 + body;
      if body > 0 && close < |s| && s[close] == '}' then
        var lead := Run(s, b + 1, Space);
        var g := b + 1 + (if lead < body then lead else body - 1);
        BraceShapeOfRuns(s, b, g, close);
        Some((g, close))
      else None
    else None
  }

  /** The positions `BracesAt` computes from its two runs have the brace shape. */
  lemma BraceShapeOfRuns(s: string, b: nat, g: nat, close: nat)
    requires b + 1 < close < |s| && s[b] == '{' && s[close] == '}'
    requires close == b + 1 + Run(s, b + 1, BraceBody)
    requires g == b + 1 + (if Run(s, b + 1, Space) < close - b - 1 then Run(s, b + 1, Space) else close - b - 2)
    ensures BraceShape(s, b, g, close) && WellFormedCapture(Destructuring, s[g..close])
  {
    var lead := Run(s, b + 1, Space);
    SpacesRun(s, b + 1);
    forall k | b < k < close ensures IsBraceBodyChar(s[k]) {
      assert InClass(BraceBody, s[k]);
    }
    if lead < close - b - 1 {
      assert !InClass(Space, s[g]);
    }
    var x := s[g..close];
    forall k | 0 <= k < |x| ensures IsBraceBodyChar(x[k]) {
      assert b < g + k < close && x[k] == s[g + k];
    }
  }

  /** Conversely, braces of that shape are found, with that group. */
  lemma BracesAtComplete(s: string, b: nat, g: nat, close: nat)
    requires BraceShape(s, b, g, close)
    ensures BracesAt(s, b) == Some((g, close))
  {
    assert !InClass(BraceBody, s[close]);
    RunUnique(s, b + 1, BraceBody, close - b - 1);
    var lead := Run(s, b + 1, Space);
    if !IsSpace(s[g]) {
      RunUnique(s, b + 1, Space, g - b - 1);
    }
  }

  /** `\s*=\s*` and a namespace literal after the `}` at `close`: the `=` is at `eq` and the
      namespace `ns` starts at `at`. */
  predicate AssignmentShape(s: string, close: nat, eq: nat, at: nat, ns: Namespace) {
    && close < eq < at <= |s| && s[eq] == '='
    && Spaces(s, close + 1, eq) && Spaces(s, eq + 1, at)
    && LiteralAt(s, at, NamespaceText(ns))
  }

  /** `\s*=\s*(?:process\.env|import\.meta\.env)` right after the `}` at `close`: where
      the match ends, or 0. */
  function AssignmentAfter(s: string, close: nat): (end: nat)
    requires close < |s|
    ensures end > 0 ==> close < end <= |s|
  {
    var eq := SpacesEnd(s, close + 1);
    if eq < |s| && s[eq] == '=' then
      var n := SpacesEnd(s, eq + 1);
      var len := NamespaceAt(s, n);
      if len > 0 then n + len else 0
    else 0
  }

  /** An assignment found after the braces has that shape, and ends after its namespace. */
  lemma AssignmentAfterSound(s: string, close: nat) returns (eq: nat, at: nat, ns: Namespace)
    requires close < |s| && AssignmentAfter(s, close) > 0
    ensures AssignmentShape(s, close, eq, at, ns)
    ensures AssignmentAfter(s, close) == at + |NamespaceText(ns)|
  {
    eq := SpacesEnd(s, close + 1);
    at := SpacesEnd(s, eq + 1);
    AssignmentAfterFound(s, close, eq, at);
    ns := NamespaceFound(s, at);
  }

  /** Where `AssignmentAfter` found the `=` and the namespace. */
  lemma AssignmentAfterFound(s: string, close: nat, eq: nat, at: nat)
    requires close < |s| && AssignmentAfter(s, close) > 0
    requires eq == SpacesEnd(s, close + 1)
    requires eq < |s| ==> at == SpacesEnd(s, eq + 1)
    ensures eq < |s| && s[eq] == '=' && at <= |s|
    ensures NamespaceAt(s, at) > 0 && AssignmentAfter(s, close) == at + NamespaceAt(s, at)
  {
  }

  /** Which namespace `NamespaceAt` found. */
  lemma NamespaceFound(s: string, at: nat) returns (ns: Namespace)
    requires NamespaceAt(s, at) > 0
    ensures LiteralAt(s, at, NamespaceText(ns)) && NamespaceAt(s, at) == |NamespaceText(ns)|
  {
    ns := if NamespaceAt(s, at) == |NamespaceText(ProcessEnv)| then ProcessEnv else ImportMetaEnv;
  }

  /** Conversely, an assignment of that shape is found, and ends after its namespace. */
  lemma AssignmentAfterComplete(s: string, close: nat, eq: nat, at: nat, ns: Namespace)
    requires close < |s| && AssignmentShape(s, close, eq, at, ns)
    ensures AssignmentAfter(s, close) == at + |NamespaceText(ns)|
  {
    assert !IsSpace('=');
    SpacesEndUnique(s, close + 1, eq);
    NamespaceStartsWithLetter(s, at, ns);
    SpacesEndUnique(s, eq + 1, at);
    AssignmentAfterSteps(s, close, eq, at, |NamespaceText(ns)|);
  }

  /** The steps `AssignmentAfter` takes, given where its runs stop. */
  lemma AssignmentAfterSteps(s: string, close: nat, eq: nat, at: nat, n: nat)
    requires close < eq < at <= |s| && s[eq] == '='
    requires SpacesEnd(s, close + 1) == eq && SpacesEnd(s, eq + 1) == at
    requires NamespaceAt(s, at) == n > 0
    ensures AssignmentAfter(s, close) == at + n
  {
  }

  /** A namespace literal does not start with `\s`. */
  lemma NamespaceStartsWithLetter(s: string, at: nat, ns: Namespace)
    requires LiteralAt(s, at, NamespaceText(ns))
    ensures at < |s| && !IsSpace(s[at])
  {
    LiteralCharAt(s, at, NamespaceText(ns), at);
    FirstCharOfNamespaceIsUnique(ns);
  }

  /** Where the parts of one destructuring match are: the keyword length, the `{`, the
      start of group 1, the `}`, the `=`, and the namespace with its start. */
  datatype DestructuringParts =
    DestructuringParts(keyword: nat, open: nat, group: nat, close: nat, eq: nat, at: nat, ns: Namespace)

  /** The whole destructuring regular expression read at `i`, with its parts at `p`. */
  predicate DestructuringShape(s: string, i: nat, p: DestructuringParts) {
    && i + p.keyword <= p.open < |s|
    && s[i..i + p.keyword] in Keywords
    && Spaces(s, i + p.keyword, p.open)
    && BraceShape(s, p.open, p.group, p.close)
    && AssignmentShape(s, p.close, p.eq, p.at, p.ns)
  }

  /** `const { A, B } = process.env` at `i`. The text between the braces must consist of
      `[A-Za-z0-9_,\s]` only and be non-empty; group 1 is that text less its leading
      whitespace. */
  function DestructuringAt(s: string, i: nat): (r: Option<Match>)
    ensures r.Some? ==>
      var m := r.value;
      && m.start == i < m.end <= |s|
      && WellFormedCapture(Destructuring, m.capture)
  {
    if KeywordAt(s, i) == 0 then None
    else DestructuringAfterKeyword(s, i, BraceOpen(s, i))
  }

  /** Where `{` is expected after the keyword at `i`: past the keyword and `\s*` (just `i`
      when no keyword starts there). */
  function BraceOpen(s: string, i: nat): (b: nat)
    ensures i + KeywordAt(s, i) <= b
    ensures KeywordAt(s, i) > 0 ==> b <= |s| && Spaces(s, i + KeywordAt(s, i), b)
    ensures KeywordAt(s, i) > 0 ==> b == |s| || !IsSpace(s[b])
  {
    if KeywordAt(s, i) > 0 then SpacesEnd(s, i + KeywordAt(s, i)) else i
  }

  /** The rest of a destructuring match at `i` once `{` is expected at `b`: the braces,
      then the assignment. */
  function DestructuringAfterKeyword(s: string, i: nat, b: nat): (r: Option<Match>)
    requires i <= b
    ensures r.Some? ==>
      var m := r.value;
      && m.start == i < m.end <= |s|
      && WellFormedCapture(Destructuring, m.capture)
  {
    var braces := BracesAt(s, b);
    if braces.None? then None
    else
      var g, close := braces.value.0, braces.value.1;
      var end := AssignmentAfter(s, close);
      if end == 0 then None
      else Some(Match(i, end, s[g..close]))
  }

  /** Between the braces of a destructuring match there is no `:` and no `=`: a
      destructuring with a rename (`{ a: b }`) or a default (`{ a = 1 }`) never matches. */
  lemma BracesHoldNoRenameOrDefault(s: string, b: nat)
    requires BracesAt(s, b).Some?
    ensures forall k | b < k < BracesAt(s, b).value.1 :: !IsRenameOrDefaultMark(s[k])
  {
    var body := Run(s, b + 1, BraceBody);
    forall k | b + 1 <= k < b + 1 + body ensures !IsRenameOrDefaultMark(s[k]) {
      assert InClass(BraceBody, s[k]);
    }
  }

  /** Braces whose text starts with a non-space character: group 1 is all of that text. */
  lemma BracesAtTight(s: string, b: nat, close: nat)
    requires b + 1 < close < |s| && s[b] == '{' && s[close] == '}'
    requires forall k | b < k < close :: IsBraceBodyChar(s[k])
    requires !IsSpace(s[b + 1])
    ensures BracesAt(s, b) == Some((b + 1, close))
  {
    BracesAtComplete(s, b, b + 1, close);
  }

  /** A `:` or `=` after the first characters of a brace body ends the run of
      `[A-Za-z0-9_,\s]` before any `}`: renames and defaults defeat the braces. */
  lemma RenameOrDefaultDefeatsBraces(s: string, b: nat, n: nat)
    requires b + 1 + n < |s| && s[b] == '{' && IsRenameOrDefaultMark(s[b + 1 + n])
    requires forall k | b < k < b + 1 + n :: IsBraceBodyChar(s[k])
    ensures BracesAt(s, b) == None
  {
    assert !InClass(BraceBody, s[b + 1 + n]);
    RunUnique(s, b + 1, BraceBody, n);
  }

  /** Without braces after the keyword there is no destructuring match. */
  lemma DestructuringNeedsBraces(s: string, i: nat)
    requires KeywordAt(s, i) > 0
    requires BracesAt(s, BraceOpen(s, i)) == None
    ensures DestructuringAt(s, i) == None
  {
  }

  /** A keyword, braces and an assignment found in turn make one destructuring match. */
  lemma DestructuringAtParts(s: string, i: nat, b: nat, g: nat, close: nat, end: nat)
    requires KeywordAt(s, i) > 0 && b == BraceOpen(s, i)
    requires BracesAt(s, b) == Some((g, close))
    requires AssignmentAfter(s, close) == end > 0
    ensures DestructuringAt(s, i) == Some(Match(i, end, s[g..close]))
  {
  }

  /** A destructuring match has the shape of the regular expression: it starts at the
      keyword, group 1 is the brace text less its leading `\s` (keeping at least one
      character), and it ends after the namespace. */
  lemma DestructuringAtSound(s: string, i: nat) returns (p: DestructuringParts)
    requires DestructuringAt(s, i).Some?
    ensures DestructuringShape(s, i, p)
    ensures DestructuringAt(s, i) == Some(Match(i, p.at + |NamespaceText(p.ns)|, s[p.group..p.close]))
  {
    p := DestructuringAtShape(s, i);
    DestructuringAtComplete(s, i, p);
  }

  /** The parts of a destructuring match. */
  lemma DestructuringAtShape(s: string, i: nat) returns (p: DestructuringParts)
    requires DestructuringAt(s, i).Some?
    ensures DestructuringShape(s, i, p)
  {
    DestructuringHasKeyword(s, i);
    var kw := KeywordAt(s, i);
    var b := BraceOpen(s, i);
    var g, close := DestructuringHasBraces(s, i, b);
    var eq, at, ns := AssignmentAfterSound(s, close);
    DestructuringShapeOf(s, i, kw, b, g, close, eq, at, ns);
    p := DestructuringParts(kw, b, g, close, eq, at, ns);
  }

  /** A destructuring match starts with a keyword, after which the rest of the match is
      found. */
  lemma DestructuringHasKeyword(s: string, i: nat)
    requires DestructuringAt(s, i).Some?
    ensures KeywordAt(s, i) > 0
    ensures DestructuringAfterKeyword(s, i, BraceOpen(s, i)).Some?
  {
  }

  /** After the keyword, a destructuring match has braces and an assignment after them. */
  lemma DestructuringHasBraces(s: string, i: nat, b: nat) returns (g: nat, close: nat)
    requires i <= b && DestructuringAfterKeyword(s, i, b).Some?
    ensures BraceShape(s, b, g, close) && AssignmentAfter(s, close) > 0
  {
    var braces := BracesAt(s, b).value;
    g, close := braces.0, braces.1;
  }

  /** The keyword, `\s*`, braces and assignment found in turn make the whole shape. */
  lemma DestructuringShapeOf(s: string, i: nat, kw: nat, b: nat, g: nat, close: nat, eq: nat, at: nat, ns: Namespace)
    requires i + kw <= b <= |s| && s[i..i + kw] in Keywords && Spaces(s, i + kw, b)
    requires BraceShape(s, b, g, close) && AssignmentShape(s, close, eq, at, ns)
    ensures DestructuringShape(s, i, DestructuringParts(kw, b, g, close, eq, at, ns))
  {
  }

  /** Conversely, text of that shape is a destructuring match, with the end and the group
      the shape fixes. */
  lemma DestructuringAtComplete(s: string, i: nat, p: DestructuringParts)
    requires DestructuringShape(s, i, p)
    ensures DestructuringAt(s, i) == Some(Match(i, p.at + |NamespaceText(p.ns)|, s[p.group..p.close]))
  {
    DestructuringShapeSteps(s, i, p);
    DestructuringAtParts(s, i, p.open, p.group, p.close, p.at + |NamespaceText(p.ns)|);
  }

  /** The positions `DestructuringAt` computes on text of the shape. */
  lemma DestructuringShapeSteps(s: string, i: nat, p: DestructuringParts)
    requires DestructuringShape(s, i, p)
    ensures KeywordAt(s, i) == p.keyword > 0 && p.open == BraceOpen(s, i)
    ensures BracesAt(s, p.open) == Some((p.group, p.close))
    ensures AssignmentAfter(s, p.close) == p.at + |NamespaceText(p.ns)| > 0
  {
    KeywordThenSpaces(s, i, p.keyword, p.open);
    BracesAtComplete(s, p.open, p.group, p.close);
    AssignmentAfterComplete(s, p.close, p.eq, p.at, p.ns);
  }

  /** A keyword and `\s*` before a `{` at `b`: `{` is expected at `b`. */
  lemma KeywordThenSpaces(s: string, i: nat, kw: nat, b: nat)
    requires i + kw <= b < |s| && s[i..i + kw] in Keywords && Spaces(s, i + kw, b) && s[b] == '{'
    ensures KeywordAt(s, i) == kw > 0 && b == BraceOpen(s, i)
  {
    KeywordUnique(s, i, kw);
    assert !IsSpace(s[b]);
    SpacesEndUnique(s, i + kw, b);
  }

  /** The destructuring pattern matches at `i` exactly when the text there has its shape. */
  lemma DestructuringAtIff(s: string, i: nat)
    ensures DestructuringAt(s, i).Some? <==> exists p :: DestructuringShape(s, i, p)
  {
    if DestructuringAt(s, i).Some? {
      var p := DestructuringAtSound(s, i);
    }
    if p :| DestructuringShape(s, i, p) {
      DestructuringAtComplete(s, i, p);
    }
  }

  function MatchAt(p: Pattern, s: string, i: nat): (r: Option<Match>)
    ensures r.Some? ==> r.value.start == i < r.value.end <= |s|
    ensures r.Some? ==> WellFormedCapture(p, r.value.capture)
  {
    match p
    case Dotted(ns) => DottedAt(ns, s, i)
    case Bracketed(ns) => BracketedAt(ns, s, i)
    case Destructuring => DestructuringAt(s, i)
  }

  /** The first position in `[from, bound)` where `f` finds something. */
  function FirstHit(f: nat -> Option<Match>, from: nat, bound: nat): (r: Option<nat>)
    requires from <= bound
    ensures r.Some? ==> from <= r.value < bound && f(r.value).Some?
    ensures forall q | from <= q < bound && (r.None? || q < r.value) :: f(q).None?
    decreases bound - from
  {
    if from == bound then None
    else if f(from).Some? then Some(from)
    else FirstHit(f, from + 1, bound)
  }

  /** The pattern's matcher over the positions of `s`. */
  function Matcher(p: Pattern, s: string): nat -> Option<Match> {
    (q: nat) => MatchAt(p, s, q)
  }

  /** `re.exec(s)` with `re.lastIndex == from`: the match at the first position at or after
      `from` where the pattern matches. */
  function ExecFrom(p: Pattern, s: string, from: nat): (r: Option<Match>)
    requires from <= |s|
    ensures r.Some? ==> from <= r.value.start && MatchAt(p, s, r.value.start) == r
  {
    var hit := FirstHit(Matcher(p, s), from, |s|);
    if hit.None? then None else MatchAt(p, s, hit.value)
  }

  /** A match right at `lastIndex` is the one `exec` returns, and the loop goes on from its
      end. */
  lemma ExecAtStart(p: Pattern, s: string, from: nat)
    requires from <= |s| && MatchAt(p, s, from).Some?
    ensures ExecFrom(p, s, from) == MatchAt(p, s, from)
    ensures Captures(p, s, from) == [MatchAt(p, s, from).value.capture] + Captures(p, s, MatchAt(p, s, from).value.end)
  {
    assert Matcher(p, s)(from).Some?;
  }

  /** `exec` skips no match: a position between `from` and the match it returns (or the end
      of the text, when it returns none) does not match. */
  lemma ExecFromSkipsNothing(p: Pattern, s: string, from: nat, q: nat)
    requires from <= q < |s|
    requires var r := ExecFrom(p, s, from); r.None? || q < r.value.start
    ensures MatchAt(p, s, q).None?
  {
    assert Matcher(p, s)(q) == MatchAt(p, s, q);
  }

  /** Group 1 of every match a global-regex `exec` loop finds, starting at `from`: each search
      resumes where the previous match ended, so matches never overlap. */
  function Captures(p: Pattern, s: string, from: nat): (caps: seq<string>)
    requires from <= |s|
    ensures forall k | 0 <= k < |caps| :: WellFormedCapture(p, caps[k])
    decreases |s| - from
  {
    match ExecFrom(p, s, from)
    case None => []
    case Some(m) => [m.capture] + Captures(p, s, m.end)
  }

  /** Group 1 of every position at or after `from` where the pattern matches, overlapping or not. */
  function Occurrences(p: Pattern, s: string, from: nat): set<string> {
    set q | from <= q < |s| && MatchAt(p, s, q).Some? :: MatchAt(p, s, q).value.capture
  }

  /** Every capture of the exec loop is the capture of a match in the text. */
  lemma {:induction false} CapturesAreOccurrences(p: Pattern, s: string, from: nat)
    requires from <= |s|
    ensures forall x | x in Captures(p, s, from) :: x in Occurrences(p, s, from)
    decreases |s| - from
  {
    var r := ExecFrom(p, s, from);
    if r.Some? {
      var m := r.value;
      CapturesAreOccurrences(p, s, m.end);
      assert m.capture in Occurrences(p, s, from);
      forall x | x in Captures(p, s, m.end) ensures x in Occurrences(p, s, from) {
        var q :| m.end <= q < |s| && MatchAt(p, s, q).Some? && MatchAt(p, s, q).value.capture == x;
      }
    }
  }

  lemma FirstCharOfNamespaceIsUnique(ns: Namespace)
    ensures forall j | 0 < j < |NamespaceText(ns)| :: NamespaceText(ns)[j] != NamespaceText(ns)[0]
    ensures 'a' <= NamespaceText(ns)[0] <= 'z'
  {
  }

  lemma LiteralCharAt(s: string, i: nat, lit: string, k: nat)
    requires LiteralAt(s, i, lit) && i <= k < i + |lit|
    ensures s[k] == lit[k - i]
  {
    assert s[k] == s[i..i + |lit|][k - i];
  }

  /** Inside a prefix `<ns>.` or `<ns>[`, after its first character, the namespace's first
      letter does not occur. */
  lemma NoNamespaceStartInPrefix(ns: Namespace, sep: char, s: string, i: nat, k: nat)
    requires LiteralAt(s, i, NamespaceText(ns) + [sep]) && i < k < i + |NamespaceText(ns)| + 1
    requires sep == '.' || sep == '['
    ensures s[k] != NamespaceText(ns)[0]
  {
    var t := NamespaceText(ns);
    FirstCharOfNamespaceIsUnique(ns);
    LiteralCharAt(s, i, t + [sep], k);
    if k - i < |t| {
      assert (t + [sep])[k - i] == t[k - i];
    }
  }

  lemma NoNamespaceStartInsideDotted(ns: Namespace, s: string, i: nat, k: nat)
    requires DottedAt(ns, s, i).Some? && i < k < DottedAt(ns, s, i).value.end
    ensures s[k] != NamespaceText(ns)[0]
  {
    var t := NamespaceText(ns);
    var m := DottedAt(ns, s, i).value;
    FirstCharOfNamespaceIsUnique(ns);
    if k < i + |t| + 1 {
      NoNamespaceStartInPrefix(ns, '.', s, i, k);
    } else {
      assert s[k] == m.capture[k - (i + |t| + 1)];
    }
  }

  lemma NoNamespaceStartInsideBracketed(ns: Namespace, s: string, i: nat, k: nat)
    requires BracketedAt(ns, s, i).Some? && i < k < BracketedAt(ns, s, i).value.end
    ensures s[k] != NamespaceText(ns)[0]
  {
    var t := NamespaceText(ns);
    var m := BracketedAt(ns, s, i).value;
    var a := i + |t| + 2;
    FirstCharOfNamespaceIsUnique(ns);
    assert BracketShape(ns, s, i, |m.capture|);
    if k < a - 1 {
      NoNamespaceStartInPrefix(ns, '[', s, i, k);
    } else if a <= k < a + |m.capture| {
      assert s[k] == m.capture[k - a];
    }
  }

  /** Inside a match of a dotted or bracketed pattern, after its first character, the
      namespace's first letter does not occur. */
  lemma NoNamespaceStartInside(p: Pattern, s: string, i: nat, k: nat)
    requires !p.Destructuring?
    requires MatchAt(p, s, i).Some? && i < k < MatchAt(p, s, i).value.end
    ensures s[k] != NamespaceText(p.ns)[0]
  {
    if p.Dotted? {
      NoNamespaceStartInsideDotted(p.ns, s, i, k);
    } else {
      NoNamespaceStartInsideBracketed(p.ns, s, i, k);
    }
  }

  /** A match of a dotted or bracketed pattern contains no other match of the same pattern:
      the namespace's first letter occurs nowhere else in it. */
  lemma SimpleMatchesDoNotOverlap(p: Pattern, s: string, i: nat, q: nat)
    requires !p.Destructuring?
    requires MatchAt(p, s, i).Some? && i < q < MatchAt(p, s, i).value.end
    ensures MatchAt(p, s, q).None?
  {
    var t := NamespaceText(p.ns);
    var pre := t + [if p.Dotted? then '.' else '['];
    NoNamespaceStartInside(p, s, i, q);
    if LiteralAt(s, q, pre) {
      LiteralCharAt(s, q, pre, q);
    }
  }

  /** For a dotted or bracketed pattern the exec loop misses nothing: the name at every
      position where the pattern matches is captured. */
  lemma {:induction false} SimpleCapturesComplete(p: Pattern, s: string, from: nat, q: nat)
    requires !p.Destructuring? && from <= q && from <= |s|
    requires MatchAt(p, s, q).Some?
    ensures MatchAt(p, s, q).value.capture in Captures(p, s, from)
    decreases |s| - from
  {
    var r := ExecFrom(p, s, from);
    if r.None? || q < r.value.start {
      ExecFromSkipsNothing(p, s, from, q);
      assert false;
    }
    var m := r.value;
    assert Captures(p, s, from) == [m.capture] + Captures(p, s, m.end);
    if m.start < q {
      if q < m.end {
        SimpleMatchesDoNotOverlap(p, s, m.start, q);
        assert false;
      }
      SimpleCapturesComplete(p, s, m.end, q);
    } else {
      assert m.start == q;
    }
  }

  /** For a dotted or bracketed pattern the exec loop's captures are exactly the names at
      all positions where the pattern matches. */
  lemma SimpleCapturesAreAllOccurrences(p: Pattern, s: string)
    requires !p.Destructuring?
    ensures forall x :: x in Captures(p, s, 0) <==> x in Occurrences(p, s, 0)
  {
    CapturesAreOccurrences(p, s, 0);
    forall x | x in Occurrences(p, s, 0) ensures x in Captures(p, s, 0) {
      var q :| 0 <= q < |s| && MatchAt(p, s, q).Some? && MatchAt(p, s, q).value.capture == x;
      SimpleCapturesComplete(p, s, 0, q);
    }
  }
}
