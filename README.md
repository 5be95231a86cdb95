# env-usage scanner, modelled in Dafny

`index.js` is a command-line tool that compares the environment variables a
JavaScript/TypeScript project uses with the ones its `.env` file defines. It
lists source files with five globs, scans each file's text with four
literal-prefix regular expressions (`process.env.X`, `process.env['X']`,
`import.meta.env.X`, `import.meta.env['X']`) and one destructuring expression
(`const { A, B } = process.env`), collects every name it finds in a `Set`, and
reports the used names that are not defined ("missing") and the defined names
that are not used ("unused").

This project models that core:

- `JsText` holds the character classes (`[A-Z0-9_]`, `[A-Za-z0-9_]`, the
  ECMAScript `\s` set, `[A-Za-z0-9_,\s]`) and the string built-ins the scanner
  calls: `split(',')`, `trim()` and `replace(/[:=].*$/, '')`.
- `Patterns` writes each regular expression as an explicit matcher at one
  position (`DottedAt`, `BracketedAt`, `DestructuringAt`). `ExecFrom` is
  `RegExp.prototype.exec` on a global regex, which takes the leftmost match at
  or after `lastIndex`. `Captures` lists group 1 of every match a
  `while ((m = re.exec(content)) !== null)` loop sees.
- `Names` covers the destructured-name pipeline (`split`, `trim`, strip,
  `filter(Boolean)`, the `/^[A-Za-z0-9_]+$/` test). It also gives the names one
  file contributes (`FileRefs`) and the names of all files (`AllRefs`).
- `InsertionOrder` models a JavaScript `Set` through its iteration order: `add`,
  `Array.from(new Set(xs))`, and first-occurrence order.
- `Scanner` is the imperative scan. `GlobalRegex` is a class with a mutable
  `lastIndex` and an `Exec` method, and `UsedVarSet` is a class whose `Add`
  method updates its item list. The `exec` loops over one file and the loop
  over all files are proved against `Captures`, `FileRefs` and `AllRefs`. The
  regex objects are shared between files, as in the source, and every loop
  provably leaves `lastIndex` at 0.
- `Diff` covers the `missing`/`unused` filters.
- `EnvUsage` covers the whole run after the `.env` file has been read: the
  deduplicated file list, the scan and the comparison.
- `Scenarios` holds concrete inputs that fix edge behaviour.

Behaviour the proofs make explicit:

- **Simple patterns.** The four literal-prefix patterns never overlap
  themselves, so their `exec` loops see exactly the names at every position
  where the pattern matches (`SimpleCapturesAreAllOccurrences`).
- **Destructuring overlap.** Destructuring matches can overlap. A second
  destructuring can begin inside the text of the first, as in
  `var{A}=process.envar{B}=process.env`, and `exec` resumes after the first
  match, so the second is skipped (`OverlappingDestructuringIsSkipped`). For
  destructuring the model therefore states only what the loop does see.
- **Renames and defaults.** A destructuring with a rename (`{ A: B }`) or a
  default (`{ A = 1 }`) never matches. The brace-body class excludes `:` and
  `=`, so the `replace(/[:=].*$/, '')` meant to strip renames and defaults never
  changes a piece (`BracesHoldNoRenameOrDefault`, `StripIsDeadOnCaptures`,
  `RenameOrDefaultDefeatsBraces`, `RenameDefeatsDestructuring`). The comment
  at index.js:62 says the strip removes renames like `A: B` and default
  assignments, which implies such a destructuring yields its names. The model
  follows the code, where it yields nothing.
- **Spaces inside a piece.** Group 1 may hold spaces between names, as in
  the group `A B,C` of `var{A B,C}=process.env`. The piece `A B` keeps its
  inner space after `trim()`, fails `/^[A-Za-z0-9_]+$/` and is dropped, so
  only `C` is used (`InnerSpaceRejectsPiece`).
- **Dotted names.** The dotted form takes the longest `[A-Z0-9_]` run, so
  `process.env.FOO_bar` yields `FOO_`.
- **Bracketed quotes.** The bracketed form accepts mismatched quotes.

## Model

| member | source | states |
|---|---|---|
| JsText.Split | index.js:61 | `split(',')` gives at least one piece, no piece holds the separator, and the pieces joined with the separator give back the text |
| JsText.SplitJoin | index.js:61 | splitting a join of separator-free pieces gives the same pieces back (the other half of the round trip) |
| JsText.TrimStart | index.js:62 | the result is a suffix of the text, everything cut off is `\s`, and the result does not start with `\s` |
| JsText.TrimEnd | index.js:62 | the result is a prefix of the text, everything cut off is `\s`, and the result does not end with `\s` |
| JsText.Trim | index.js:62 | the trimmed text is an infix of the text with only `\s` before and after it; it neither starts nor ends with `\s`, is empty exactly when the text is all `\s`, equals the text when it has no `\s`, and holds only characters of the text |
| JsText.TrimIdempotent | index.js:62 | trimming twice is trimming once |
| JsText.StripRenameDefault | index.js:62 | `replace(/[:=].*$/, '')` keeps a prefix of the piece and cuts at the leftmost `:` or `=` that has no line terminator after it, or nowhere if there is none |
| JsText.Run | index.js:39-46 | a greedy character-class run has the maximal length: every character in it is in the class, and the next character is not |
| Patterns.DottedAt | index.js:38-43 | `<ns>.NAME` matches exactly when the prefix is followed by a `[A-Z0-9_]` character; the name is the longest such run after the dot |
| Patterns.BracketedAt | index.js:38-43 | a match has the shape `<ns>['NAME']`, with each quote `'` or `"` chosen independently; it starts at the position, ends after the `]`, and group 1 is the name, a non-empty `[A-Z0-9_]` run (the converse is `BracketedAtComplete`) |
| Patterns.BracketedAtComplete | index.js:38-43 | whenever the text has the bracketed shape at a position, the pattern matches there and group 1 is the whole name run |
| Patterns.KeywordAt | index.js:46 | a positive length means `const`, `let` or `var` starts at the position with that length; zero means none of the three does |
| Patterns.KeywordUnique | index.js:46 | whichever keyword literally starts at the position, `KeywordAt` returns its length |
| Patterns.NamespaceAt | index.js:46 | it returns the length of `process.env` exactly when that literal starts at the position, the length of `import.meta.env` exactly when that one does, and 0 otherwise |
| Patterns.SpacesEnd | index.js:46 | a greedy `\s*` stops after spaces only and not before another space |
| Patterns.SpacesEndUnique | index.js:46 | a run of spaces followed by a non-space (or the end) is exactly where `\s*` stops |
| Patterns.BraceOpen | index.js:46 | after a keyword, `{` is expected past the keyword and the `\s` that follow it |
| Patterns.BracesAt | index.js:46 | braces found at a position have the shape of `\{\s*([A-Za-z0-9_,\s]+)\s*\}`: non-empty brace-body text up to the first `}`, and group 1 starts after the leading `\s` but keeps at least one character |
| Patterns.BracesAtComplete | index.js:46 | conversely, braces of that shape are found, with that group and that `}` |
| Patterns.AssignmentAfter | index.js:46 | a found `\s*=\s*` and namespace end after the `}` and within the text |
| Patterns.AssignmentAfterSound | index.js:46 | a found assignment is `\s*`, `=`, `\s*` and a namespace literal, and ends right after the namespace |
| Patterns.AssignmentAfterComplete | index.js:46 | conversely, text of that shape after the `}` is found and ends right after its namespace |
| Patterns.DestructuringAt | index.js:46 | a destructuring match starts at the position, ends within the text, and has a non-empty group made only of `[A-Za-z0-9_,\s]` characters (where it ends and which text the group is are stated by `DestructuringAtSound`) |
| Patterns.DestructuringAtSound | index.js:46 | a destructuring match is keyword, `\s*`, braces, `\s*=\s*` and namespace in turn; it ends after the namespace and group 1 is the brace text less its leading `\s` |
| Patterns.DestructuringAtComplete | index.js:46 | conversely, text of that shape at a position (leading whitespace in the braces included) is a match, with the end and group 1 the shape fixes |
| Patterns.DestructuringAtIff | index.js:46 | the destructuring expression matches at a position exactly when the text there has its shape |
| Patterns.MatchAt | index.js:38-46 | a match of any of the five expressions starts at the position, ends within the text, and has a well-formed group 1 |
| Patterns.BracesHoldNoRenameOrDefault | index.js:46 | no `:` and no `=` stands between the braces of a matched destructuring |
| Patterns.BracesAtTight | index.js:46 | braces around `[A-Za-z0-9_,\s]` text that starts with a non-space character match, and group 1 is all of that text |
| Patterns.RenameOrDefaultDefeatsBraces | index.js:46 | a `:` or `=` after brace-body characters means the braces do not match, so a rename or default defeats the destructuring |
| Patterns.ExecFrom | index.js:53 | `exec` from `lastIndex` returns a match that starts at or after it, and is exactly the match at that position |
| Patterns.ExecAtStart | index.js:53 | when a match starts right at `lastIndex`, `exec` returns it and the loop goes on from its end |
| Patterns.ExecFromSkipsNothing | index.js:53 | no position between `lastIndex` and the returned match (or the end of the text, when there is none) matches: `exec` takes the leftmost match |
| Patterns.Captures | index.js:53-54 | every group 1 the `exec` loop sees is well formed for its pattern (an env name for the simple forms) |
| Patterns.CapturesAreOccurrences | index.js:51-59 | every name an `exec` loop sees is the group of a match somewhere in the text |
| Patterns.SimpleMatchesDoNotOverlap | index.js:38-43 | no literal-prefix pattern matches at a position strictly inside one of its own matches |
| Patterns.SimpleCapturesComplete | index.js:51-56 | every match of a literal-prefix pattern at or after the loop's start is seen by the `exec` loop |
| Patterns.SimpleCapturesAreAllOccurrences | index.js:38-56 | a name is seen by a literal-prefix loop exactly when the pattern matches somewhere with that name |
| InsertionOrder.Insert | index.js:54 | `set.add(x)` keeps the old values in place, adds `x`, and keeps the values distinct |
| InsertionOrder.AddAll | index.js:53-54 | adding many values keeps the old ones as a prefix, holds exactly old and new values, and keeps them distinct |
| InsertionOrder.Dedup | index.js:26-28 | `Array.from(new Set(xs))` holds each value of `xs` exactly once |
| InsertionOrder.AddAllAppend | index.js:48-69 | adding two batches one after the other is adding their concatenation |
| InsertionOrder.AddAllKnown | index.js:54 | adding values already in the set changes nothing |
| InsertionOrder.DedupKeepsFirstOccurrenceOrder | index.js:26-28 | the set lists its values in the order of their first occurrence |
| InsertionOrder.DedupOfDistinct | index.js:26-28 | deduplicating a list without repeats gives the list unchanged |
| InsertionOrder.Concat | index.js:27 | `flatMap` over the glob results, the same flat-map as the name lists, holds exactly the paths of some glob |
| Names.CleanPiece | index.js:62 | the cleaned piece is the trimmed piece cut exactly at its leftmost `:` or `=` that has no line terminator after it, or the whole trimmed piece when there is no such place; in particular it is the trimmed piece when the piece holds no `:` or `=` |
| Names.CleanAll | index.js:62 | the `.map` keeps the number of pieces and cleans each piece in its place |
| Names.CleanAllMembers | index.js:62 | a string is among the mapped pieces exactly when some piece cleans to it |
| Names.BoundNames | index.js:60-63 | a string is among the names exactly when it is non-empty and some comma-separated piece of the group cleans to it |
| Names.CleanPieceOfName | index.js:62 | a `[A-Za-z0-9_]+` name is left unchanged by the trim and the rename/default strip |
| Names.NonEmpty | index.js:63 | `filter(Boolean)` keeps exactly the non-empty strings |
| Names.KeepBindingNames | index.js:64-66 | a name is kept exactly when it is in the list and passes `/^[A-Za-z0-9_]+$/` |
| Names.NonEmptyAppend | index.js:63 | `filter(Boolean)` of a concatenation is the concatenation of the filtered parts, so kept names keep their order and repeats |
| Names.KeepBindingNamesAppend | index.js:64-66 | the name test applied to a concatenation gives the concatenation of the parts' results, so kept names keep their order and repeats |
| Names.BindingsOf | index.js:60-67 | one destructuring match adds exactly the names that pass `/^[A-Za-z0-9_]+$/` and that some comma-separated piece of its group cleans to |
| Names.DestructuredRefs | index.js:58-68 | a name is among the destructured names exactly when one of the matches seen adds it |
| Names.SimpleRefs | index.js:51-56 | a name comes out of the literal-prefix loops exactly when the `exec` loop of one of the patterns captures it |
| Names.StripIsDeadOnCaptures | index.js:60-62 | on a piece of a destructuring's group, the rename/default strip changes nothing: the cleaned piece is the trimmed piece |
| Names.CleanedPiecesAreTrimmed | index.js:60-63 | for a destructuring's group, the cleaned non-empty pieces are the trimmed non-empty pieces |
| Names.TrimAllMembers | index.js:62 | a string is among the trimmed pieces exactly when it is the trim of some piece |
| Names.DestructuredNamesOfCapture | index.js:60-67 | a matched destructuring binds exactly the `[A-Za-z0-9_]+` names that are the trim of one of its comma-separated pieces |
| Names.SimpleRefsAreEnvNames | index.js:38-43 | every name from a literal-prefix pattern is a non-empty `[A-Z0-9_]` run |
| Names.SimpleRefsAreOccurrences | index.js:38-56 | the four literal-prefix loops together see exactly the names at positions where one of the four patterns matches |
| InsertionOrder.FlatMapSnoc | index.js:48-69 | the names of one more item come after the names of the earlier items |
| InsertionOrder.FlatMapMembers | index.js:48-69 | a value is in the concatenated per-item lists exactly when one item's list holds it; `Concat`, `SimpleRefs`, `DestructuredRefs` and `AllRefs` rest on it |
| Names.FileRefs | index.js:48-69 | every name one file contributes passes `/^[A-Za-z0-9_]+$/` |
| Names.AllRefs | index.js:48-69 | every name any file contributes passes `/^[A-Za-z0-9_]+$/` |
| Names.DestructuredRefsMembers | index.js:58-68 | the destructurings seen add exactly the `[A-Za-z0-9_]+` names that are the trim of a comma-separated piece of one of their groups |
| Names.FileRefsMembers | index.js:48-69 | a file contributes exactly the groups of literal-prefix matches anywhere in it (`IsSimpleOccurrence`) and the binding names that are a trimmed piece of a destructuring its `exec` loop sees (`IsDestructuredBinding`) |
| Names.AllRefsMembers | index.js:48-69 | a name is used exactly when some file contributes it |
| Scanner.GlobalRegex.Exec | index.js:53 | `exec` returns the leftmost match from `lastIndex` (none when `lastIndex` is past the end), then sets `lastIndex` to the match end or resets it to 0 |
| Scanner.UsedVarSet.Add | index.js:54 | `usedVarsSet.add(name)` is `Insert` on the set's item list and keeps the items distinct |
| Scanner.ExecStep | index.js:53 | one `exec` finds a non-empty match at or after `lastIndex`, and what the loop still sees is its group followed by the captures after it |
| Scanner.SeenStep | index.js:53-54 | after one match, the captures seen so far plus the match's group plus what follows it are all the loop's captures |
| Scanner.ScanSimple | index.js:51-56 | one literal-prefix loop adds the captures of its pattern in order and leaves `lastIndex` at 0 |
| Scanner.AddBindingNames | index.js:64-67 | the `forEach` adds exactly the names that pass the test, in order |
| Scanner.AddDestructuredNames | index.js:59-67 | the loop body for one match adds that match's binding names after those of the earlier matches and keeps the set's items distinct |
| Scanner.ScanDestructuring | index.js:58-68 | the destructuring loop adds the bound names of every match it sees, in order, and leaves `lastIndex` at 0 |
| Scanner.ScanSimplePatterns | index.js:51-56 | the four literal-prefix loops add their captures pattern after pattern and leave every regex at `lastIndex` 0 |
| Scanner.ScanFile | index.js:48-69 | scanning one file adds its names to the set in scan order and leaves all five shared regexes at `lastIndex` 0 |
| Scanner.SimpleRefsStep | index.js:51-56 | running one more literal-prefix regex appends its captures to the names of the earlier ones |
| Scanner.NextFile | index.js:48-69 | scanning one more file adds that file's names to the set the earlier files built |
| Scanner.CollectUsedVars | index.js:36-72 | the used list is the deduplicated names of all files, file after file |
| Diff.Without | index.js:73-74 | the filter keeps exactly the values not in the other list, without adding repeats |
| Diff.WithoutKeepsOrder | index.js:73-74 | the filter keeps the order of the list it filters |
| Diff.Compare | index.js:72-74 | a used name is missing exactly when it is not defined; a defined name is unused exactly when it is not used; both lists draw only from their source and have no repeats when their source has none |
| Diff.CompareKeepsOrder | index.js:73-74 | `missing` follows the used order and `unused` the defined order |
| Diff.CompareFooBarBaz | index.js:72-74 | with FOO and BAR defined and FOO and BAZ used, BAZ is missing and BAR unused |
| Diff.CompareNothingUsed | index.js:72-74 | with nothing used, every defined name is unused |
| EnvUsage.ScannedFiles | index.js:19-28 | the file list holds each path some glob returned, exactly once |
| EnvUsage.ScannedFilesKeepFirstMatchOrder | index.js:26-28 | paths keep the order of their first appearance across the globs |
| EnvUsage.UsedNames | index.js:72 | `Array.from(usedVarsSet)` lists no name twice, and every name in it passes `/^[A-Za-z0-9_]+$/` |
| EnvUsage.UsedNamesMembers | index.js:48-72 | a name is in the used list exactly when some listed file contributes it |
| EnvUsage.UsedNamesIgnoreFileOrder | index.js:48-69 | which names count as used depends only on which files are listed, not on their order or repetition |
| EnvUsage.RescanAddsNothing | index.js:48-69 | scanning a file a second time adds no name |
| EnvUsage.CheckEnv | index.js:26-74 | missing names are exactly those some listed file uses and the `.env` file does not define; unused names are exactly the defined ones no listed file uses; `missing` has no repeats |
| Scenarios.DottedStopsAtLowerCase | index.js:39 | `process.env.FOO_bar` yields `FOO_` |
| Scenarios.DottedNeedsUpperCase | index.js:39 | `process.env.foo` does not match |
| Scenarios.BracketedAcceptsMismatchedQuotes | index.js:42 | `import.meta.env['KEY"]` yields `KEY` |
| Scenarios.DestructuringMatches | index.js:46 | `var{A,b}=process.env` matches with group `A,b` |
| Scenarios.DestructuringBindsNames | index.js:60-67 | the group `A,b` binds `A` and `b` |
| Scenarios.ConstDestructuringMatches | index.js:46 | `const { A, B } = process.env` matches over its whole length with group `A, B ` (the leading space dropped, the trailing one kept) |
| Scenarios.InnerSpaceRejectsPiece | index.js:60-66 | the group `A B,C` yields only `C`: the piece `A B` keeps its inner space and fails the name test |
| Scenarios.VarOneNameMatches | index.js:46 | `var{X}=process.env` with a single name character `X` matches over 18 characters with group `X`, wherever it stands in the text |
| Scenarios.OverlappingDestructuringIsSkipped | index.js:46-59 | in `var{A}=process.envar{B}=process.env` a second match starts at 17, inside the first match `[0, 18)`, and the `exec` loop resumes at 18, so `B`'s match is never seen |
| Scenarios.RenameDefeatsDestructuring | index.js:46 | `var{a:b}=process.env` does not match, so the rename strip is never reached |

## Left out

- Reading `.env` and the exit when it is missing (index.js:9-13) are not modelled, because they are file-system I/O.
- The parsing of `.env` by `dotenv.parse` is not modelled. The defined names are an input in the order of `Object.keys`, and the `dotenv` package is not part of this model.
- `glob.sync` is not modelled. Each glob's result is an input list of paths, and the `glob` package is not part of this model.
- `fs.readFileSync` of each listed file is a map from path to text (`EnvUsage.Texts`). A file that cannot be read, which throws in the source, is excluded by `CheckEnv`'s precondition.
- The printed report (index.js:76-103) is not modelled: the colours, the headings, the "no missing/unused" lines and the `EASTER_EGG` message are console output.
- Text is a sequence of Unicode scalar values, while JavaScript strings are UTF-16 code units. The classes involved are all in the Basic Multilingual Plane, so this changes no match, but surrogate pairs are not modelled.
