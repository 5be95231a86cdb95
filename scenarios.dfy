/** Concrete inputs that pin down how the scanner's patterns behave at their edges. */
module Scenarios {
  import opened JsText
  import opened Patterns
  import opened Names

  /** The dotted form stops at the first character outside `[A-Z0-9_]`: a lower-case tail is
      cut off rather than rejecting the name. */
  lemma DottedStopsAtLowerCase()
    ensures DottedAt(ProcessEnv, "process.env.FOO_bar", 0) == Some(Match(0, 16, "FOO_"))
  {
    var s := "process.env.FOO_bar";
    assert LiteralAt(s, 0, NamespaceText(ProcessEnv) + ".");
    RunUnique(s, 12, EnvName, 4);
    assert s[12..16] == "FOO_";
  }

  /** A lower-case name after the dot is not a reference at all. */
  lemma DottedNeedsUpperCase()
    ensures DottedAt(ProcessEnv, "process.env.foo", 0) == None
  {
  }

  /** The two quotes of the bracketed form are chosen independently, so mismatched quotes
      still match. */
  lemma BracketedAcceptsMismatchedQuotes()
    ensures BracketedAt(ImportMetaEnv, "import.meta.env['KEY\"]", 0) == Some(Match(0, 22, "KEY"))
  {
    var s := "import.meta.env['KEY\"]";
    assert LiteralAt(s, 0, NamespaceText(ImportMetaEnv) + "[");
    RunUnique(s, 17, EnvName, 3);
    assert s[17..20] == "KEY";
  }

  /** `var` followed directly by `{`. */
  lemma VarThenBrace(s: string)
    requires |s| > 3 && s[0] == 'v' && s[1] == 'a' && s[2] == 'r' && s[3] == '{'
    ensures KeywordAt(s, 0) == 3 && Run(s, 3, Space) == 0
  {
    assert LiteralAt(s, 0, "var");
    assert !LiteralAt(s, 0, "const") && !LiteralAt(s, 0, "let") by {
      assert s[0] != "const"[0] && s[0] != "let"[0];
    }
    RunUnique(s, 3, Space, 0);
  }

  lemma ExampleBraces(s: string)
    requires s == "var{A,b}=process.env"
    ensures KeywordAt(s, 0) == 3
    ensures Run(s, 3, Space) == 0
    ensures BracesAt(s, 3) == Some((4, 7))
  {
    assert s[0] == 'v' && s[1] == 'a' && s[2] == 'r' && s[3] == '{';
    VarThenBrace(s);
    assert s[4] == 'A' && s[5] == ',' && s[6] == 'b' && s[7] == '}';
    BracesAtTight(s, 3, 7);
  }

  lemma ExampleAssignment(s: string)
    requires s == "var{A,b}=process.env"
    ensures AssignmentAfter(s, 7) == 20
  {
    assert s[8] == '=';
    RunUnique(s, 8, Space, 0);
    RunUnique(s, 9, Space, 0);
    assert LiteralAt(s, 9, NamespaceText(ProcessEnv));
  }

  lemma ExampleCapture(s: string)
    requires s == "var{A,b}=process.env"
    ensures s[4..7] == "A,b"
  {
  }

  /** A destructuring with no spaces matches; group 1 is the brace text. */
  lemma DestructuringMatches(s: string)
    requires s == "var{A,b}=process.env"
    ensures DestructuringAt(s, 0) == Some(Match(0, 20, "A,b"))
  {
    ExampleBraces(s);
    ExampleAssignment(s);
    ExampleCapture(s);
    DestructuringAtParts(s, 0, 3, 4, 7, 20);
  }

  lemma ExampleConstText(s: string)
    requires s == "const { A, B } = process.env"
    ensures |s| == 28 && s[6] == '{' && s[13] == '}' && s[15] == '=' && !IsSpace(s[8])
  {
  }

  lemma ExampleConstSlices(s: string)
    requires s == "const { A, B } = process.env"
    ensures s[..5] == "const" && s[8..13] == "A, B "
  {
    assert s[..5] == s[0..5];
  }

  lemma ExampleConstSpaces(s: string)
    requires s == "const { A, B } = process.env"
    ensures Spaces(s, 5, 6) && Spaces(s, 7, 8) && Spaces(s, 14, 15) && Spaces(s, 16, 17)
  {
    assert s[5] == ' ' && s[7] == ' ' && s[14] == ' ' && s[16] == ' ';
  }

  lemma ExampleConstBody(s: string)
    requires s == "const { A, B } = process.env"
    ensures forall k | 6 < k < 13 :: IsBraceBodyChar(s[k])
  {
    assert s[7] == ' ' && s[8] == 'A' && s[9] == ',' && s[10] == ' ' && s[11] == 'B' && s[12] == ' ';
  }

  lemma ExampleConstNamespace(s: string)
    requires s == "const { A, B } = process.env"
    ensures LiteralAt(s, 17, NamespaceText(ProcessEnv))
  {
    assert s[17..28] == "process.env";
  }

  lemma ExampleConstShape(s: string, p: DestructuringParts)
    requires s == "const { A, B } = process.env"
    requires p == DestructuringParts(5, 6, 8, 13, 15, 17, ProcessEnv)
    ensures DestructuringShape(s, 0, p)
  {
    ExampleConstText(s);
    ExampleConstSlices(s);
    ExampleConstSpaces(s);
    ExampleConstBody(s);
    ExampleConstNamespace(s);
    assert s[0..5] in Keywords;
  }

  /** The spaced-out form also matches: the leading space inside the braces is skipped, the
      trailing one stays in group 1. */
  lemma ConstDestructuringMatches(s: string)
    requires s == "const { A, B } = process.env"
    ensures DestructuringAt(s, 0) == Some(Match(0, 28, "A, B "))
  {
    var p := DestructuringParts(5, 6, 8, 13, 15, 17, ProcessEnv);
    ExampleConstShape(s, p);
    DestructuringAtComplete(s, 0, p);
    ExampleConstText(s);
    ExampleConstSlices(s);
  }

  lemma ExampleClean(parts: seq<string>)
    requires parts == ["A", "b"]
    ensures CleanAll(parts) == parts
  {
    CleanPieceOfName(parts[0]);
    CleanPieceOfName(parts[1]);
    assert CleanAll(parts)[0] == parts[0] && CleanAll(parts)[1] == parts[1];
  }

  lemma ExampleKeep()
    ensures NonEmpty(["A", "b"]) == ["A", "b"]
    ensures KeepBindingNames(["A", "b"]) == ["A", "b"]
  {
    var parts: seq<string> := ["A", "b"];
    assert parts[..1] == ["A"] && ["A"][..0] == [];
  }

  /** Both names of that match are bound, lower-case ones included. */
  lemma DestructuringBindsNames()
    ensures KeepBindingNames(BoundNames("A,b")) == ["A", "b"]
  {
    assert Join(["A", "b"], ',') == "A,b";
    SplitJoin(["A", "b"], ',');
    ExampleClean(["A", "b"]);
    ExampleKeep();
  }

  /** `trim` keeps the space inside a piece: only the ends are trimmed. */
  lemma ExampleInnerSpaceKept(piece: string)
    requires piece == "A B"
    ensures CleanPiece(piece) == piece && !IsBindingName(piece)
  {
    var r := Trim(piece);
    var a :| Padded(piece, a, r);
    assert !IsSpace(piece[0]) && !IsSpace(piece[2]);
    assert a == 0 && |r| == 3;
    StripWithoutMarks(piece);
    assert !IsWordChar(piece[1]);
  }

  lemma ExampleSpacedClean(parts: seq<string>)
    requires parts == ["A B", "C"]
    ensures CleanAll(parts) == parts
  {
    ExampleInnerSpaceKept(parts[0]);
    CleanPieceOfName(parts[1]);
    assert CleanAll(parts)[0] == parts[0] && CleanAll(parts)[1] == parts[1];
  }

  lemma ExampleSpacedKeep(parts: seq<string>)
    requires parts == ["A B", "C"]
    ensures NonEmpty(parts) == parts
    ensures KeepBindingNames(parts) == ["C"]
  {
    ExampleInnerSpaceKept(parts[0]);
    assert parts[..1] == ["A B"] && ["A B"][..0] == [];
  }

  /** A piece with whitespace inside it (`A B`) is not a name, so only `C` is bound. */
  lemma InnerSpaceRejectsPiece()
    ensures KeepBindingNames(BoundNames("A B,C")) == ["C"]
  {
    assert Join(["A B", "C"], ',') == "A B,C";
    SplitJoin(["A B", "C"], ',');
    ExampleSpacedClean(["A B", "C"]);
    ExampleSpacedKeep(["A B", "C"]);
  }

  lemma ExampleRenameText(s: string)
    requires s == "var{a:b}=process.env"
    ensures |s| > 5 && s[0] == 'v' && s[1] == 'a' && s[2] == 'r' && s[3] == '{'
    ensures IsBraceBodyChar(s[4]) && IsRenameOrDefaultMark(s[5])
  {
  }

  /** A destructuring with a rename does not match at all, so none of its names is used. */
  lemma RenameDefeatsDestructuring(s: string)
    requires s == "var{a:b}=process.env"
    ensures DestructuringAt(s, 0) == None
  {
    ExampleRenameText(s);
    VarThenBrace(s);
    RenameOrDefaultDefeatsBraces(s, 3, 1);
    DestructuringNeedsBraces(s, 0);
  }

  /** `var{X}=process.env` at `i`, with one name character `X`, is a match of 18 characters
      whose group 1 is `X`. */
  lemma VarOneNameMatches(s: string, i: nat, x: char)
    requires i + 18 <= |s| && s[i..i + 18] == "var{" + [x] + "}=process.env" && IsWordChar(x)
    ensures DestructuringAt(s, i) == Some(Match(i, i + 18, [x]))
  {
    var p := DestructuringParts(3, i + 3, i + 4, i + 5, i + 6, i + 7, ProcessEnv);
    VarOneNameShape(s, i, x, p);
    DestructuringAtComplete(s, i, p);
    assert s[i + 4..i + 5] == [s[i + 4]];
  }

  /** The parts of `var{X}=process.env` at `i`. */
  lemma VarOneNameShape(s: string, i: nat, x: char, p: DestructuringParts)
    requires i + 18 <= |s| && s[i..i + 18] == "var{" + [x] + "}=process.env" && IsWordChar(x)
    requires p == DestructuringParts(3, i + 3, i + 4, i + 5, i + 6, i + 7, ProcessEnv)
    ensures DestructuringShape(s, i, p) && s[i + 4] == x
  {
    VarOneNameText(s, i, x);
    assert BraceShape(s, i + 3, i + 4, i + 5);
  }

  /** The characters of `var{X}=process.env` at `i`. */
  lemma VarOneNameText(s: string, i: nat, x: char)
    requires i + 18 <= |s| && s[i..i + 18] == "var{" + [x] + "}=process.env"
    ensures s[i..i + 3] == Keywords[2] && s[i + 3] == '{' && s[i + 4] == x
    ensures s[i + 5] == '}' && s[i + 6] == '='
    ensures LiteralAt(s, i + 7, NamespaceText(ProcessEnv))
  {
    var t := s[i..i + 18];
    assert s[i..i + 3] == t[..3];
    assert s[i + 3] == t[3] && s[i + 4] == t[4] && s[i + 5] == t[5] && s[i + 6] == t[6];
    assert s[i + 7..i + 18] == t[7..];
  }

  /** Two destructurings that share the `v` of `env`/`var`: the second starts at 17, inside
      the first match, and `exec` resumes at 18, so the loop never sees `B`'s match. */
  lemma OverlappingDestructuringIsSkipped(s: string)
    requires s == "var{A}=process.envar{B}=process.env"
    ensures DestructuringAt(s, 17) == Some(Match(17, 35, "B"))
    ensures ExecFrom(Destructuring, s, 0) == Some(Match(0, 18, "A"))
    ensures Captures(Destructuring, s, 0) == ["A"] + Captures(Destructuring, s, 18)
  {
    OverlapFirstText(s);
    OverlapSecondText(s);
    VarOneNameMatches(s, 0, 'A');
    VarOneNameMatches(s, 17, 'B');
    ExecAtStart(Destructuring, s, 0);
  }

  lemma OverlapFirstText(s: string)
    requires s == "var{A}=process.envar{B}=process.env"
    ensures |s| == 35 && s[0..18] == "var{" + ['A'] + "}=process.env"
  {
    assert s[0..18] == s[..18] == "var{A}=process.env";
  }

  lemma OverlapSecondText(s: string)
    requires s == "var{A}=process.envar{B}=process.env"
    ensures |s| == 35 && s[17..35] == "var{" + ['B'] + "}=process.env"
  {
    assert s[17..35] == s[17..] == "var{B}=process.env";
  }
}
