/** The whole run: the file list built from the glob results, the scan of every listed file,
    and the report of missing and unused names against the names the `.env` file defines. */
module EnvUsage {
  import opened InsertionOrder
  import opened Names
  import opened Scanner
  import opened Diff

  /** `Array.from(new Set(globs.flatMap((g) => glob.sync(g, { nodir: true }))))`: every path
      any glob returned, once, in the order of its first appearance. */
  function ScannedFiles(globResults: seq<seq<string>>): (files: seq<string>)
    ensures NoDuplicates(files)
    ensures forall f :: f in files <==> exists g | 0 <= g < |globResults| :: f in globResults[g]
  {
    Dedup(Concat(globResults))
  }

  /** A path two globs both return (a root file matched by `*.{js,ts,jsx,tsx}` and by a
      directory glob, say) is listed once, at the place of its first match. */
  lemma ScannedFilesKeepFirstMatchOrder(globResults: seq<seq<string>>)
    ensures var all := Concat(globResults); var files := ScannedFiles(globResults);
      forall i, j | 0 <= i < j < |files| :: FirstIndex(all, files[i]) < FirstIndex(all, files[j])
  {
    DedupKeepsFirstOccurrenceOrder(Concat(globResults));
  }

  /** The texts of the listed files, in list order. */
  function Texts(files: seq<string>, fileText: map<string, string>): (texts: seq<string>)
    requires forall f | f in files :: f in fileText
    ensures |texts| == |files| && forall i | 0 <= i < |files| :: texts[i] == fileText[files[i]]
  {
    seq(|files|, i requires 0 <= i < |files| => fileText[files[i]])
  }

  /** The used-name list the run compares: the scanner's set, listed in insertion order. */
  ghost function UsedNames(files: seq<string>, fileText: map<string, string>): (used: seq<string>)
    requires forall f | f in files :: f in fileText
    ensures NoDuplicates(used)
    ensures forall x | x in used :: IsBindingName(x)
  {
    Dedup(AllRefs(Texts(files, fileText)))
  }

  /** A name is used exactly when some scanned file contributes it. */
  lemma UsedNamesMembers(files: seq<string>, fileText: map<string, string>)
    requires forall f | f in files :: f in fileText
    ensures forall x :: x in UsedNames(files, fileText) <==>
      exists f | f in files :: x in FileRefs(fileText[f])
  {
    var texts := Texts(files, fileText);
    AllRefsMembers(texts);
    forall x ensures x in AllRefs(texts) <==> exists f | f in files :: x in FileRefs(fileText[f]) {
      if i :| 0 <= i < |texts| && x in FileRefs(texts[i]) {
        assert files[i] in files;
      }
      if f :| f in files && x in FileRefs(fileText[f]) {
        var i :| 0 <= i < |files| && files[i] == f;
        assert x in FileRefs(texts[i]);
      }
    }
  }

  /** Which names count as used does not depend on the order of the files nor on how often a
      file is listed; only the order of the used list does. */
  lemma UsedNamesIgnoreFileOrder(a: seq<string>, b: seq<string>, fileText: map<string, string>)
    requires forall f | f in a :: f in fileText
    requires forall f :: f in a <==> f in b
    ensures forall x :: x in UsedNames(a, fileText) <==> x in UsedNames(b, fileText)
  {
    UsedNamesMembers(a, fileText);
    UsedNamesMembers(b, fileText);
  }

  /** Scanning a file a second time adds nothing: every name it yields is already in the set. */
  lemma RescanAddsNothing(contents: seq<string>, i: nat)
    requires i < |contents|
    ensures Dedup(AllRefs(contents + [contents[i]])) == Dedup(AllRefs(contents))
  {
    var again := contents + [contents[i]];
    assert again[..|contents|] == contents;
    assert AllRefs(again) == AllRefs(contents) + FileRefs(contents[i]);
    AddAllAppend([], AllRefs(contents), FileRefs(contents[i]));
    AllRefsMembers(contents);
    AddAllKnown(Dedup(AllRefs(contents)), FileRefs(contents[i]));
  }

  /** The run after the `.env` file has been read: scan the listed files, then compare. A
      name is missing exactly when some file uses it and the `.env` file does not define it;
      a defined name is unused exactly when no file uses it. Both lists are free of
      repeats when the defined names are. */
  method CheckEnv(defined: seq<string>, globResults: seq<seq<string>>, fileText: map<string, string>)
    returns (report: Report)
    requires forall f | f in Concat(globResults) :: f in fileText
    ensures var files := ScannedFiles(globResults);
      report == Compare(UsedNames(files, fileText), defined)
    ensures forall v :: v in report.missing <==>
      v !in defined && exists f | f in ScannedFiles(globResults) :: v in FileRefs(fileText[f])
    ensures forall v :: v in report.unused <==>
      v in defined && forall f | f in ScannedFiles(globResults) :: v !in FileRefs(fileText[f])
    ensures NoDuplicates(report.missing)
    ensures NoDuplicates(defined) ==> NoDuplicates(report.unused)
  {
    var files := ScannedFiles(globResults);
    var usedVars := CollectUsedVars(Texts(files, fileText));
    report := Compare(usedVars, defined);
    UsedNamesMembers(files, fileText);
  }
}
