/** `CheckALlFolderDefinitions` and `ProcessFolderDefinition`: a small interpreter
    over folder definitions. For every definition whose folder exists, every file
    under it that matches the definition's pattern is looked up in the database by
    base name and classified as new, updated or unchanged. */
module FolderCheck {
  import opened Wrappers
  import opened Text
  import opened XmlClean
  import opened Host

  /** A folder definition as deserialised from its XML file. */
  datatype FolderDefinition = FolderDefinition(
    name: string,          // used in reports only
    directory: string,     // relative to the CodeSource root
    extension: string,     // file pattern, such as `*.xml`
    loadStatement: string) // query with a `:filename` parameter

  /** The database: a load statement run with `:filename` bound gives the text of
      the first row's CLOB, or `None` when the reader yields no row. */
  type Lookup = (string, string) -> Option<string>

  /** What happens to one file. */
  datatype Outcome = New | Updated | Unchanged

  /** The decision for one file, given the row found for its base name. */
  function Classify(row: Option<string>, fileText: string): (o: Outcome)
    ensures o == New <==> row.None?
    ensures row == Some(fileText) ==> o == Unchanged
    ensures o == Updated ==> row.value != fileText
  {
    match row
    case None => New
    case Some(dbText) => if CleanXml(dbText) != CleanXml(fileText) then Updated else Unchanged
  }

  /** The reports one file produces: at most one line; an unchanged file is silent. */
  function ReportFor(fd: FolderDefinition, lookup: Lookup, f: SourceFile): (r: seq<Report>)
    ensures |r| <= 1
    ensures r == [] <==> Classify(lookup(fd.loadStatement, f.name), f.text) == Unchanged
    ensures forall e :: e in r ==> (e.FileNew? || e.FileUpdated?) && e.definition == fd.name && e.file == f.name
  {
    match Classify(lookup(fd.loadStatement, f.name), f.text)
    case New => [FileNew(fd.name, f.name)]
    case Updated => [FileUpdated(fd.name, f.name)]
    case Unchanged => []
  }

  /** The reports of the files of one definition, in enumeration order. */
  function FileReports(fd: FolderDefinition, lookup: Lookup, files: seq<SourceFile>): (r: seq<Report>)
    ensures |r| <= |files|
    ensures forall e :: e in r ==> (e.FileNew? || e.FileUpdated?) && e.definition == fd.name
    decreases |files|
  {
    if |files| == 0 then []
    else ReportFor(fd, lookup, files[0]) + FileReports(fd, lookup, files[1..])
  }

  /** `Path.Combine(root, fd.Directory)`: the folder a definition scans. */
  function FolderOf(fs: FileSystem, root: string, fd: FolderDefinition): string
  {
    fs.combine(root, fd.directory)
  }

  /** The files a definition scans: its pattern, searched in all subdirectories. */
  function FilesOf(fs: FileSystem, root: string, fd: FolderDefinition): seq<SourceFile>
  {
    fs.files(FolderOf(fs, root, fd), fd.extension, true)
  }

  /** `ProcessFolderDefinition`: the banner with the definition's name, then one
      report per new or changed file. */
  function ProcessFolderDefinition(fd: FolderDefinition, root: string, fs: FileSystem, lookup: Lookup): (r: seq<Report>)
    ensures |r| >= 1 && r[0] == Heading(fd.name)
    ensures forall k :: 1 <= k < |r| ==> (r[k].FileNew? || r[k].FileUpdated?) && r[k].definition == fd.name
  {
    var files := FileReports(fd, lookup, FilesOf(fs, root, fd));
    assert forall k :: 0 <= k < |files| ==> files[k] in files;
    [Heading(fd.name)] + files
  }

  /** One iteration of `CheckALlFolderDefinitions`: a definition whose folder does
      not exist is reported and skipped; any other is processed. */
  function DefinitionReports(fd: FolderDefinition, root: string, fs: FileSystem, lookup: Lookup): (r: seq<Report>)
    ensures |r| >= 1
    ensures !fs.dirExists(FolderOf(fs, root, fd)) ==> r == [FolderMissing(FolderOf(fs, root, fd))]
    ensures fs.dirExists(FolderOf(fs, root, fd)) ==> r[0] == Heading(fd.name)
  {
    var path := FolderOf(fs, root, fd);
    if !fs.dirExists(path) then [FolderMissing(path)]
    else ProcessFolderDefinition(fd, root, fs, lookup)
  }

  /** `CheckALlFolderDefinitions`, over the definitions in the order they were loaded. */
  function CheckAllFolderDefinitions(defs: seq<FolderDefinition>, root: string, fs: FileSystem, lookup: Lookup): (r: seq<Report>)
    ensures |r| >= |defs|
    decreases |defs|
  {
    if |defs| == 0 then []
    else DefinitionReports(defs[0], root, fs, lookup) + CheckAllFolderDefinitions(defs[1..], root, fs, lookup)
  }

  // ---------------------------------------------------------------------------
  // The loops as written

  /** The body of the loop over files: look the file up by base name, report it as
      new when there is no row, and otherwise compare the cleaned texts. */
  method CompareFile(fd: FolderDefinition, lookup: Lookup, f: SourceFile) returns (reports: seq<Report>)
    ensures lookup(fd.loadStatement, f.name).None? ==> reports == [FileNew(fd.name, f.name)]
    ensures lookup(fd.loadStatement, f.name).Some? ==>
      var dbText := lookup(fd.loadStatement, f.name).value;
      reports == (if CleanXml(dbText) != CleanXml(f.text) then [FileUpdated(fd.name, f.name)] else [])
    ensures reports == ReportFor(fd, lookup, f)
  {
    var row := lookup(fd.loadStatement, f.name);
    if row.None? {
      return [FileNew(fd.name, f.name)];
    }
    var databaseContents := CleanXml(row.value);
    var fileContents := CleanXml(f.text);
    if databaseContents != fileContents {
      return [FileUpdated(fd.name, f.name)];
    }
    return [];
  }

  /** `ProcessFolderDefinition` as a loop over the enumerated files. */
  method RunFolderDefinition(fd: FolderDefinition, root: string, fs: FileSystem, lookup: Lookup) returns (reports: seq<Report>)
    ensures reports == ProcessFolderDefinition(fd, root, fs, lookup)
  {
    var files := FilesOf(fs, root, fd);
    var fileReports := [];
    var i := 0;
    while i < |files|
      invariant i <= |files|
      invariant fileReports == FileReports(fd, lookup, files[..i])
    {
      var f := files[i];
      var more := CompareFile(fd, lookup, f);
      FileReportsSnoc(fd, lookup, files, i);
      fileReports := fileReports + more;
      i := i + 1;
    }
    assert files[..i] == files;
    reports := [Heading(fd.name)] + fileReports;
  }

  /** `CheckALlFolderDefinitions` as a loop over the loaded definitions. */
  method RunAllFolderDefinitions(defs: seq<FolderDefinition>, root: string, fs: FileSystem, lookup: Lookup) returns (reports: seq<Report>)
    ensures reports == CheckAllFolderDefinitions(defs, root, fs, lookup)
  {
    reports := [];
    var i := 0;
    while i < |defs|
      invariant i <= |defs|
      invariant reports == CheckAllFolderDefinitions(defs[..i], root, fs, lookup)
    {
      var fd := defs[i];
      var fullpath := fs.combine(root, fd.directory);
      if !fs.dirExists(fullpath) {
        reports := reports + [FolderMissing(fullpath)];
      } else {
        var more := RunFolderDefinition(fd, root, fs, lookup);
        reports := reports + more;
      }
      CheckAllAppend(defs[..i], [fd], root, fs, lookup);
      TakeOneMore(defs, i);
      i := i + 1;
    }
    assert defs[..i] == defs;
  }

  // ---------------------------------------------------------------------------
  // Properties of the interpreter

  /** The files' reports are the concatenation of the reports of each part. */
  lemma {:induction false} FileReportsAppend(fd: FolderDefinition, lookup: Lookup, a: seq<SourceFile>, b: seq<SourceFile>)
    ensures FileReports(fd, lookup, a + b) == FileReports(fd, lookup, a) + FileReports(fd, lookup, b)
    decreases |a|
  {
    if |a| == 0 {
      assert a + b == b;
    } else {
      assert (a + b)[0] == a[0];
      assert (a + b)[1..] == a[1..] + b;
      FileReportsAppend(fd, lookup, a[1..], b);
    }
  }

  /** Handling one more file appends that file's own report. */
  lemma FileReportsSnoc(fd: FolderDefinition, lookup: Lookup, files: seq<SourceFile>, i: nat)
    requires i < |files|
    ensures FileReports(fd, lookup, files[..i + 1]) == FileReports(fd, lookup, files[..i]) + ReportFor(fd, lookup, files[i])
  {
    assert FileReports(fd, lookup, [files[i]]) == ReportFor(fd, lookup, files[i]) by {
      assert [files[i]][1..] == [];
    }
    TakeOneMore(files, i);
    FileReportsAppend(fd, lookup, files[..i], [files[i]]);
  }

  /** The definitions' reports are the concatenation of the reports of each part. */
  lemma {:induction false} CheckAllAppend(a: seq<FolderDefinition>, b: seq<FolderDefinition>, root: string, fs: FileSystem, lookup: Lookup)
    ensures CheckAllFolderDefinitions(a + b, root, fs, lookup)
         == CheckAllFolderDefinitions(a, root, fs, lookup) + CheckAllFolderDefinitions(b, root, fs, lookup)
    decreases |a|
  {
    if |a| == 0 {
      assert a + b == b;
    } else {
      assert (a + b)[0] == a[0];
      assert (a + b)[1..] == a[1..] + b;
      CheckAllAppend(a[1..], b, root, fs, lookup);
    }
  }

  /** A file is reported new exactly when some enumerated file has that base name
      and the lookup by that name yields no row; no content is compared. */
  lemma {:induction false} NewIffNoRow(fd: FolderDefinition, lookup: Lookup, files: seq<SourceFile>, x: string)
    ensures FileNew(fd.name, x) in FileReports(fd, lookup, files)
        <==> (exists f :: f in files && f.name == x) && lookup(fd.loadStatement, x).None?
    decreases |files|
  {
    if |files| > 0 {
      NewIffNoRow(fd, lookup, files[1..], x);
      assert forall f :: f in files <==> f == files[0] || f in files[1..];
    }
  }

  /** A file is reported updated exactly when some enumerated file has that base
      name, a row is found for it, and the cleaned row text differs from the
      cleaned file text. */
  lemma {:induction false} UpdatedIffCleanedTextsDiffer(fd: FolderDefinition, lookup: Lookup, files: seq<SourceFile>, x: string)
    ensures FileUpdated(fd.name, x) in FileReports(fd, lookup, files)
        <==> exists f :: f in files && f.name == x && lookup(fd.loadStatement, x).Some?
                         && CleanXml(lookup(fd.loadStatement, x).value) != CleanXml(f.text)
    decreases |files|
  {
    if |files| > 0 {
      UpdatedIffCleanedTextsDiffer(fd, lookup, files[1..], x);
      assert forall f :: f in files <==> f == files[0] || f in files[1..];
    }
  }

  /** A file whose row exists and whose cleaned text equals the cleaned row text
      produces no report. */
  lemma UnchangedIsSilent(fd: FolderDefinition, lookup: Lookup, f: SourceFile)
    requires lookup(fd.loadStatement, f.name).Some?
    requires CleanXml(lookup(fd.loadStatement, f.name).value) == CleanXml(f.text)
    ensures ReportFor(fd, lookup, f) == []
  {
  }

  /** The lookup key is the base name only: files at other paths with the same
      names and texts produce the same reports. */
  lemma {:induction false} ReportsIgnorePaths(fd: FolderDefinition, lookup: Lookup, a: seq<SourceFile>, b: seq<SourceFile>)
    requires |a| == |b|
    requires forall k :: 0 <= k < |a| ==> a[k].name == b[k].name && a[k].text == b[k].text
    ensures FileReports(fd, lookup, a) == FileReports(fd, lookup, b)
    decreases |a|
  {
    if |a| > 0 {
      ReportsIgnorePaths(fd, lookup, a[1..], b[1..]);
    }
  }

  /** A file that differs from the database text by one run of whitespace inserted
      into the file text is not reported. */
  lemma InsertedWsIsUnchanged(dbText: string, w: string, before: string, after: string)
    requires AllWs(w)
    requires dbText == before + after
    ensures Classify(Some(dbText), before + w + after) == Unchanged
  {
    CleanXmlIgnoresInsertedWs(before, w, after);
  }

  /** Two texts that differ only in whitespace, in any number of places and on either
      side (indentation, line breaks), compare equal: the file is not reported. */
  lemma WsOnlyDifferenceIsUnchanged(dbText: string, fileText: string)
    requires StripWs(dbText) == StripWs(fileText)
    ensures Classify(Some(dbText), fileText) == Unchanged
  {
    CleanXmlOfStripped(dbText);
    CleanXmlOfStripped(fileText);
  }

  /** Which side supplied which text does not matter to the comparison. */
  lemma ClassifySymmetric(x: string, y: string)
    ensures Classify(Some(x), y) == Classify(Some(y), x)
  {
  }

  /** The banners and missing-folder lines of a run, in order. */
  function Outline(reports: seq<Report>): seq<Report>
    decreases |reports|
  {
    if |reports| == 0 then []
    else if reports[0].Heading? || reports[0].FolderMissing? then [reports[0]] + Outline(reports[1..])
    else Outline(reports[1..])
  }

  /** What the outline should be: per definition, in load order, its banner when its
      folder exists and a missing-folder line when it does not. */
  function ExpectedOutline(defs: seq<FolderDefinition>, root: string, fs: FileSystem): seq<Report>
    decreases |defs|
  {
    if |defs| == 0 then []
    else
      var path := FolderOf(fs, root, defs[0]);
      (if fs.dirExists(path) then [Heading(defs[0].name)] else [FolderMissing(path)])
      + ExpectedOutline(defs[1..], root, fs)
  }

  /** The outline of two report lists is the outline of each, in order. */
  lemma {:induction false} OutlineAppend(a: seq<Report>, b: seq<Report>)
    ensures Outline(a + b) == Outline(a) + Outline(b)
    decreases |a|
  {
    if |a| == 0 {
      assert a + b == b;
    } else {
      assert (a + b)[0] == a[0];
      assert (a + b)[1..] == a[1..] + b;
      OutlineAppend(a[1..], b);
    }
  }

  /** Per-file lines contribute nothing to the outline. */
  lemma {:induction false} OutlineOfFileReports(reports: seq<Report>)
    requires forall k :: 0 <= k < |reports| ==> reports[k].FileNew? || reports[k].FileUpdated?
    ensures Outline(reports) == []
    decreases |reports|
  {
    if |reports| > 0 {
      OutlineOfFileReports(reports[1..]);
    }
  }

  /** Every definition is accounted for, in load order: one whose folder is missing
      is reported and skipped, every other is processed under its own banner. */
  lemma {:induction false} DefinitionsProcessedInOrder(defs: seq<FolderDefinition>, root: string, fs: FileSystem, lookup: Lookup)
    ensures Outline(CheckAllFolderDefinitions(defs, root, fs, lookup)) == ExpectedOutline(defs, root, fs)
    decreases |defs|
  {
    if |defs| > 0 {
      var fd := defs[0];
      var here := DefinitionReports(fd, root, fs, lookup);
      DefinitionsProcessedInOrder(defs[1..], root, fs, lookup);
      OutlineAppend(here, CheckAllFolderDefinitions(defs[1..], root, fs, lookup));
      if fs.dirExists(FolderOf(fs, root, fd)) {
        var r := ProcessFolderDefinition(fd, root, fs, lookup);
        assert r == [r[0]] + r[1..];
        OutlineAppend([r[0]], r[1..]);
        OutlineOfFileReports(r[1..]);
      }
    }
  }

  /** A definition whose folder exists contributes its whole processing, banner
      and file lines, in its place; the definitions around it are unaffected. */
  lemma PresentFolderProcessed(defs: seq<FolderDefinition>, root: string, fs: FileSystem, lookup: Lookup, k: nat)
    requires k < |defs|
    requires fs.dirExists(FolderOf(fs, root, defs[k]))
    ensures CheckAllFolderDefinitions(defs, root, fs, lookup)
         == CheckAllFolderDefinitions(defs[..k], root, fs, lookup)
            + ProcessFolderDefinition(defs[k], root, fs, lookup)
            + CheckAllFolderDefinitions(defs[k + 1..], root, fs, lookup)
  {
    assert defs == defs[..k] + ([defs[k]] + defs[k + 1..]);
    CheckAllAppend(defs[..k], [defs[k]] + defs[k + 1..], root, fs, lookup);
    assert CheckAllFolderDefinitions([defs[k]] + defs[k + 1..], root, fs, lookup)
        == ProcessFolderDefinition(defs[k], root, fs, lookup) + CheckAllFolderDefinitions(defs[k + 1..], root, fs, lookup) by {
      assert ([defs[k]] + defs[k + 1..])[1..] == defs[k + 1..];
    }
  }

  /** A definition whose folder does not exist contributes exactly one line, the
      missing-folder report, and the definitions around it are unaffected. */
  lemma MissingFolderSkipped(defs: seq<FolderDefinition>, root: string, fs: FileSystem, lookup: Lookup, k: nat)
    requires k < |defs|
    requires !fs.dirExists(FolderOf(fs, root, defs[k]))
    ensures CheckAllFolderDefinitions(defs, root, fs, lookup)
         == CheckAllFolderDefinitions(defs[..k], root, fs, lookup)
            + [FolderMissing(FolderOf(fs, root, defs[k]))]
            + CheckAllFolderDefinitions(defs[k + 1..], root, fs, lookup)
  {
    assert defs == defs[..k] + ([defs[k]] + defs[k + 1..]);
    CheckAllAppend(defs[..k], [defs[k]] + defs[k + 1..], root, fs, lookup);
    assert CheckAllFolderDefinitions([defs[k]] + defs[k + 1..], root, fs, lookup)
        == [FolderMissing(FolderOf(fs, root, defs[k]))] + CheckAllFolderDefinitions(defs[k + 1..], root, fs, lookup) by {
      assert ([defs[k]] + defs[k + 1..])[1..] == defs[k + 1..];
    }
  }
}
