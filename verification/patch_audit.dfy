/** `PatchCheck`: every `*.sql` file directly inside an immediate subdirectory of
    `DatabasePatches`, skipping subdirectories whose name contains `NoDeploy`, is
    keyed by its file name and reported as pending when no run is recorded for
    that key. */
module PatchAudit {
  import opened Wrappers
  import opened Text
  import opened Host
  import opened PatchName

  const PatchFolder := "DatabasePatches"
  const NoDeployMarker := "NoDeploy"
  const PatchPattern := "*.sql"

  /** The patch-run query: whether a run that is not flagged as ignored is
      recorded for the (label, number) pair. */
  type PatchRuns = (string, string) -> bool

  /** A subdirectory that is never scanned: its name contains the marker, with
      ordinal (case-sensitive) comparison. */
  function IsNoDeploy(d: DirEntry): (b: bool)
    ensures b <==> exists before, after :: d.name == before + NoDeployMarker + after
  {
    ContainsIffSplit(d.name, NoDeployMarker);
    Contains(d.name, NoDeployMarker)
  }

  /** A patch file is pending when no run is recorded for its key. A name the
      pattern does not match is still looked up, with the empty label and number. */
  function IsPending(runs: PatchRuns, f: SourceFile): (b: bool)
    ensures (forall st, a, e :: !IsMatchAt(f.name, st, a, e)) ==> (b <==> !runs("", ""))
  {
    var key := ParsePatchName(f.name);
    ParseEmptyIffNoMatch(f.name);
    !runs(key.patchLabel, key.patchNumber)
  }

  /** The reports of the patch files of one subdirectory, in enumeration order. */
  function PendingReports(runs: PatchRuns, files: seq<SourceFile>): (r: seq<Report>)
    ensures |r| <= |files|
    ensures forall e :: e in r ==> e.PatchPending?
    decreases |files|
  {
    if |files| == 0 then []
    else (if IsPending(runs, files[0]) then [PatchPending(files[0].name)] else [])
         + PendingReports(runs, files[1..])
  }

  /** The `*.sql` files directly inside one subdirectory. */
  function PatchFilesOf(fs: FileSystem, d: DirEntry): seq<SourceFile>
  {
    fs.files(d.fullName, PatchPattern, false)
  }

  /** The reports of the subdirectories, in enumeration order. */
  function DirReports(fs: FileSystem, runs: PatchRuns, dirs: seq<DirEntry>): (r: seq<Report>)
    ensures forall e :: e in r ==> e.PatchPending?
    decreases |dirs|
  {
    if |dirs| == 0 then []
    else if IsNoDeploy(dirs[0]) then DirReports(fs, runs, dirs[1..])
    else PendingReports(runs, PatchFilesOf(fs, dirs[0])) + DirReports(fs, runs, dirs[1..])
  }

  /** `PatchCheck`. Listing the subdirectories of a `DatabasePatches` folder that
      does not exist throws, which ends the run: that is the `Failure`. */
  function PatchCheck(root: string, fs: FileSystem, runs: PatchRuns): (r: Result<seq<Report>, string>)
    ensures r.Failure? <==> !fs.dirExists(fs.combine(root, PatchFolder))
    ensures r.Success? ==> |r.value| >= 1 && r.value[0] == Heading("Patches")
    ensures r.Success? ==> forall k :: 1 <= k < |r.value| ==> r.value[k].PatchPending?
    ensures r.Success? ==>
      r.value[1..] == PendingReports(runs, ScannedFiles(fs, fs.subdirectories(fs.combine(root, PatchFolder))))
  {
    var patchDirectory := fs.combine(root, PatchFolder);
    if !fs.dirExists(patchDirectory) then Failure(patchDirectory)
    else
      var pending := DirReports(fs, runs, fs.subdirectories(patchDirectory));
      DirReportsAreScannedFiles(fs, runs, fs.subdirectories(patchDirectory));
      assert ([Heading("Patches")] + pending)[1..] == pending;
      assert forall k :: 0 <= k < |pending| ==> pending[k] in pending;
      Success([Heading("Patches")] + pending)
  }

  // ---------------------------------------------------------------------------
  // The loops as written

  /** The inner loop of `PatchCheck`: key each patch file by its name and report
      it when no run is recorded for the key. */
  method CheckPatchFiles(runs: PatchRuns, files: seq<SourceFile>) returns (reports: seq<Report>)
    ensures reports == PendingReports(runs, files)
  {
    reports := [];
    var j := 0;
    while j < |files|
      invariant j <= |files|
      invariant reports == PendingReports(runs, files[..j])
    {
      var patchFile := files[j];
      var key := ParsePatchName(patchFile.name);
      if !runs(key.patchLabel, key.patchNumber) {
        reports := reports + [PatchPending(patchFile.name)];
      }
      PendingReportsAppend(runs, files[..j], [patchFile]);
      TakeOneMore(files, j);
      j := j + 1;
    }
    assert files[..j] == files;
  }

  /** `PatchCheck` as the loop over the subdirectories of `DatabasePatches`. */
  method RunPatchCheck(root: string, fs: FileSystem, runs: PatchRuns) returns (r: Result<seq<Report>, string>)
    ensures r == PatchCheck(root, fs, runs)
  {
    var patchDirectory := fs.combine(root, PatchFolder);
    if !fs.dirExists(patchDirectory) {
      return Failure(patchDirectory);
    }
    var dirs := fs.subdirectories(patchDirectory);
    var pending := [];
    var i := 0;
    while i < |dirs|
      invariant i <= |dirs|
      invariant pending == DirReports(fs, runs, dirs[..i])
    {
      var subDir := dirs[i];
      var more := [];
      if !IsNoDeploy(subDir) {
        more := CheckPatchFiles(runs, PatchFilesOf(fs, subDir));
      }
      assert more == DirReports(fs, runs, [subDir]) by {
        assert [subDir][1..] == [];
      }
      TakeOneMore(dirs, i);
      DirReportsAppend(fs, runs, dirs[..i], [subDir]);
      pending := pending + more;
      i := i + 1;
    }
    assert dirs[..i] == dirs;
    return Success([Heading("Patches")] + pending);
  }

  // ---------------------------------------------------------------------------
  // Properties of the audit

  /** The reports of two file lists are the reports of each, in order. */
  lemma {:induction false} PendingReportsAppend(runs: PatchRuns, a: seq<SourceFile>, b: seq<SourceFile>)
    ensures PendingReports(runs, a + b) == PendingReports(runs, a) + PendingReports(runs, b)
    decreases |a|
  {
    if |a| == 0 {
      assert a + b == b;
    } else {
      var head := if IsPending(runs, a[0]) then [PatchPending(a[0].name)] else [];
      assert PendingReports(runs, a + b) == head + PendingReports(runs, a[1..] + b) by {
        assert (a + b)[0] == a[0];
        assert (a + b)[1..] == a[1..] + b;
      }
      PendingReportsAppend(runs, a[1..], b);
    }
  }

  /** The reports of two directory lists are the reports of each, in order. */
  lemma {:induction false} DirReportsAppend(fs: FileSystem, runs: PatchRuns, a: seq<DirEntry>, b: seq<DirEntry>)
    ensures DirReports(fs, runs, a + b) == DirReports(fs, runs, a) + DirReports(fs, runs, b)
    decreases |a|
  {
    if |a| == 0 {
      assert a + b == b;
    } else {
      assert (a + b)[0] == a[0];
      assert (a + b)[1..] == a[1..] + b;
      DirReportsAppend(fs, runs, a[1..], b);
    }
  }

  /** The files the audit scans: those of every subdirectory not marked `NoDeploy`,
      in enumeration order. */
  function ScannedFiles(fs: FileSystem, dirs: seq<DirEntry>): seq<SourceFile>
    decreases |dirs|
  {
    if |dirs| == 0 then []
    else (if IsNoDeploy(dirs[0]) then [] else PatchFilesOf(fs, dirs[0])) + ScannedFiles(fs, dirs[1..])
  }

  /** Scanning directory by directory is scanning the files of the deployable
      directories one after another. */
  lemma {:induction false} DirReportsAreScannedFiles(fs: FileSystem, runs: PatchRuns, dirs: seq<DirEntry>)
    ensures DirReports(fs, runs, dirs) == PendingReports(runs, ScannedFiles(fs, dirs))
    decreases |dirs|
  {
    if |dirs| > 0 {
      DirReportsAreScannedFiles(fs, runs, dirs[1..]);
      if IsNoDeploy(dirs[0]) {
        assert ScannedFiles(fs, dirs) == ScannedFiles(fs, dirs[1..]);
      } else {
        PendingReportsAppend(runs, PatchFilesOf(fs, dirs[0]), ScannedFiles(fs, dirs[1..]));
      }
    }
  }

  /** A file is scanned exactly when it is one of the `*.sql` files of an immediate
      subdirectory whose name does not contain `NoDeploy`. */
  lemma {:induction false} ScannedIffDeployable(fs: FileSystem, dirs: seq<DirEntry>, f: SourceFile)
    ensures f in ScannedFiles(fs, dirs) <==> exists d :: d in dirs && !IsNoDeploy(d) && f in PatchFilesOf(fs, d)
    decreases |dirs|
  {
    if |dirs| > 0 {
      ScannedIffDeployable(fs, dirs[1..], f);
      assert forall d :: d in dirs <==> d == dirs[0] || d in dirs[1..];
    }
  }

  /** A patch is reported exactly when a scanned file has that name and no run is
      recorded for the key parsed from it. */
  lemma {:induction false} PendingIffNoRun(runs: PatchRuns, files: seq<SourceFile>, x: string)
    ensures PatchPending(x) in PendingReports(runs, files)
        <==> (exists f :: f in files && f.name == x) && !runs(ParsePatchName(x).patchLabel, ParsePatchName(x).patchNumber)
    decreases |files|
  {
    if |files| > 0 {
      PendingIffNoRun(runs, files[1..], x);
      assert forall f :: f in files <==> f == files[0] || f in files[1..];
    }
  }

  /** A `NoDeploy` subdirectory is never scanned, whatever it contains: removing it
      changes nothing. */
  lemma {:induction false} NoDeployIgnored(fs: FileSystem, runs: PatchRuns, a: seq<DirEntry>, d: DirEntry, b: seq<DirEntry>)
    requires IsNoDeploy(d)
    ensures DirReports(fs, runs, a + [d] + b) == DirReports(fs, runs, a + b)
  {
    assert DirReports(fs, runs, a + [d]) == DirReports(fs, runs, a) by {
      DirReportsAppend(fs, runs, a, [d]);
      assert DirReports(fs, runs, [d]) == [] by {
        assert [d][1..] == [];
      }
    }
    DirReportsAppend(fs, runs, a + [d], b);
    DirReportsAppend(fs, runs, a, b);
  }

  /** The marker may stand anywhere in the subdirectory's name. */
  lemma NoDeployAnywhere(d: DirEntry, before: string, after: string)
    requires d.name == before + NoDeployMarker + after
    ensures IsNoDeploy(d)
  {
    assert d.name[|before|..|before| + |NoDeployMarker|] == NoDeployMarker;
    assert OccursAt(d.name, |before|, NoDeployMarker);
  }

  /** The comparison is case-sensitive: `nodeploy` does not exclude a subdirectory. */
  lemma NoDeployIsCaseSensitive(d: DirEntry)
    requires d.name == "nodeploy"
    ensures !IsNoDeploy(d)
  {
    MismatchAt(d.name, 0, NoDeployMarker, 0);
  }

  /** A file whose name the pattern does not match is reported as pending whenever
      the empty key has no recorded run. */
  lemma NonConformingIsPending(runs: PatchRuns, f: SourceFile)
    requires forall st, a, e :: !IsMatchAt(f.name, st, a, e)
    requires !runs("", "")
    ensures PendingReports(runs, [f]) == [PatchPending(f.name)]
  {
    assert IsPending(runs, f);
    assert [f][1..] == [];
  }
}
