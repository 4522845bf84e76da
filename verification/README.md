# gman audit core in Dafny

gman compares an Oracle database with a "CodeSource" checkout and prints what a
deployment would change. This project models the part of `gman/Program.cs` that
makes those decisions and proves properties of it:

- **`CleanXmlSource`** (`XmlClean`). The text normalisation used before a database
  CLOB is compared with a file. It makes three `Regex.Replace` passes:
  - delete every `\s` character;
  - delete every `<!--.*?-->` comment;
  - delete every `<\?.*?\?>` processing instruction.

  Each pass is modelled the way .NET runs it: one left-to-right scan, with the
  leftmost opener paired with its nearest closer. `.` does not match a line feed,
  and `\s` is .NET's exact class `[\f\n\r\t\v\x85\p{Z}]`.
- **`CheckALlFolderDefinitions` and `ProcessFolderDefinition`** (`FolderCheck`).
  These loop over the folder definitions, then over the files of each definition's
  folder:
  - a definition whose folder is missing is reported and skipped;
  - each file is looked up by its base name;
  - it is reported *new* when no row comes back;
  - it is reported *updated* when the cleaned row text differs from the cleaned
    file text;
  - otherwise it is silent.
- **`PatchCheck`** (`PatchAudit`, `PatchName`). This goes over the immediate
  subdirectories of `DatabasePatches`:
  - it skips those whose name contains `NoDeploy`;
  - it parses each `*.sql` name with `(\D+?)(\d+?) \(.+?\).sql` into a (label,
    number) key;
  - it reports the patch as pending when no run is recorded for that key.

The file system and the database are parameters: function values in `Host.FileSystem`,
`FolderCheck.Lookup` and `PatchAudit.PatchRuns`. Console lines become `Host.Report`
values. Each loop is written twice:
- as a recursive function, which the properties are stated over;
- as a `method` with the loop as written in the source.

A postcondition ties the two together.

Two behaviours of the code are easy to assume otherwise, and the model follows the
code in both:

- The normalisation is not idempotent. Deleting one
  comment can splice two halves of an enclosing text into a new comment.
  `XmlClean.CleanXmlNotIdempotent` shows `<!<!--a-->--b-->` cleaning to `<!--b-->`,
  and that in turn cleaning to the empty text.
- A patch name that breaks the naming convention is not rejected. The guard
  `match.Groups.Count > 0` also holds for a failed match, so the name is looked up
  with the empty label and the empty number (`PatchName.ParseNonConformingName`).

Files:
- `wrappers.dfy`: `Option` and `Result`.
- `text.dfy`: .NET's `\s` class, occurrences, subsequences.
- `xml_clean.dfy`: the normalisation.
- `patch_name.dfy`: the patch-name regular expression.
- `host.dfy`: the injected file system and the reports.
- `folder_check.dfy`: the folder definitions.
- `patch_audit.dfy`: the patch audit.

## Model

| member | source | states |
|---|---|---|
| XmlClean.StripWs | gman/Program.cs:455 | the result holds no `\s` character and is no longer than the input |
| XmlClean.StripWsIsSubseq | gman/Program.cs:455 | deleting whitespace keeps every other character, in order, and as many times as it occurs |
| XmlClean.StripWsOfPlain | gman/Program.cs:455 | text with no whitespace is returned unchanged |
| XmlClean.StripWsOfBlank | gman/Program.cs:455 | text made only of whitespace becomes empty |
| XmlClean.StripWsConcat | gman/Program.cs:455 | the whitespace pass works character by character, so it distributes over concatenation |
| XmlClean.FindClose | gman/Program.cs:456-457 | a closer found by the lazy `.*?` lies at or after the search start |
| XmlClean.FindCloseSpec | gman/Program.cs:456-457 | the lazy `.*?` stops at the nearest closer with no line feed before it; none is found exactly when no such closer exists |
| XmlClean.FindCloseNearest | gman/Program.cs:456-457 | when a closer is the first one with only non-line-feed characters before it, that closer is the one found |
| XmlClean.FindCloseAbsent | gman/Program.cs:456-457 | with no reachable closer (none at all, or only closers behind a line feed), the lazy match fails |
| XmlClean.BlockAt | gman/Program.cs:456-457 | a block found at `i` ends within the text, after at least the opener and the closer |
| XmlClean.DeleteBlocksFrom | gman/Program.cs:456-457 | the rest of a `Regex.Replace` scan is no longer than the text it scans |
| XmlClean.DeleteBlocks | gman/Program.cs:456-457 | one `Regex.Replace` pass never lengthens the text |
| XmlClean.DeleteBlocksIsSubseq | gman/Program.cs:456-457 | a deletion pass keeps the remaining characters, in order |
| XmlClean.DeleteBlocksWithoutOpener | gman/Program.cs:456-457 | text with no opener is copied unchanged |
| XmlClean.DeleteBlocksWithoutCloser | gman/Program.cs:456-457 | text with no closer is copied unchanged |
| XmlClean.DeleteBlocksCopies | gman/Program.cs:456-457 | a character where no opener starts is copied, and the scan moves one character on |
| XmlClean.DeleteBlocksSkipsTo | gman/Program.cs:456-457 | characters before the next opener are copied as they are |
| XmlClean.DeleteBlocksDeletes | gman/Program.cs:456-457 | a block is deleted from its opener through the closer the lazy match finds, and scanning resumes just after that closer |
| XmlClean.DeleteBlocksCopiesUnclosed | gman/Program.cs:456-457 | an opener with no reachable closer is kept as ordinary text |
| XmlClean.DeleteBlocksPairsNearest | gman/Program.cs:456-457 | the leftmost opener is paired with its nearest closer; the text before it is kept and the block is removed |
| XmlClean.DeleteBlocksKeepsUnclosed | gman/Program.cs:456-457 | when no closer occurs after the leftmost opener, nothing more is deleted: the scan returns the rest of the text as it is |
| XmlClean.DeleteBlocksNoCloserFrom | gman/Program.cs:456-457 | when no closer occurs where any later block would look for one, the rest of the text is copied |
| XmlClean.DeleteBlocksKeepsFrom | gman/Program.cs:456-457 | an opener-free stretch ahead of a scan that copies the rest is copied too |
| XmlClean.CleanXml | gman/Program.cs:453-459 | the normalised text is no longer than the input |
| XmlClean.CleanXmlIsSubseq | gman/Program.cs:453-459 | normalisation only deletes characters |
| XmlClean.CleanXmlHasNoWs | gman/Program.cs:453-459 | normalised text holds no whitespace |
| XmlClean.CleanXmlOfPlain | gman/Program.cs:453-459 | text with no whitespace, no `<!--` and no `<?` is a fixed point |
| XmlClean.CleanXmlOfStripped | gman/Program.cs:453-459 | removing the whitespace first does not change the result |
| XmlClean.CleanXmlIgnoresInsertedWs | gman/Program.cs:453-459 | whitespace inserted anywhere does not change the normalised text |
| XmlClean.CleanXmlNotIdempotent | gman/Program.cs:453-459 | `<!<!--a-->--b-->` normalises to `<!--b-->`, which normalises to the empty text, so the normalisation is not idempotent |
| XmlClean.CommentPassExample | gman/Program.cs:455-456 | in `<!<!--a-->--b-->` only the inner comment is deleted |
| XmlClean.CommentPassShape | gman/Program.cs:456 | the shape of the first example only: when the opener is at index 2, the closer at index 7 is the first one after it, and no opener occurs at index 0, at 1 or from 10 on, the comment pass deletes exactly indices 2..9 |
| XmlClean.CommentOnlyExample | gman/Program.cs:455-456 | `<!--b-->` is one whole comment and is deleted |
| XmlClean.PiPassExample | gman/Program.cs:457 | `<!--b-->` holds no processing instruction and passes the third pass unchanged |
| PatchName.FirstDigit | gman/Program.cs:171 | the first group `(\D+?)` can only end at the first digit after its start |
| PatchName.DigitRunEnd | gman/Program.cs:171 | the second group `(\d+?)` followed by a space can only end where the digit run ends |
| PatchName.GroupsAreForced | gman/Program.cs:171 | at a given start, the two lazy groups of any match are fully determined |
| PatchName.TailFrom | gman/Program.cs:171 | decides whether `.+?\).sql` completes at or after a position, exactly |
| PatchName.MatchAt | gman/Program.cs:171-172 | the pattern matches at a start exactly when the computed span is a match, and that span is the only match there |
| PatchName.MatchFrom | gman/Program.cs:171-172 | finds the leftmost start at which the pattern matches, or reports that it matches nowhere after the given position |
| PatchName.ParsePatchName | gman/Program.cs:171-175 | the label and number are both empty or both non-empty; the label holds no digit and the number only digits |
| PatchName.ParseEmptyIffNoMatch | gman/Program.cs:172-175 | the key is empty exactly when the pattern matches nowhere in the name |
| PatchName.ParseGivesLeftmostMatch | gman/Program.cs:172-175 | the key is the two groups of the leftmost match, and the label is a maximal run of non-digits |
| PatchName.ParseWithoutMatch | gman/Program.cs:172-175 | a name the pattern does not match gives the empty key and is not rejected |
| PatchName.ParseConventionalName | gman/Program.cs:171-175 | `DDL100 (add column).sql` gives label `DDL` and number `100` |
| PatchName.ConventionalNameMatches | gman/Program.cs:171 | the pattern matches `DDL100 (add column).sql` at its start, with groups `DDL` and `100` |
| PatchName.AstralBeforeSqlHasNoMatch | gman/Program.cs:171-175 | the `.` before `sql` matches one UTF-16 code unit, so `DDL1 (x)` followed by an emoji and `sql` does not match and gets the empty key |
| PatchName.ParseNonConformingName | gman/Program.cs:173-175 | `DDLabc.sql` gives the empty key: the assertion of line 173 does not reject it |
| FolderCheck.FileReports | gman/Program.cs:350-371 | at most one report per file, each one a new or updated line under the definition's name |
| FolderCheck.Classify | gman/Program.cs:355-368 | a file is new exactly when no row is found; a row identical to the file text is unchanged; an updated file differs from its row |
| FolderCheck.ReportFor | gman/Program.cs:355-368 | a file gives at most one line, naming the definition and the file, and none exactly when it is unchanged |
| FolderCheck.ProcessFolderDefinition | gman/Program.cs:339-372 | the banner with the definition's name comes first, and only new or updated lines follow it |
| FolderCheck.DefinitionReports | gman/Program.cs:322-329 | a missing folder gives exactly the missing-folder line; an existing one starts with the definition's banner |
| FolderCheck.CheckAllFolderDefinitions | gman/Program.cs:309-331 | every definition contributes at least one line |
| FolderCheck.CompareFile | gman/Program.cs:352-370 | no row gives a new report; a row gives an updated report exactly when the cleaned texts differ, and otherwise nothing; this is the report of `ReportFor` |
| FolderCheck.RunFolderDefinition | gman/Program.cs:339-372 | the loop as written produces the reports of `ProcessFolderDefinition` |
| FolderCheck.RunAllFolderDefinitions | gman/Program.cs:309-331 | the loop as written produces the reports of `CheckAllFolderDefinitions` |
| FolderCheck.FileReportsAppend | gman/Program.cs:350-371 | the files are handled one by one, so the reports of a concatenation are concatenated |
| FolderCheck.FileReportsSnoc | gman/Program.cs:350-371 | handling one more file appends exactly that file's own report |
| FolderCheck.CheckAllAppend | gman/Program.cs:312-330 | the definitions are handled one by one, so their reports concatenate |
| FolderCheck.NewIffNoRow | gman/Program.cs:353-360 | a file is reported new exactly when a scanned file has that name and the lookup by that name finds no row |
| FolderCheck.UpdatedIffCleanedTextsDiffer | gman/Program.cs:362-368 | a file is reported updated exactly when a scanned file has that name, a row exists, and the cleaned texts differ |
| FolderCheck.UnchangedIsSilent | gman/Program.cs:362-370 | a file whose cleaned text equals the cleaned row text produces no line |
| FolderCheck.ReportsIgnorePaths | gman/Program.cs:353 | the lookup key is the base name: files at other paths with the same names and texts produce the same reports |
| FolderCheck.InsertedWsIsUnchanged | gman/Program.cs:362-365 | a single run of whitespace inserted into the file text, relative to the row text, is not reported |
| FolderCheck.WsOnlyDifferenceIsUnchanged | gman/Program.cs:362-365 | two texts that become equal once all whitespace is removed, with the whitespace in any number of places and on either side, compare equal: the file is not reported |
| FolderCheck.ClassifySymmetric | gman/Program.cs:362-365 | the comparison does not depend on which side each text came from |
| FolderCheck.OutlineAppend | gman/Program.cs:312-330 | banners and missing-folder lines are picked out one report at a time |
| FolderCheck.OutlineOfFileReports | gman/Program.cs:357-367 | per-file lines carry no banner and no missing-folder line |
| FolderCheck.DefinitionsProcessedInOrder | gman/Program.cs:312-330 | in load order, every definition gets its banner when its folder exists and a missing-folder line when it does not |
| FolderCheck.MissingFolderSkipped | gman/Program.cs:322-327 | a definition with a missing folder contributes exactly the missing-folder line; the definitions around it are unaffected |
| FolderCheck.PresentFolderProcessed | gman/Program.cs:322-329 | a definition whose folder exists contributes its whole processing, banner and file lines, in its place; the definitions around it are unaffected |
| PatchAudit.PendingReports | gman/Program.cs:169-187 | at most one report per patch file, each one a pending-patch line |
| PatchAudit.IsPending | gman/Program.cs:172-184 | a file whose name the pattern does not match is pending exactly when the empty key has no recorded run |
| PatchAudit.IsNoDeploy | gman/Program.cs:164 | a subdirectory is skipped exactly when its name splits as some text, then `NoDeploy`, then some text (both directions) |
| Text.ContainsIffSplit | gman/Program.cs:164 | the ordinal `Contains` holds exactly when the text splits around the searched string |
| PatchAudit.DirReports | gman/Program.cs:162-188 | the subdirectory scan reports only pending patches |
| PatchAudit.PatchCheck | gman/Program.cs:147-191 | fails exactly when `DatabasePatches` does not exist; otherwise the banner is followed by the pending reports of exactly the `*.sql` files of the non-`NoDeploy` subdirectories, in order |
| PatchAudit.CheckPatchFiles | gman/Program.cs:169-187 | the inner loop as written produces `PendingReports` |
| PatchAudit.RunPatchCheck | gman/Program.cs:161-190 | the outer loop as written produces `PatchCheck` |
| PatchAudit.PendingReportsAppend | gman/Program.cs:169-187 | the patch files are handled one by one, so reports of a concatenation are concatenated |
| PatchAudit.DirReportsAppend | gman/Program.cs:162-188 | the subdirectories are handled one by one, so their reports concatenate |
| PatchAudit.DirReportsAreScannedFiles | gman/Program.cs:162-188 | scanning directory by directory is the same as scanning the `*.sql` files of every deployable directory in order |
| PatchAudit.ScannedIffDeployable | gman/Program.cs:162-169 | a file is scanned exactly when it lies directly in a subdirectory whose name does not contain `NoDeploy` |
| PatchAudit.PendingIffNoRun | gman/Program.cs:169-184 | a patch is reported exactly when a scanned file has that name and no run is recorded for the key parsed from it |
| PatchAudit.NoDeployIgnored | gman/Program.cs:164-167 | a `NoDeploy` subdirectory never affects the output, whatever it holds |
| PatchAudit.NoDeployAnywhere | gman/Program.cs:164 | the marker excludes a subdirectory wherever it stands in the name |
| PatchAudit.NoDeployIsCaseSensitive | gman/Program.cs:164 | the comparison is ordinal: `nodeploy` does not exclude a subdirectory |
| PatchAudit.NonConformingIsPending | gman/Program.cs:172-184 | a file whose name the pattern does not match is reported as pending whenever the empty key has no recorded run |

## Left out

- `Main`, option parsing, the connection set-up and the order of the two audits are
  not modelled. These are lines 44-125 of `gman/Program.cs`. An exception in
  `PatchCheck` ends the run before the folder definitions are checked; that
  sequencing is not modelled.
- A definition file that lacks an element deserialises to a null property. A null
  `Directory`, `Extension` or `LoadStatement` then throws at `Path.Combine`,
  `GetFiles` or the query, with no handler, and the whole run ends. The model's
  fields are always strings, so it does not model null fields or that abort.
- The XML deserialisation of the definitions is not modelled: a definition is
  taken as an already-loaded `FolderDefinition` value. The same goes for listing
  the `gman` definitions directory, whose files appear as a sequence in enumeration
  order.
- `Path.Combine`, `Directory.Exists`, `GetDirectories` and `GetFiles` are parameters
  of `Host.FileSystem`. Their wildcard semantics are not modelled, for example
  `*.sql` also matching longer extensions under the three-character rule, and
  neither is their enumeration order.
- The two Oracle queries are parameters. `FolderCheck.Lookup` gives the first
  row's CLOB or no row, and `PatchAudit.PatchRuns` says whether any row exists.
  The following are not modelled:
  - a NULL CLOB;
  - connection and read exceptions;
  - the `ignore_flag IS NULL` filter, which belongs to the query.
- Reading a file's text (`File.ReadAllText`, which detects the encoding) is not
  modelled: a file comes with its text.
- Console wording is not modelled: the banners and messages are `Host.Report`
  values.
- `PatchAudit.PendingReports` reports a patch by its base name, whereas the source
  prints `FileInfo`'s string form, whose path part depends on the runtime.
- `PatchAudit.PatchCheck`: on the failure path the model returns only the missing
  path. It does not model the banner printed before the exception.
- `PatchAudit.PatchRuns`: any answer is allowed for the empty key. Oracle stores
  the empty string as NULL, so the real query can never match a run for the empty
  key, and a non-conforming name is always reported as pending. The model does not
  build that in. `PatchAudit.NonConformingIsPending` states the outcome under the
  assumption that the empty key has no run.
- Strings are sequences of Unicode scalar values, where .NET strings are sequences
  of UTF-16 code units. A name holding a lone surrogate cannot be represented.
  Only one place in the patterns depends on the difference: the single `.` before
  `sql`, which consumes one code unit. `PatchName.IsOneCodeUnit` models that
  position. Elsewhere a character outside the Basic Multilingual Plane is matched
  by the `.` runs and by `\D` just as its two code units would be.
- `PatchName.IsDigit`: `\d` is modelled as ASCII `0`-`9`. .NET's `\d` also matches
  the other Unicode decimal digits.
- `PackageCheck`, `TrimLines` and `CleanPackageSource` are not modelled. The call
  to `PackageCheck` is commented out, so they never run.
- `Debug.Assert` at line 173 is not modelled as a check, because its condition
  always holds.
