# LFInstall light-field installer, modelled in Dafny

LFInstall finds the add-on airports installed in a Flight Simulator X
scenery tree. For each airport that lacks one, it copies the matching
"light field" overlay (`<CODE>_LightField.BGL`) from the DX10 Scenery Fixer
library into the airport's folder. This project models the core of
`FSX.py` and proves properties of the model:

- `getInstalledAirports` (`scanner.dfy`, module `Scanner`): a walk of the
  simulator folder becomes a map from airport code to directory. Five
  exclusion patterns are applied to each directory path. A file-name
  filter follows, and the code is the upper-cased text before the first
  underscore. The reserved codes `XLIB` and `STAT` are skipped. When a
  code shows up again, the last writer wins and an ambiguity warning is
  issued. The model also counts the matches.
- `airportHasLightField` and `getMatchingLightField` (`lightfield.dfy`,
  module `LightField`): the overlay path inside the airport's folder, the
  library folder `<DX10>\bgl\airport fields\bgl\`, and the overlay inside
  that library folder.
- The destination of `shutil.copy` is also in `lightfield.dfy`.
- `copyLightFields` and the entry point of `LFInstall.py` (`installer.dfy`,
  module `Installer`): airports are visited in sorted order. An airport
  that already has its overlay is skipped. A missing library overlay is
  reported and skipped. Otherwise the overlay is copied. An exception ends
  the run. The entry point scans, lists the airports found, checking each
  for its overlay, and then installs.
- Shared pieces:
  - `text.dfy`: ASCII case mapping and substring search, as `re.search`
    does for literal patterns;
  - `ordering.dfy`: Python 2's string ordering, and sorting the keys;
  - `results.dfy`: `Option`, `Result` and the exceptions that end a run.

The environment is passed in as parameters:

- the `os.walk` output is a sequence of (directory, file names) entries,
  in walk order;
- the filesystem is the set of paths that exist;
- the DX10 folder is a string;
- the directories into which a copy fails are a set.

The model follows the code on these points:

- A failing `shutil.copy` (line 22) is not caught. It ends the whole run
  with `CopyFailed`.
- The library check (lines 28-31) tests the `bgl\airport fields\bgl\`
  subfolder of the DX10 folder. It is reached only for an airport that
  lacks its overlay, so a run whose airports are all served never checks
  the library.
- The numeric-layer pattern `Scenery\\[0-9]*\\` also matches zero digits:
  a directory path containing `Scenery` followed by two consecutive
  backslashes is excluded. `os.walk` never yields such a path below the
  root, so the zero-digit case hardly ever applies.
- On Windows, `fnmatch` lowers both the pattern and the name. The class
  `[a-zA-z]` therefore becomes `[a-z]`, and the `.bgl` extension matches
  in any case.
- Paths and names are `unicode`: the registry returns the simulator folder
  as `unicode`, and `os.walk` of a `unicode` root yields `unicode` names.
  `str()` of a non-ASCII one raises UnicodeEncodeError. That happens at
  line 89 for a file name and at line 46 for an airport folder. The
  as-written members model both; see "## Findings". The installer and the
  entry point follow the code as written: a non-ASCII file name aborts the
  scan, and a non-ASCII airport folder raises at the airport's overlay
  check, first in the listing of `LFInstall.py` and otherwise in the
  install loop.

## Model

| member | source | states |
|---|---|---|
| Scanner.CodeOf | FSX.py:88-90 | For a name that passes the airport file filter, the code is four upper-case letters: the name's first four characters, upper-cased. |
| Scanner.FileNameRoundTrip | FSX.py:88-90 | Four ASCII letters of any case, `_`, any text and a `.bgl` extension in any case always form an airport file, and its code is those letters upper-cased. |
| Scanner.CodeIgnoresCase | FSX.py:88-90 | Two names that differ only in letter case are both accepted or both rejected, and they give the same code. |
| Scanner.ScanFilesEffect | FSX.py:88-105 | Scanning a directory's files adds exactly the codes they yield, all mapped to that directory, and leaves other keys unchanged. Each counted file adds one to the match count. The earlier warnings are kept. A new warning is issued for a code exactly when the map held a different directory for it. |
| Scanner.ScanWalk | FSX.py:55-107 | Every key is a four-letter upper-case code other than XLIB and STAT. There are never more keys than counted matches. Every warning names two different directories. |
| Scanner.ExclusionInherited | FSX.py:62-86 | Every path that extends an excluded directory path is excluded too, so a whole subtree is skipped. |
| Scanner.NumericLayerContentsExcluded | FSX.py:73-76 | Every directory below `Scenery\<digits>\` is excluded, including the case of zero digits. |
| Scanner.ExcludedEntryIgnored | FSX.py:62-86 | An entry whose directory is excluded can be removed from any position in the walk without changing the scan result: map, count and warnings. |
| Scanner.LastWriteWins | FSX.py:100-104 | A code is a key exactly when some non-excluded entry yields it. Its directory is that of the last such entry in walk order. |
| Scanner.AmbiguityReported | FSX.py:100-102 | A code draws an ambiguity warning exactly when two non-excluded entries with different directories both yield it. |
| Scanner.ScanAsWrittenAgrees | FSX.py:88-90 | As written, the scan raises UnicodeEncodeError exactly when an entry that is not excluded lists a filter-passing file with a non-ASCII name. The error names such a file. Otherwise the scan gives the same map, count and warnings as `Scanner.ScanWalk`. |
| Scanner.NonAsciiNameAborts | FSX.py:89 | A walk whose only file is `LOWW_Gebäude.bgl`: the scan as written raises, while `Scanner.ScanWalk` maps `LOWW` to the entry's folder. |
| Scanner.MatchesCountFiles | FSX.py:88-105 | The match count equals the number of accepted, non-reserved files in all non-excluded entries, duplicates included. It is at least the number of keys. |
| Ordering.BelowTotal | FSX.py:12 | String comparison is total: of two different strings, one sorts before the other. |
| Ordering.BelowTransitive | FSX.py:12 | String comparison is transitive. |
| Ordering.SortKeys | FSX.py:12 | The result is strictly ascending and holds exactly the keys, each once. |
| Ordering.AscendingUnique | FSX.py:12 | Only one ascending sequence holds a given set of keys, so `sorted` fixes the visiting order. |
| LightField.HasLightFieldAsWritten | FSX.py:41-53 | As written: a key missing from the map raises KeyError, and a non-ASCII folder raises UnicodeEncodeError. Otherwise the answer is whether `<dir>\<CODE>_LightField.BGL` exists. |
| LightField.HasLightField | FSX.py:41-53 | As intended: true exactly when the code is a key and `<dir>\<CODE>_LightField.BGL` exists. |
| LightField.HasLightFieldAgrees | FSX.py:41-53 | The code as written answers exactly for a key whose folder is ASCII, and then it gives the same answer as the corrected check. |
| LightField.MissingKeyRaises | FSX.py:42 | For an empty map and the code `KSEA`, the code as written raises KeyError while the intended check answers false. |
| LightField.NonAsciiFolderRaises | FSX.py:46 | For `LSZH` in the folder `C:\Zürich`, the code as written raises UnicodeEncodeError while the intended check answers false. |
| LightField.GetMatchingLightField | FSX.py:27-39 | Aborts exactly when the library folder is missing. Otherwise it returns `""` exactly when the library overlay is missing, or else the overlay's path, which exists. |
| LightField.CopyLandsOnCheckedPath | FSX.py:22 | Copying a four-letter code's library overlay into a folder creates exactly the path that lines 45-46 check, so the airport counts as served afterwards. |
| LightField.OverlayPathsSeparate | FSX.py:27-46 | An overlay installed for one code never coincides with the library folder, with another code's library overlay, or with another code's installed overlay. |
| Installer.Install | FSX.py:11-25 | The loop only adds files. The report follows the given order, and it is cut short exactly when an exception ended the run. |
| Installer.AbortIsFinal | FSX.py:11-25 | After an exception, no later airport is visited and the filesystem is left as it was. |
| Installer.VisitAirport | FSX.py:13-23 | One visit stops the run exactly when the airport's folder is not ASCII (`EncodeError`, raised by the overlay check), or the airport lacks its overlay and either the library folder is missing (`LibraryMissing`) or the library has the overlay but the destination cannot be created in the folder (`CopyFailed`). A stopped visit changes nothing. Otherwise the airport is reported once: already installed exactly when its overlay is in its folder, not available exactly when the library lacks it as well, and installed otherwise. Only an installed airport changes the filesystem, and only by the library overlay copied into its folder. For a four-letter code that did not stop the run, the airport is served afterwards exactly when it was not reported unavailable. |
| Installer.VisitedIsStep | FSX.py:13-23 | The case-by-case description of a visit fixes its result, and that result is the step the reference `Install` takes. |
| Installer.CopyLightFields | FSX.py:11-25 | Visits exactly the keys, in ascending order, with the result of the reference `Install`. |
| Installer.DecisionStable | FSX.py:13-22 | Installing overlays for other four-letter codes does not change what the loop decides for an airport. |
| Installer.InstallDecidedUpFront | FSX.py:11-25 | Every outcome, and the exception that ends the run, is what the loop would decide on the filesystem as it was before the run. Afterwards the filesystem is the one before plus exactly the installed overlays. |
| Installer.InstallIdempotent | FSX.py:11-25 | A second run on the filesystem left by a first run installs nothing and leaves the filesystem unchanged. It ends as the first run did: it completes after a complete run, and it stops with the same exception after an aborted one, where a failed copy creates nothing. |
| Installer.LibraryMissingStopsBeforeAnyCopy | FSX.py:27-31 | Without the library folder nothing is copied. The run aborts exactly when some airport has a non-ASCII folder or lacks its overlay, and every airport visited before that was already served. It aborts at the first such airport: with `EncodeError` for its folder if that is not ASCII, else with the library folder's path. |
| Installer.ListingFault | LFInstall.py:206-210 | The listing raises exactly when some airport's folder is not ASCII. It raises UnicodeEncodeError for the first such folder in the listing order. |
| Installer.InstallLightFields | LFInstall.py:203-212 | A walk with a filter-passing, non-ASCII file name aborts the scan, and nothing is copied. Otherwise the airports are visited in ascending code order over the scanned map. If some airport folder is not ASCII, the listing aborts with the first such folder in that order, before any copy. Otherwise the run is the reference `Install` over the scanned map. |
| Installer.PipelineCopiesIntoLastFolder | LFInstall.py:203-212 | Every file the scan-then-install sequence creates is the overlay of an airport it installed, placed in the folder of the last walk entry that yields that airport. |

## Left out

- The registry getters `getPath`, `getFSXFolder` and `getDX10SceneryFixerFolder` (lines 111-147) are left out: the platform configuration store cannot be modelled. The DX10 folder is a parameter, and the walk stands for whatever the FSX folder holds. When neither registry key exists, `getPath` returns `""`, and the walk of `""` is empty. When the value is empty, it raises WindowsError before any scan.
- How `os.walk` orders its entries depends on the filesystem. The walk is an input, and every property is stated for any order.
- Logging (every `logging.*` call) is left out: it has no effect on the result. The ambiguity warning is kept as data because its condition is part of the behaviour.
- The copied bytes and file metadata are left out. A copy is modelled as the appearance of the destination path.
- Windows paths are case-insensitive, but the model compares paths as exact strings, the same way the program builds them.
- Path joins are assumed to meet walk directories without a trailing separator, which is what `os.walk` yields below the root. A root ending in a separator, and drive-relative paths, are not modelled.
- Why a copy fails is not modelled. A set of folders in which the destination cannot be created (missing permissions, say) stands in for it: a copy into one of them raises before any file appears. A copy that fails after `shutil.copy` has opened the destination (a full disk, a failing `copymode`) is not modelled.
- The command-line handling and configuration loading in `LFInstall.py` (lines 151-194) are left out: they either end the program before the scan (`-t` prints the template and exits, and `-c` with a missing file prints the usage and exits), or raise NameError before the scan (`-c` with an existing file, since `yaml` is never imported), or do nothing. No configuration value reaches `FSX.py`, and the logging setup at line 45 runs whatever the options. The listing of airports (LFInstall.py lines 206-210) is modelled only by the exception it can raise (`Installer.ListingFault`). Its log lines are left out.
- Scanner.CodeOf: it gives a code for every name, non-ASCII ones included. In the original, `str(file)` at line 89 raises first for those; `Scanner.ScanAsWritten` models that failure.
- Scanner.ScanAsWritten: it lowers only ASCII letters when matching names. Python's `unicode.lower` also maps U+0130 to `i` and U+212A (the Kelvin sign) to `k`. A name spelled with them passes the original's filter and then raises at line 89; the model ignores such a name.
- Installer.InstallIdempotent: its same-exception clause covers only a copy that fails before the destination exists. A copy that fails mid-write leaves a partial `<CODE>_LightField.BGL` in the folder, and a later run counts that airport as already installed and goes on to the next airports instead of stopping.
- Installer.InstallDecidedUpFront: it assumes what the scanner guarantees, that every key is a four-letter code and the order has no repeats. For arbitrary keys, a copied overlay could coincide with a path checked for another key.
- Scanner.ScanWalk: it states the shape of the result only; its relation to the walk is stated by `Scanner.LastWriteWins`, `Scanner.AmbiguityReported` and `Scanner.MatchesCountFiles`.

## Findings

| source | as written | input that shows it | evidently intended | confidence | as-written member | corrected member |
|---|---|---|---|---|---|---|
| FSX.py:42 | `airport in foundAirports == False` chains to `airport in foundAirports and foundAirports == False`. A dict never equals `False`, so the guard never returns, and a missing key reaches `foundAirports[airport]`, which raises KeyError. | `airportHasLightField({}, "KSEA")` | `airport not in foundAirports`: answer false for a code that is not a key | not executed | LightField.HasLightFieldAsWritten (shown by LightField.MissingKeyRaises) | LightField.HasLightField |
| FSX.py:89 | `str(file)` encodes the `unicode` file name as ASCII. A filter-passing name with a non-ASCII character raises UnicodeEncodeError, which aborts the whole scan. | a walk entry listing `LOWW_Gebäude.bgl` | record `LOWW` like any other airport file | not executed | Scanner.ScanAsWritten (shown by Scanner.NonAsciiNameAborts) | Scanner.ScanWalk |
| FSX.py:46 | `str(foundAirports[airport])` encodes the airport's `unicode` folder as ASCII, and a non-ASCII folder raises UnicodeEncodeError. That aborts the listing at LFInstall.py:208 and the install. | `airportHasLightField({"LSZH": u"C:\\Zürich"}, "LSZH")` | answer whether the overlay exists in that folder | not executed | LightField.HasLightFieldAsWritten (shown by LightField.NonAsciiFolderRaises) | LightField.HasLightField |

Every caller passes only keys of the map, so the first row never shows
in the program's runs. The other two do, for any airport file or airport
folder with a non-ASCII name. `LightField.HasLightFieldAgrees` and
`Scanner.ScanAsWrittenAgrees` show that the as-written members differ from
the corrected ones only by these exceptions. The entry point
`Installer.InstallLightFields` keeps both exceptions, as the program does.
Its results, and every property of a run, are stated in terms of the
corrected members: `Scanner.ScanWalk` for the map and
`LightField.HasLightField` for a served airport.
