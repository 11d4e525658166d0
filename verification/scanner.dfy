/** The airport scanner, `getInstalledAirports` (FSX.py lines 55-107).

    The directory walk is an input: the sequence of (directory, file names)
    pairs that `os.walk` yields from the simulator folder, in the order it
    yields them. Each entry is first tested against five exclusion patterns
    on its directory path; the files of an entry that survives are filtered
    by the airport file-name pattern, reduced to an upper-case four-letter
    code, and recorded in a code -> directory map where the last writer wins. */
module Scanner {
  import opened Text
  import opened Results

  /** One tuple of `os.walk`: a directory path (without a trailing separator)
      and the names of the files directly inside it. The list of
      sub-directories is not used by the scan and is not kept. */
  datatype WalkEntry = WalkEntry(dir: string, files: seq<string>)

  /** The warning of line 102: `code` seen in `dir` while the map already held
      the different directory `previous`. */
  datatype Ambiguity = Ambiguity(code: string, dir: string, previous: string)

  /** The scan state: the `foundAirports` map, the `numMatches` counter and
      the ambiguity warnings issued so far, oldest first. */
  datatype Scan = Scan(found: map<string, string>, matches: nat, warnings: seq<Ambiguity>)

  const Start: Scan := Scan(map[], 0, [])

  // ---------------------------------------------------------------------
  // Exclusion of directories (lines 63-86)
  // ---------------------------------------------------------------------

  predicate AllDigits(s: string)
  {
    forall k :: 0 <= k < |s| ==> IsDigit(s[k])
  }

  /** The regular expression `Scenery\\[0-9]*\\` matches at index `i`:
      `Scenery\`, then zero or more digits, then a backslash. */
  predicate NumericLayerAt(dir: string, i: int)
  {
    && OccursAt(dir, "Scenery\\", i)
    && exists j :: i + 8 <= j < |dir| && dir[j] == '\\' && AllDigits(dir[i + 8..j])
  }

  predicate HasNumericLayer(dir: string)
  {
    exists i :: 0 <= i < |dir| && NumericLayerAt(dir, i)
  }

  /** The five patterns searched for in a walk entry's directory path. The
      first three are case-sensitive; `\afd\` and `\Cities\` are searched
      ignoring case, which for these ASCII patterns is a search for the
      lower-case pattern in the lowered path. */
  predicate IsExcluded(dir: string)
  {
    || Occurs(dir, "_LC")
    || Occurs(dir, "Scenery\\Global")
    || HasNumericLayer(dir)
    || Occurs(Lower(dir), "\\afd\\")
    || Occurs(Lower(dir), "\\cities\\")
  }

  // ---------------------------------------------------------------------
  // Airport files and codes (lines 88-98)
  // ---------------------------------------------------------------------

  /** `fnmatch.filter(names, "[a-zA-z][a-zA-z][a-zA-z][a-zA-z]_*.bgl")` on
      Windows: pattern and name are both lowered before matching, so the
      class `[a-zA-z]` becomes `[a-z]` and the extension matches in any case.
      The lowered name must be four letters, `_`, anything, then `.bgl`. */
  predicate IsAirportFile(name: string)
  {
    var n := Lower(name);
    && |n| >= 9
    && IsLower(n[0]) && IsLower(n[1]) && IsLower(n[2]) && IsLower(n[3])
    && n[4] == '_'
    && n[|n| - 4..] == ".bgl"
  }

  /** `name.split('_')[0]`: everything before the first underscore. */
  function FirstField(name: string): string
  {
    if |name| == 0 || name[0] == '_' then "" else [name[0]] + FirstField(name[1..])
  }

  /** An airport code as the scanner produces it: four upper-case ASCII letters. */
  predicate IsCode(code: string)
  {
    |code| == 4 && forall i :: 0 <= i < 4 ==> IsUpper(code[i])
  }

  lemma {:induction false} FirstFieldStopsAtUnderscore(name: string, m: nat)
    requires m < |name| && name[m] == '_'
    requires forall k :: 0 <= k < m ==> name[k] != '_'
    ensures FirstField(name) == name[..m]
    decreases m
  {
    if m > 0 {
      FirstFieldStopsAtUnderscore(name[1..], m - 1);
      assert name[..m] == [name[0]] + name[1..][..m - 1];
    }
  }

  /** The first field of an airport file name is its four letters. */
  lemma AirportFileFirstField(name: string)
    requires IsAirportFile(name)
    ensures IsCode(Upper(FirstField(name))) && Upper(FirstField(name)) == Upper(name[..4])
  {
    var n := Lower(name);
    assert forall k :: 0 <= k < 4 ==> IsLower(ToLower(name[k])) by {
      assert forall k :: 0 <= k < 4 ==> n[k] == ToLower(name[k]);
    }
    assert forall k :: 0 <= k < 4 ==> IsUpper(name[k]) || IsLower(name[k]);
    assert ToLower(name[4]) == '_';
    FirstFieldStopsAtUnderscore(name, 4);
  }

  /** The airport code of a file name (lines 89-90): the text before the first
      underscore, upper-cased. For a name that passes the filter it is the
      name's first four letters, upper-cased, whatever case they had. */
  function CodeOf(name: string): (code: string)
    ensures IsAirportFile(name) ==> IsCode(code) && code == Upper(name[..4])
  {
    var code := Upper(FirstField(name));
    assert IsAirportFile(name) ==> IsCode(code) && code == Upper(name[..4]) by {
      if IsAirportFile(name) {
        AirportFileFirstField(name);
      }
    }
    code
  }

  /** `XLIB` and `STAT` are skipped (lines 92-98). */
  predicate IsReserved(code: string)
  {
    code == "XLIB" || code == "STAT"
  }

  /** A file that passes the filter and does not name a reserved code: the
      files `numMatches` counts. */
  predicate Counted(name: string)
  {
    IsAirportFile(name) && !IsReserved(CodeOf(name))
  }

  predicate Yields(name: string, code: string)
  {
    Counted(name) && CodeOf(name) == code
  }

  predicate AnyYields(files: seq<string>, code: string)
  {
    exists j :: 0 <= j < |files| && Yields(files[j], code)
  }

  /** The walk entry writes `code` into the map. */
  predicate Contributes(e: WalkEntry, code: string)
  {
    !IsExcluded(e.dir) && AnyYields(e.files, code)
  }

  function CountedFiles(files: seq<string>): nat
    decreases |files|
  {
    if |files| == 0 then 0
    else CountedFiles(files[..|files| - 1]) + (if Counted(files[|files| - 1]) then 1 else 0)
  }

  // ---------------------------------------------------------------------
  // Building the map (lines 100-105)
  // ---------------------------------------------------------------------

  /** A warning issued while scanning `files` of `dir` from state `s`. */
  predicate IssuedFor(s: Scan, dir: string, files: seq<string>, w: Ambiguity)
  {
    && w.dir == dir
    && w.code in s.found
    && w.previous == s.found[w.code]
    && w.previous != dir
    && AnyYields(files, w.code)
  }

  /** `r` keeps the warnings of `s` and possibly adds more after them. */
  predicate KeepsWarnings(s: Scan, r: Scan)
  {
    |s.warnings| <= |r.warnings| && r.warnings[..|s.warnings|] == s.warnings
  }

  /** Some warning at index `from` or later names `code`. */
  predicate WarnedFrom(ws: seq<Ambiguity>, from: int, code: string)
  {
    exists n :: 0 <= from <= n < |ws| && ws[n].code == code
  }

  /** One file of a scanned directory. */
  function ScanFile(s: Scan, dir: string, name: string): Scan
  {
    if !Counted(name) then s
    else
      var code := CodeOf(name);
      var warn := if code in s.found && s.found[code] != dir then [Ambiguity(code, dir, s.found[code])] else [];
      Scan(s.found[code := dir], s.matches + 1, s.warnings + warn)
  }

  lemma AnyYieldsSnoc(init: seq<string>, name: string, code: string)
    ensures AnyYields(init + [name], code) <==> AnyYields(init, code) || Yields(name, code)
  {
    var files := init + [name];
    if AnyYields(files, code) && !Yields(name, code) {
      var j :| 0 <= j < |files| && Yields(files[j], code);
      assert init[j] == files[j];
    }
    if AnyYields(init, code) {
      var j :| 0 <= j < |init| && Yields(init[j], code);
      assert files[j] == init[j];
    }
    if Yields(name, code) {
      assert files[|init|] == name;
    }
  }

  /** The map part of one more file: keys and values. */
  lemma ScanFileMap(s: Scan, t: Scan, dir: string, init: seq<string>, name: string)
    requires forall k :: k in t.found <==> k in s.found || AnyYields(init, k)
    requires forall k :: k in t.found ==> t.found[k] == if AnyYields(init, k) then dir else s.found[k]
    ensures var r := ScanFile(t, dir, name);
      && (forall k :: k in r.found <==> k in s.found || AnyYields(init + [name], k))
      && (forall k :: k in r.found ==> r.found[k] == if AnyYields(init + [name], k) then dir else s.found[k])
  {
    forall k
      ensures AnyYields(init + [name], k) <==> AnyYields(init, k) || Yields(name, k)
    {
      AnyYieldsSnoc(init, name, k);
    }
  }

  /** The warning part of one more file. */
  lemma ScanFileWarnings(s: Scan, t: Scan, dir: string, init: seq<string>, name: string)
    requires forall k :: k in t.found <==> k in s.found || AnyYields(init, k)
    requires forall k :: k in t.found ==> t.found[k] == if AnyYields(init, k) then dir else s.found[k]
    requires KeepsWarnings(s, t)
    requires forall n :: |s.warnings| <= n < |t.warnings| ==> IssuedFor(s, dir, init, t.warnings[n])
    requires forall k :: k in s.found && s.found[k] != dir && AnyYields(init, k) ==> WarnedFrom(t.warnings, |s.warnings|, k)
    ensures var r := ScanFile(t, dir, name);
      && KeepsWarnings(s, r)
      && (forall n :: |s.warnings| <= n < |r.warnings| ==> IssuedFor(s, dir, init + [name], r.warnings[n]))
      && (forall k :: k in s.found && s.found[k] != dir && AnyYields(init + [name], k) ==> WarnedFrom(r.warnings, |s.warnings|, k))
  {
    var files := init + [name];
    var r := ScanFile(t, dir, name);
    forall k
      ensures AnyYields(files, k) <==> AnyYields(init, k) || Yields(name, k)
    {
      AnyYieldsSnoc(init, name, k);
    }
    assert r.warnings[..|t.warnings|] == t.warnings;
    assert r.warnings[..|s.warnings|] == s.warnings;
    forall n | |s.warnings| <= n < |r.warnings|
      ensures IssuedFor(s, dir, files, r.warnings[n])
    {
      if n < |t.warnings| {
        assert r.warnings[n] == t.warnings[n];
      }
    }
    forall k | k in s.found && s.found[k] != dir && AnyYields(files, k)
      ensures WarnedFrom(r.warnings, |s.warnings|, k)
    {
      if AnyYields(init, k) {
        var n :| |s.warnings| <= n < |t.warnings| && t.warnings[n].code == k;
        assert r.warnings[n] == t.warnings[n];
      } else {
        assert Yields(name, k) && t.found[k] == s.found[k];
        assert r.warnings[|t.warnings|].code == k;
      }
    }
  }

  /** The files of one directory that is not excluded, in listing order. */
  function ScanFiles(s: Scan, dir: string, files: seq<string>): Scan
    decreases |files|
  {
    if |files| == 0 then s
    else ScanFile(ScanFiles(s, dir, files[..|files| - 1]), dir, files[|files| - 1])
  }

  /** Scanning the files of one directory: exactly the codes they yield are
      written, all pointing at `dir`; every counted file bumps the counter;
      and a warning is issued for exactly the codes that were mapped to
      another directory before. */
  lemma {:induction false} ScanFilesEffect(s: Scan, dir: string, files: seq<string>)
    ensures var r := ScanFiles(s, dir, files);
      && (forall k :: k in r.found <==> k in s.found || AnyYields(files, k))
      && (forall k :: k in r.found ==> r.found[k] == if AnyYields(files, k) then dir else s.found[k])
      && r.matches == s.matches + CountedFiles(files)
      && (|s.found| <= s.matches ==> |r.found| <= r.matches)
      && KeepsWarnings(s, r)
      && (forall n :: |s.warnings| <= n < |r.warnings| ==> IssuedFor(s, dir, files, r.warnings[n]))
      && (forall k :: k in s.found && s.found[k] != dir && AnyYields(files, k) ==> WarnedFrom(r.warnings, |s.warnings|, k))
    decreases |files|
  {
    if |files| > 0 {
      var init := files[..|files| - 1];
      var name := files[|files| - 1];
      assert files == init + [name];
      ScanFilesEffect(s, dir, init);
      var t := ScanFiles(s, dir, init);
      ScanFileMap(s, t, dir, init, name);
      ScanFileWarnings(s, t, dir, init, name);
    }
  }

  /** One walk entry (lines 62-105): an excluded directory leaves the state
      as it was, any other one has its files scanned. */
  function ScanEntry(s: Scan, e: WalkEntry): Scan
  {
    if IsExcluded(e.dir) then s else ScanFiles(s, e.dir, e.files)
  }

  /** The map written by one walk entry: the entry's codes now point at its
      directory, every other key is untouched. */
  lemma ScanEntryMap(s: Scan, e: WalkEntry)
    ensures var r := ScanEntry(s, e);
      && (forall k :: k in r.found <==> k in s.found || Contributes(e, k))
      && (forall k :: k in r.found ==> r.found[k] == if Contributes(e, k) then e.dir else s.found[k])
      && (|s.found| <= s.matches ==> |r.found| <= r.matches)
  {
    ScanFilesEffect(s, e.dir, e.files);
  }

  /** The warnings issued by one walk entry. */
  lemma ScanEntryWarnings(s: Scan, e: WalkEntry)
    ensures var r := ScanEntry(s, e);
      && KeepsWarnings(s, r)
      && (forall n :: |s.warnings| <= n < |r.warnings| ==>
            Contributes(e, r.warnings[n].code) && IssuedFor(s, e.dir, e.files, r.warnings[n]))
      && (forall k :: k in s.found && s.found[k] != e.dir && Contributes(e, k) ==> WarnedFrom(r.warnings, |s.warnings|, k))
  {
    ScanFilesEffect(s, e.dir, e.files);
  }

  /** Every key is an airport code that is not reserved, there are no more
      keys than counted files, and every warning names two different folders. */
  predicate WellFormed(s: Scan)
  {
    && (forall k :: k in s.found ==> IsCode(k) && !IsReserved(k))
    && |s.found| <= s.matches
    && (forall n :: 0 <= n < |s.warnings| ==> s.warnings[n].dir != s.warnings[n].previous)
  }

  lemma ScanEntryWellFormed(t: Scan, e: WalkEntry)
    ensures WellFormed(t) ==> WellFormed(ScanEntry(t, e))
  {
    if !WellFormed(t) {
      return;
    }
    ScanEntryMap(t, e);
    ScanEntryWarnings(t, e);
    var r := ScanEntry(t, e);
    forall k | k in r.found && k !in t.found
      ensures IsCode(k) && !IsReserved(k)
    {
      var j :| 0 <= j < |e.files| && Yields(e.files[j], k);
    }
    forall n | 0 <= n < |r.warnings|
      ensures r.warnings[n].dir != r.warnings[n].previous
    {
      if n < |t.warnings| {
        assert r.warnings[n] == r.warnings[..|t.warnings|][n];
      }
    }
  }

  /** The walk entries in order, from state `s`. */
  function ScanFrom(s: Scan, walk: seq<WalkEntry>): (r: Scan)
    decreases |walk|
    ensures WellFormed(s) ==> WellFormed(r)
  {
    if |walk| == 0 then s
    else
      var t := ScanFrom(s, walk[..|walk| - 1]);
      ScanEntryWellFormed(t, walk[|walk| - 1]);
      var r := ScanEntry(t, walk[|walk| - 1]);
      r
  }

  /** `getInstalledAirports`: the whole walk from an empty map. */
  function ScanWalk(walk: seq<WalkEntry>): (r: Scan)
    ensures forall k :: k in r.found ==> IsCode(k) && !IsReserved(k)
    ensures |r.found| <= r.matches
    ensures forall n :: 0 <= n < |r.warnings| ==> r.warnings[n].dir != r.warnings[n].previous
  {
    ScanFrom(Start, walk)
  }

  // ---------------------------------------------------------------------
  // Properties of the scan
  // ---------------------------------------------------------------------

  /** Any name made of four ASCII letters, `_`, any text and an extension
      spelled `.bgl` in any case is an airport file, and its code is the four
      letters upper-cased. */
  lemma FileNameRoundTrip(letters: string, rest: string, ext: string)
    requires |letters| == 4 && forall i :: 0 <= i < 4 ==> IsUpper(letters[i]) || IsLower(letters[i])
    requires Lower(ext) == ".bgl"
    ensures IsAirportFile(letters + "_" + rest + ext)
    ensures CodeOf(letters + "_" + rest + ext) == Upper(letters)
  {
    var name := letters + "_" + rest + ext;
    LowerAppend(letters + "_" + rest, ext);
    LowerAppend(letters + "_", rest);
    LowerAppend(letters, "_");
    var n := Lower(name);
    assert n == Lower(letters) + "_" + Lower(rest) + ".bgl";
    assert n[|n| - 4..] == ".bgl";
    assert name[..4] == letters;
  }

  /** Matching and code extraction see a file name only through its lowered
      form: two names that differ only in letter case are both airport files
      or neither, and give the same code. */
  lemma CodeIgnoresCase(a: string, b: string)
    requires Lower(a) == Lower(b)
    ensures IsAirportFile(a) <==> IsAirportFile(b)
    ensures IsAirportFile(a) ==> CodeOf(a) == CodeOf(b)
  {
    if IsAirportFile(a) {
      forall k | 0 <= k < 4
        ensures Upper(a[..4])[k] == Upper(b[..4])[k]
      {
        assert Lower(a)[k] == ToLower(a[k]) && Lower(b)[k] == ToLower(b[k]);
        UpperOfLower(a[k]);
        UpperOfLower(b[k]);
      }
    }
  }

  /** The exclusion test is a substring search, so every directory below an
      excluded one is excluded as well. */
  lemma ExclusionInherited(dir: string, rest: string)
    requires IsExcluded(dir)
    ensures IsExcluded(dir + rest)
  {
    LowerAppend(dir, rest);
    if Occurs(dir, "_LC") {
      OccursAppend(dir, rest, "_LC");
    } else if Occurs(dir, "Scenery\\Global") {
      OccursAppend(dir, rest, "Scenery\\Global");
    } else if HasNumericLayer(dir) {
      var i :| 0 <= i < |dir| && NumericLayerAt(dir, i);
      var j :| i + 8 <= j < |dir| && dir[j] == '\\' && AllDigits(dir[i + 8..j]);
      var d := dir + rest;
      assert d[i..i + 8] == dir[i..i + 8];
      assert d[j] == dir[j];
      assert d[i + 8..j] == dir[i + 8..j];
      assert NumericLayerAt(d, i);
    } else if Occurs(Lower(dir), "\\afd\\") {
      OccursAppend(Lower(dir), Lower(rest), "\\afd\\");
    } else {
      OccursAppend(Lower(dir), Lower(rest), "\\cities\\");
    }
  }

  /** A directory holding a purely numeric scenery layer: every folder below
      `...\Scenery\<digits>` is excluded. */
  lemma NumericLayerContentsExcluded(prefix: string, digits: string, rest: string)
    requires AllDigits(digits)
    ensures IsExcluded(prefix + "Scenery\\" + digits + "\\" + rest)
  {
    var d := prefix + "Scenery\\" + digits + "\\" + rest;
    var i := |prefix|;
    var j := |prefix| + 8 + |digits|;
    assert d[i..i + 8] == "Scenery\\";
    assert d[j] == '\\';
    assert d[i + 8..j] == digits;
    assert NumericLayerAt(d, i);
  }

  lemma ScanFromSnoc(s: Scan, walk: seq<WalkEntry>, init: seq<WalkEntry>)
    requires |walk| > 0 && walk[..|walk| - 1] == init
    ensures ScanFrom(s, walk) == ScanEntry(ScanFrom(s, init), walk[|walk| - 1])
  {
  }

  lemma {:induction false} ScanFromAppend(s: Scan, a: seq<WalkEntry>, b: seq<WalkEntry>)
    ensures ScanFrom(s, a + b) == ScanFrom(ScanFrom(s, a), b)
    decreases |b|
  {
    if |b| == 0 {
      assert a + b == a;
    } else {
      var ab := a + b;
      var init := b[..|b| - 1];
      ScanFromAppend(s, a, init);
      ScanFromSnoc(s, ab, a + init);
      ScanFromSnoc(ScanFrom(s, a), b, init);
    }
  }

  /** An excluded entry contributes nothing wherever it sits in the walk, and
      the entries after it are scanned exactly as if it were absent. */
  lemma ExcludedEntryIgnored(before: seq<WalkEntry>, e: WalkEntry, after: seq<WalkEntry>)
    requires IsExcluded(e.dir)
    ensures ScanWalk(before + [e] + after) == ScanWalk(before + after)
  {
    ScanFromAppend(Start, before + [e], after);
    ScanFromAppend(Start, before, after);
    assert (before + [e])[..|before|] == before;
  }

  /** Some entry of the walk writes `code`. */
  predicate Found(walk: seq<WalkEntry>, code: string)
  {
    exists i :: 0 <= i < |walk| && Contributes(walk[i], code)
  }

  /** Entry `i` is the last one of the walk that writes `code`. */
  predicate LastWriter(walk: seq<WalkEntry>, code: string, i: int)
  {
    && 0 <= i < |walk|
    && Contributes(walk[i], code)
    && forall j :: i < j < |walk| ==> !Contributes(walk[j], code)
  }

  /** The index of the last walk entry that writes `code`, or -1 if none does. */
  function LastWriterIndex(walk: seq<WalkEntry>, code: string): (i: int)
    decreases |walk|
    ensures -1 <= i < |walk|
    ensures i == -1 ==> !Found(walk, code)
    ensures i >= 0 ==> LastWriter(walk, code, i)
  {
    if |walk| == 0 then -1
    else if Contributes(walk[|walk| - 1], code) then |walk| - 1
    else
      var i := LastWriterIndex(walk[..|walk| - 1], code);
      assert forall j :: 0 <= j < |walk| - 1 ==> walk[..|walk| - 1][j] == walk[j];
      i
  }

  /** Last write wins: a code is a key exactly when some walk entry that is
      not excluded holds a file yielding it, and its directory is that of the
      last such entry. */
  lemma {:induction false} LastWriteWins(walk: seq<WalkEntry>, code: string)
    ensures code in ScanWalk(walk).found <==> Found(walk, code)
    ensures code in ScanWalk(walk).found <==> LastWriterIndex(walk, code) >= 0
    ensures code in ScanWalk(walk).found ==> ScanWalk(walk).found[code] == walk[LastWriterIndex(walk, code)].dir
    decreases |walk|
  {
    if |walk| > 0 {
      var n := |walk|;
      var init := walk[..n - 1];
      LastWriteWins(init, code);
      LastWriteStep(walk, init, code);
    }
  }

  lemma LastWriteStep(walk: seq<WalkEntry>, init: seq<WalkEntry>, code: string)
    requires |walk| > 0 && init == walk[..|walk| - 1]
    requires code in ScanWalk(init).found <==> LastWriterIndex(init, code) >= 0
    requires code in ScanWalk(init).found ==> ScanWalk(init).found[code] == init[LastWriterIndex(init, code)].dir
    ensures code in ScanWalk(walk).found <==> LastWriterIndex(walk, code) >= 0
    ensures code in ScanWalk(walk).found ==> ScanWalk(walk).found[code] == walk[LastWriterIndex(walk, code)].dir
  {
    var e := walk[|walk| - 1];
    var t := ScanWalk(init);
    ScanFromSnoc(Start, walk, init);
    ScanEntryMap(t, e);
    if !Contributes(e, code) && code in t.found {
      assert init[LastWriterIndex(init, code)] == walk[LastWriterIndex(init, code)];
    }
  }

  /** Two entries of the walk write `code` with different directories. */
  predicate Ambiguous(walk: seq<WalkEntry>, code: string)
  {
    exists i, j :: 0 <= i < |walk| && 0 <= j < |walk|
      && Contributes(walk[i], code) && Contributes(walk[j], code) && walk[i].dir != walk[j].dir
  }

  /** The warnings of a walk are those of the walk without its last entry,
      followed by the ones the last entry issues. */
  lemma ScanWalkWarningsSnoc(walk: seq<WalkEntry>, code: string)
    requires |walk| > 0
    ensures var init := walk[..|walk| - 1];
      WarnedFrom(ScanWalk(walk).warnings, 0, code) <==>
        WarnedFrom(ScanWalk(init).warnings, 0, code)
        || WarnedFrom(ScanWalk(walk).warnings, |ScanWalk(init).warnings|, code)
  {
    var init := walk[..|walk| - 1];
    var t := ScanWalk(init);
    var r := ScanWalk(walk);
    ScanFromSnoc(Start, walk, init);
    ScanEntryWarnings(t, walk[|walk| - 1]);
    assert forall m :: 0 <= m < |t.warnings| ==> r.warnings[m] == t.warnings[m] by {
      assert r.warnings[..|t.warnings|] == t.warnings;
    }
    if WarnedFrom(t.warnings, 0, code) {
      var m :| 0 <= m < |t.warnings| && t.warnings[m].code == code;
      assert r.warnings[m].code == code;
    }
  }

  /** Every warning names a code that two directories of the walk hold. */
  lemma {:induction false} WarningMeansAmbiguous(walk: seq<WalkEntry>, code: string)
    requires WarnedFrom(ScanWalk(walk).warnings, 0, code)
    ensures Ambiguous(walk, code)
    decreases |walk|
  {
    var init := walk[..|walk| - 1];
    ScanWalkWarningsSnoc(walk, code);
    if WarnedFrom(ScanWalk(init).warnings, 0, code) {
      WarningMeansAmbiguous(init, code);
      AmbiguousGrows(walk, init, code);
    } else {
      NewWarningAmbiguous(walk, init, code);
    }
  }

  lemma AmbiguousGrows(walk: seq<WalkEntry>, init: seq<WalkEntry>, code: string)
    requires |walk| > 0 && init == walk[..|walk| - 1]
    requires Ambiguous(init, code)
    ensures Ambiguous(walk, code)
  {
    var i, j :| 0 <= i < |init| && 0 <= j < |init|
      && Contributes(init[i], code) && Contributes(init[j], code) && init[i].dir != init[j].dir;
    assert init[i] == walk[i] && init[j] == walk[j];
  }

  /** A warning issued by the last entry pairs it with the entry that wrote
      the code before. */
  lemma NewWarningAmbiguous(walk: seq<WalkEntry>, init: seq<WalkEntry>, code: string)
    requires |walk| > 0 && init == walk[..|walk| - 1]
    requires WarnedFrom(ScanWalk(walk).warnings, |ScanWalk(init).warnings|, code)
    ensures Ambiguous(walk, code)
  {
    var n := |walk|;
    var e := walk[n - 1];
    var t := ScanWalk(init);
    var r := ScanWalk(walk);
    ScanFromSnoc(Start, walk, init);
    ScanEntryWarnings(t, e);
    LastWriteWins(init, code);
    var m :| |t.warnings| <= m < |r.warnings| && r.warnings[m].code == code;
    assert Contributes(e, code) && code in t.found && t.found[code] != e.dir;
    var i := LastWriterIndex(init, code);
    assert init[i] == walk[i];
    assert Contributes(walk[i], code) && Contributes(walk[n - 1], code);
  }

  /** Two directories holding the same code always draw a warning. */
  lemma {:induction false} AmbiguousIsWarned(walk: seq<WalkEntry>, code: string)
    requires Ambiguous(walk, code)
    ensures WarnedFrom(ScanWalk(walk).warnings, 0, code)
    decreases |walk|
  {
    var init := walk[..|walk| - 1];
    ScanWalkWarningsSnoc(walk, code);
    if Ambiguous(init, code) {
      AmbiguousIsWarned(init, code);
    } else {
      AmbiguityFirstSeen(walk, init, code);
    }
  }

  /** When the walk without its last entry is not yet ambiguous, the last
      entry is the one that draws the warning. */
  lemma AmbiguityFirstSeen(walk: seq<WalkEntry>, init: seq<WalkEntry>, code: string)
    requires |walk| > 0 && init == walk[..|walk| - 1]
    requires Ambiguous(walk, code) && !Ambiguous(init, code)
    ensures WarnedFrom(ScanWalk(walk).warnings, |ScanWalk(init).warnings|, code)
  {
    var n := |walk|;
    var e := walk[n - 1];
    var t := ScanWalk(init);
    assert forall i :: 0 <= i < n - 1 ==> init[i] == walk[i];
    var i, j :| 0 <= i < n && 0 <= j < n
      && Contributes(walk[i], code) && Contributes(walk[j], code) && walk[i].dir != walk[j].dir;
    assert i == n - 1 || j == n - 1 by {
      assert i < n - 1 ==> init[i] == walk[i];
      assert j < n - 1 ==> init[j] == walk[j];
    }
    assert Contributes(e, code);
    var p := if i < n - 1 then i else j;
    assert p < n - 1 && init[p] == walk[p];
    assert Contributes(init[p], code) && init[p].dir != e.dir;
    LastWriteWins(init, code);
    var q := LastWriterIndex(init, code);
    assert Contributes(init[q], code);
    assert !(Contributes(init[p], code) && Contributes(init[q], code) && init[p].dir != init[q].dir);
    assert t.found[code] != e.dir;
    ScanFromSnoc(Start, walk, init);
    ScanEntryWarnings(t, e);
  }

  /** An ambiguity warning names `code` exactly when two directories of the
      walk hold files for it. */
  lemma AmbiguityReported(walk: seq<WalkEntry>, code: string)
    ensures WarnedFrom(ScanWalk(walk).warnings, 0, code) <==> Ambiguous(walk, code)
  {
    if WarnedFrom(ScanWalk(walk).warnings, 0, code) {
      WarningMeansAmbiguous(walk, code);
    }
    if Ambiguous(walk, code) {
      AmbiguousIsWarned(walk, code);
    }
  }

  /** The files `numMatches` counts over a whole walk: the airport files of
      every entry that is not excluded, reserved codes left out. */
  function CountedInWalk(walk: seq<WalkEntry>): nat
    decreases |walk|
  {
    if |walk| == 0 then 0
    else
      var e := walk[|walk| - 1];
      CountedInWalk(walk[..|walk| - 1]) + (if IsExcluded(e.dir) then 0 else CountedFiles(e.files))
  }

  /** `numMatches` counts every accepted file of every scanned directory,
      duplicates included, and so is at least the number of keys. */
  lemma {:induction false} MatchesCountFiles(walk: seq<WalkEntry>)
    ensures ScanWalk(walk).matches == CountedInWalk(walk)
    ensures |ScanWalk(walk).found| <= CountedInWalk(walk)
    decreases |walk|
  {
    if |walk| > 0 {
      var init := walk[..|walk| - 1];
      var e := walk[|walk| - 1];
      MatchesCountFiles(init);
      ScanFromSnoc(Start, walk, init);
      ScanFilesEffect(ScanWalk(init), e.dir, e.files);
    }
  }

  // ---------------------------------------------------------------------
  // Names the original cannot encode (line 89)
  // ---------------------------------------------------------------------

  /** A file line 89 cannot convert: it passes the filter, and `str(file)`
      of its non-ASCII `unicode` name raises UnicodeEncodeError. */
  predicate Unencodable(name: string)
  {
    IsAirportFile(name) && !IsAscii(name)
  }

  predicate AnyUnencodable(files: seq<string>)
  {
    exists j :: 0 <= j < |files| && Unencodable(files[j])
  }

  /** Some entry of the walk that is not excluded lists an unencodable file. */
  predicate WalkUnencodable(walk: seq<WalkEntry>)
  {
    exists i :: 0 <= i < |walk| && !IsExcluded(walk[i].dir) && AnyUnencodable(walk[i].files)
  }

  /** The files of one directory as the code is written: the first
      unencodable name raises, and the exception discards the scan. */
  function ScanFilesAsWritten(s: Scan, dir: string, files: seq<string>): Result<Scan, Fault>
    decreases |files|
  {
    if |files| == 0 then Success(s)
    else
      match ScanFilesAsWritten(s, dir, files[..|files| - 1])
      case Failure(f) => Failure(f)
      case Success(t) =>
        var name := files[|files| - 1];
        if Unencodable(name) then Failure(EncodeError(name)) else Success(ScanFile(t, dir, name))
  }

  function ScanEntryAsWritten(s: Scan, e: WalkEntry): Result<Scan, Fault>
  {
    if IsExcluded(e.dir) then Success(s) else ScanFilesAsWritten(s, e.dir, e.files)
  }

  function ScanFromAsWritten(s: Scan, walk: seq<WalkEntry>): Result<Scan, Fault>
    decreases |walk|
  {
    if |walk| == 0 then Success(s)
    else
      match ScanFromAsWritten(s, walk[..|walk| - 1])
      case Failure(f) => Failure(f)
      case Success(t) => ScanEntryAsWritten(t, walk[|walk| - 1])
  }

  /** `getInstalledAirports` as written, UnicodeEncodeError included. */
  function ScanAsWritten(walk: seq<WalkEntry>): Result<Scan, Fault>
  {
    ScanFromAsWritten(Start, walk)
  }

  lemma {:induction false} ScanFilesAsWrittenAgrees(s: Scan, dir: string, files: seq<string>)
    ensures var r := ScanFilesAsWritten(s, dir, files);
      && (r.Failure? <==> AnyUnencodable(files))
      && (r.Success? ==> r.value == ScanFiles(s, dir, files))
      && (r.Failure? ==> r.error.EncodeError? && Unencodable(r.error.text))
    decreases |files|
  {
    if |files| > 0 {
      var init := files[..|files| - 1];
      ScanFilesAsWrittenAgrees(s, dir, init);
      assert forall j :: 0 <= j < |init| ==> init[j] == files[j];
      if AnyUnencodable(files) && !Unencodable(files[|files| - 1]) {
        var j :| 0 <= j < |files| && Unencodable(files[j]);
        assert Unencodable(init[j]);
      }
    }
  }

  lemma WalkUnencodableSnoc(walk: seq<WalkEntry>, init: seq<WalkEntry>)
    requires |walk| > 0 && init == walk[..|walk| - 1]
    ensures WalkUnencodable(walk) <==>
      WalkUnencodable(init) || (!IsExcluded(walk[|walk| - 1].dir) && AnyUnencodable(walk[|walk| - 1].files))
  {
    assert forall i :: 0 <= i < |init| ==> init[i] == walk[i];
    if WalkUnencodable(walk) && !(!IsExcluded(walk[|walk| - 1].dir) && AnyUnencodable(walk[|walk| - 1].files)) {
      var i :| 0 <= i < |walk| && !IsExcluded(walk[i].dir) && AnyUnencodable(walk[i].files);
      assert i < |init| && init[i] == walk[i];
    }
  }

  /** The induction step of `ScanFromAsWrittenAgrees`. */
  lemma ScanFromAsWrittenStep(s: Scan, walk: seq<WalkEntry>, init: seq<WalkEntry>)
    requires |walk| > 0 && init == walk[..|walk| - 1]
    requires var r := ScanFromAsWritten(s, init);
      && (r.Failure? <==> WalkUnencodable(init))
      && (r.Success? ==> r.value == ScanFrom(s, init))
      && (r.Failure? ==> r.error.EncodeError? && Unencodable(r.error.text))
    ensures var r := ScanFromAsWritten(s, walk);
      && (r.Failure? <==> WalkUnencodable(walk))
      && (r.Success? ==> r.value == ScanFrom(s, walk))
      && (r.Failure? ==> r.error.EncodeError? && Unencodable(r.error.text))
  {
    var e := walk[|walk| - 1];
    WalkUnencodableSnoc(walk, init);
    ScanFromSnoc(s, walk, init);
    match ScanFromAsWritten(s, init)
    case Failure(_) =>
    case Success(t) =>
      if !IsExcluded(e.dir) {
        ScanFilesAsWrittenAgrees(t, e.dir, e.files);
      }
  }

  lemma {:induction false} ScanFromAsWrittenAgrees(s: Scan, walk: seq<WalkEntry>)
    ensures var r := ScanFromAsWritten(s, walk);
      && (r.Failure? <==> WalkUnencodable(walk))
      && (r.Success? ==> r.value == ScanFrom(s, walk))
      && (r.Failure? ==> r.error.EncodeError? && Unencodable(r.error.text))
    decreases |walk|
  {
    if |walk| > 0 {
      var init := walk[..|walk| - 1];
      ScanFromAsWrittenAgrees(s, init);
      ScanFromAsWrittenStep(s, walk, init);
    }
  }

  /** The scan as written raises exactly when an entry that is not excluded
      lists a filter-passing file with a non-ASCII name, and otherwise gives
      the same map, count and warnings as the scan that has no encoding step. */
  lemma ScanAsWrittenAgrees(walk: seq<WalkEntry>)
    ensures var r := ScanAsWritten(walk);
      && (r.Failure? <==> WalkUnencodable(walk))
      && (r.Success? ==> r.value == ScanWalk(walk))
      && (r.Failure? ==> r.error.EncodeError? && Unencodable(r.error.text))
  {
    ScanFromAsWrittenAgrees(Start, walk);
  }

  /** A file name with an umlaut after the airport prefix. */
  lemma UmlautName()
    ensures IsAirportFile("LOWW_Geb\U{e4}ude.bgl")
    ensures !IsAscii("LOWW_Geb\U{e4}ude.bgl")
    ensures CodeOf("LOWW_Geb\U{e4}ude.bgl") == "LOWW" && !IsReserved("LOWW")
  {
    var name := "LOWW_Geb\U{e4}ude.bgl";
    assert name[8] as int == 0xe4;
    assert Lower(name) == "loww_geb\U{e4}ude.bgl";
  }

  /** One airport file named with an umlaut aborts the scan as written, where
      the scan without the encoding step records the airport. */
  lemma NonAsciiNameAborts()
    ensures ScanAsWritten([WalkEntry("C:", ["LOWW_Geb\U{e4}ude.bgl"])]).Failure?
    ensures "LOWW" in ScanWalk([WalkEntry("C:", ["LOWW_Geb\U{e4}ude.bgl"])]).found
    ensures ScanWalk([WalkEntry("C:", ["LOWW_Geb\U{e4}ude.bgl"])]).found["LOWW"] == "C:"
  {
    var name := "LOWW_Geb\U{e4}ude.bgl";
    var walk := [WalkEntry("C:", [name])];
    UmlautName();
    assert !IsExcluded("C:");
    assert walk[0].files[0] == name;
    assert Yields(walk[0].files[0], "LOWW");
    assert Contributes(walk[0], "LOWW");
    assert AnyUnencodable(walk[0].files);
    ScanAsWrittenAgrees(walk);
    LastWriteWins(walk, "LOWW");
    assert LastWriterIndex(walk, "LOWW") == 0;
  }
}
