/** The installer, `copyLightFields` (FSX.py lines 11-25), and the scan
    followed by the install that the program's entry point performs.

    The airports are visited in ascending order of their codes. An airport
    whose folder already holds its overlay is skipped before anything else
    is looked at; for any other airport the library is consulted, and the
    library overlay, if there is one, is copied into the airport's folder.
    A missing library folder or a failing copy raises, which ends the run,
    and so does an airport folder with a non-ASCII character in its name:
    the overlay check of line 13 converts the folder with `str()` (line 46),
    which raises before anything else is looked at. */
module Installer {
  import opened Text
  import opened Results
  import opened Ordering
  import opened LightField
  import Scanner

  /** The parameters the original reads from its surroundings: the DX10
      Scenery Fixer folder (from the registry) and the folders in which the
      copy cannot create its destination, so that it raises before any file
      appears. */
  datatype Env = Env(dx10: string, unwritable: set<string>)

  /** What happened to one airport, as far as the run got. */
  datatype Outcome = AlreadyInstalled | Installed | NotAvailable

  /** What one pass of the loop does with an airport. */
  datatype Decision = Proceed(outcome: Outcome) | Stop(fault: Fault)

  datatype Visit = Visit(code: string, outcome: Outcome)

  /** A run: the airports visited, the filesystem afterwards, and the
      exception that ended it early, if any. */
  datatype Run = Run(report: seq<Visit>, fs: set<string>, fault: Option<Fault>)

  predicate AllKeys(found: map<string, string>, order: seq<string>)
  {
    forall i :: 0 <= i < |order| ==> order[i] in found
  }

  /** One pass of the loop body (lines 13-23) for `code`, against the
      filesystem as it stands. The overlay check is the one the code runs,
      exception included. */
  function Decide(env: Env, found: map<string, string>, code: string, fs: set<string>): Decision
    requires code in found
  {
    match HasLightFieldAsWritten(found, code, fs)
    case Failure(f) => Stop(f)
    case Success(has) =>
      if has then Proceed(AlreadyInstalled)
      else
        match GetMatchingLightField(env.dx10, code, fs)
        case Failure(f) => Stop(f)
        case Success(src) =>
          if src == "" then Proceed(NotAvailable)
          else if found[code] in env.unwritable then Stop(CopyFailed(code, found[code]))
          else Proceed(Installed)
  }

  /** Carries out the decision for `code`: an installed overlay is copied
      from the library into the airport's folder. */
  function Step(env: Env, found: map<string, string>, run: Run, code: string): Run
    requires code in found
  {
    match Decide(env, found, code, run.fs)
    case Stop(f) => Run(run.report, run.fs, Some(f))
    case Proceed(o) =>
      var fs := if o == Installed then run.fs + {CopyDestination(SourcePath(env.dx10, code), found[code])} else run.fs;
      Run(run.report + [Visit(code, o)], fs, None)
  }

  /** The loop of lines 12-23 over `order`, stopping at the first exception.
      Files are only ever added; the report follows `order`; and the run is
      cut short exactly when an exception ended it. */
  function Install(env: Env, found: map<string, string>, order: seq<string>, fs: set<string>): (r: Run)
    requires AllKeys(found, order)
    decreases |order|
    ensures fs <= r.fs
    ensures |r.report| <= |order|
    ensures forall i :: 0 <= i < |r.report| ==> r.report[i].code == order[i]
    ensures r.fault.None? <==> |r.report| == |order|
  {
    if |order| == 0 then Run([], fs, None)
    else
      var prev := Install(env, found, order[..|order| - 1], fs);
      if prev.fault.Some? then prev else Step(env, found, prev, order[|order| - 1])
  }

  /** `Install` on one more airport of `order`. */
  lemma InstallSnoc(env: Env, found: map<string, string>, order: seq<string>, i: nat, fs: set<string>)
    requires AllKeys(found, order) && i < |order|
    ensures var prev := Install(env, found, order[..i], fs);
      Install(env, found, order[..i + 1], fs) == if prev.fault.Some? then prev else Step(env, found, prev, order[i])
  {
    assert order[..i + 1][..i] == order[..i];
  }

  /** Once an exception has ended the run, the remaining airports are not visited. */
  lemma {:induction false} AbortIsFinal(env: Env, found: map<string, string>, order: seq<string>, k: nat, fs: set<string>)
    requires AllKeys(found, order)
    requires k <= |order|
    requires Install(env, found, order[..k], fs).fault.Some?
    ensures Install(env, found, order, fs) == Install(env, found, order[..k], fs)
    decreases |order| - k
  {
    if k < |order| {
      var init := order[..|order| - 1];
      assert init[..k] == order[..k];
      AbortIsFinal(env, found, init, k, fs);
    } else {
      assert order[..k] == order;
    }
  }

  /** What one pass of the loop body (lines 13-23) does, described case by
      case. The visit stops the run exactly when the airport's folder cannot
      be converted to ASCII, or the airport lacks its overlay and either the
      library folder is missing or the copy fails. Otherwise it reports the
      airport: already installed exactly when its overlay is in its folder,
      not available exactly when the library lacks it too, and installed
      otherwise, in which case the library overlay is copied into the folder
      and nothing else changes. */
  predicate Visited(env: Env, found: map<string, string>, run: Run, code: string, next: Run)
    requires code in found
  {
    var folder := LibraryFolder(env.dx10);
    var source := SourcePath(env.dx10, code);
    var has := HasLightField(found, code, run.fs);
    && (next.fault.Some? <==>
          !IsAscii(found[code]) || (!has && (folder !in run.fs || (source in run.fs && found[code] in env.unwritable))))
    && (next.fault.Some? ==> next.report == run.report && next.fs == run.fs)
    && (next.fault.Some? ==>
          next.fault.value ==
            if !IsAscii(found[code]) then EncodeError(found[code])
            else if folder !in run.fs then LibraryMissing(folder)
            else CopyFailed(code, found[code]))
    && (next.fault.None? ==>
          && |next.report| == |run.report| + 1
          && next.report[..|run.report|] == run.report
          && next.report[|run.report|].code == code
          && (next.report[|run.report|].outcome == AlreadyInstalled <==> has)
          && (next.report[|run.report|].outcome == NotAvailable <==> !has && source !in run.fs)
          && next.fs == if next.report[|run.report|].outcome == Installed
                        then run.fs + {CopyDestination(source, found[code])} else run.fs)
  }

  /** The case-by-case description of a visit determines it, and it is the
      step `Install` takes. */
  lemma VisitedIsStep(env: Env, found: map<string, string>, run: Run, code: string, next: Run)
    requires code in found && run.fault.None?
    requires Visited(env, found, run, code, next)
    ensures next == Step(env, found, run, code)
  {
  }

  /** One pass of the loop body (lines 13-23), as `Visited` describes it. An
      airport reported as anything but not available then has its overlay
      in its folder. */
  method VisitAirport(env: Env, found: map<string, string>, run: Run, code: string) returns (next: Run)
    requires code in found
    requires run.fault.None?
    ensures Visited(env, found, run, code, next)
    ensures Scanner.IsCode(code) && next.fault.None? ==>
      (HasLightField(found, code, next.fs) <==> next.report[|run.report|].outcome != NotAvailable)
  {
    if Scanner.IsCode(code) {
      CopyLandsOnCheckedPath(env.dx10, found[code], code);
    }
    var checked := HasLightFieldAsWritten(found, code, run.fs);
    if checked.Failure? {
      return Run(run.report, run.fs, Some(checked.error));
    }
    if checked.value {
      return Run(run.report + [Visit(code, AlreadyInstalled)], run.fs, None);
    }
    var lf := GetMatchingLightField(env.dx10, code, run.fs);
    if lf.Failure? {
      return Run(run.report, run.fs, Some(lf.error));
    }
    if lf.value == "" {
      return Run(run.report + [Visit(code, NotAvailable)], run.fs, None);
    }
    var dir := found[code];
    if dir in env.unwritable {
      return Run(run.report, run.fs, Some(CopyFailed(code, dir)));
    }
    next := Run(run.report + [Visit(code, Installed)], run.fs + {CopyDestination(lf.value, dir)}, None);
  }

  /** `copyLightFields`: visits the airports in ascending order of code until
      the first exception. */
  method CopyLightFields(env: Env, found: map<string, string>, fs: set<string>) returns (order: seq<string>, run: Run)
    ensures Ascending(order)
    ensures forall k :: k in order <==> k in found
    ensures AllKeys(found, order)
    ensures run == Install(env, found, order, fs)
  {
    order := SortKeys(found.Keys);
    run := Run([], fs, None);
    var i := 0;
    while i < |order|
      invariant 0 <= i <= |order|
      invariant run.fault.None?
      invariant Install(env, found, order[..i], fs) == run
    {
      InstallSnoc(env, found, order, i, fs);
      var next := VisitAirport(env, found, run, order[i]);
      VisitedIsStep(env, found, run, order[i], next);
      run := next;
      if run.fault.Some? {
        AbortIsFinal(env, found, order, i + 1, fs);
        return;
      }
      i := i + 1;
    }
    assert order[..|order|] == order;
  }

  // ---------------------------------------------------------------------
  // Properties of a run
  // ---------------------------------------------------------------------

  /** Every key is a four-letter airport code, as the scanner guarantees. */
  predicate AllCodes(found: map<string, string>)
  {
    forall k :: k in found ==> Scanner.IsCode(k)
  }

  predicate Distinct(order: seq<string>)
  {
    forall i, j :: 0 <= i < j < |order| ==> order[i] != order[j]
  }

  /** `p` is the overlay installed by one of the visits in `report`. */
  predicate Added(found: map<string, string>, order: seq<string>, report: seq<Visit>, p: string)
  {
    exists i :: 0 <= i < |report| && i < |order| && order[i] in found
      && report[i].outcome == Installed && p == InstalledPath(found[order[i]], order[i])
  }

  /** Installing overlays for other airports does not change what the loop
      decides for `code`. */
  lemma DecisionStable(env: Env, found: map<string, string>, code: string, fs: set<string>, later: set<string>)
    requires AllCodes(found) && code in found
    requires fs <= later
    requires forall p :: p in later && p !in fs ==>
      exists c :: c in found && c != code && p == InstalledPath(found[c], c)
    ensures Decide(env, found, code, later) == Decide(env, found, code, fs)
  {
    var installed := InstalledPath(found[code], code);
    var folder := LibraryFolder(env.dx10);
    var source := SourcePath(env.dx10, code);
    forall p | p in later && p !in fs
      ensures p != installed && p != folder && p != source
    {
      var c :| c in found && c != code && p == InstalledPath(found[c], c);
      OverlayPathsSeparate(env.dx10, found[code], code, c, found[c]);
    }
  }

  /** Restricting the airports to a prefix that covers the report does not
      change which overlays the report installed. */
  lemma AddedPrefix(found: map<string, string>, order: seq<string>, k: nat, report: seq<Visit>, p: string)
    requires |report| <= k <= |order|
    ensures Added(found, order[..k], report, p) <==> Added(found, order, report, p)
  {
    if Added(found, order, report, p) {
      var i :| 0 <= i < |report| && i < |order| && order[i] in found
        && report[i].outcome == Installed && p == InstalledPath(found[order[i]], order[i]);
      assert order[..k][i] == order[i];
    }
    if Added(found, order[..k], report, p) {
      var i :| 0 <= i < |report| && i < k && order[..k][i] in found
        && report[i].outcome == Installed && p == InstalledPath(found[order[..k][i]], order[..k][i]);
      assert order[..k][i] == order[i];
    }
  }

  /** One more visit installs at most the overlay of the airport it visits. */
  lemma AddedSnoc(found: map<string, string>, order: seq<string>, report: seq<Visit>, v: Visit, p: string)
    requires |report| < |order| && order[|report|] in found
    ensures Added(found, order, report + [v], p) <==>
      Added(found, order, report, p)
      || (v.outcome == Installed && p == InstalledPath(found[order[|report|]], order[|report|]))
  {
    var longer := report + [v];
    if Added(found, order, longer, p) {
      var i :| 0 <= i < |longer| && i < |order| && order[i] in found
        && longer[i].outcome == Installed && p == InstalledPath(found[order[i]], order[i]);
      if i < |report| {
        assert longer[i] == report[i];
      }
    }
    if Added(found, order, report, p) {
      var i :| 0 <= i < |report| && i < |order| && order[i] in found
        && report[i].outcome == Installed && p == InstalledPath(found[order[i]], order[i]);
      assert longer[i] == report[i];
    }
    if v.outcome == Installed && p == InstalledPath(found[order[|report|]], order[|report|]) {
      assert longer[|report|] == v;
    }
  }

  /** The overlays a report installed all belong to airports other than
      `order[k]`, when that airport was not itself installed. */
  lemma AddedByOthers(found: map<string, string>, order: seq<string>, report: seq<Visit>, fs: set<string>, later: set<string>, k: nat)
    requires Distinct(order) && k < |order|
    requires forall p :: p in later <==> p in fs || Added(found, order, report, p)
    requires k < |report| ==> report[k].outcome != Installed
    ensures fs <= later
    ensures forall p :: p in later && p !in fs ==>
      exists c :: c in found && c != order[k] && p == InstalledPath(found[c], c)
  {
    forall p | p in later && p !in fs
      ensures exists c :: c in found && c != order[k] && p == InstalledPath(found[c], c)
    {
      var i :| 0 <= i < |report| && i < |order| && order[i] in found
        && report[i].outcome == Installed && p == InstalledPath(found[order[i]], order[i]);
      assert i != k;
      assert order[i] != order[k];
    }
  }

  /** The facts `InstallDecidedUpFront` states about a run. */
  ghost predicate DecidedUpFront(env: Env, found: map<string, string>, order: seq<string>, fs: set<string>, r: Run)
    requires AllKeys(found, order)
  {
    && |r.report| <= |order|
    && (forall i :: 0 <= i < |r.report| ==> Decide(env, found, order[i], fs) == Proceed(r.report[i].outcome))
    && (r.fault.Some? && |r.report| < |order| ==> Decide(env, found, order[|r.report|], fs) == Stop(r.fault.value))
    && (forall p :: p in r.fs <==> p in fs || Added(found, order, r.report, p))
  }

  /** The induction step of `InstallDecidedUpFront`. */
  lemma InstallStepUpFront(env: Env, found: map<string, string>, order: seq<string>, fs: set<string>)
    requires AllCodes(found) && AllKeys(found, order) && Distinct(order) && |order| > 0
    requires DecidedUpFront(env, found, order[..|order| - 1], fs, Install(env, found, order[..|order| - 1], fs))
    ensures DecidedUpFront(env, found, order, fs, Install(env, found, order, fs))
  {
    var n := |order|;
    var init := order[..n - 1];
    var prev := Install(env, found, init, fs);
    var r := Install(env, found, order, fs);
    assert forall i :: 0 <= i < n - 1 ==> init[i] == order[i];
    forall p
      ensures Added(found, init, prev.report, p) <==> Added(found, order, prev.report, p)
    {
      AddedPrefix(found, order, n - 1, prev.report, p);
    }
    if prev.fault.None? {
      var code := order[n - 1];
      AddedByOthers(found, order, prev.report, fs, prev.fs, n - 1);
      DecisionStable(env, found, code, fs, prev.fs);
      match Decide(env, found, code, fs)
      case Stop(f) =>
      case Proceed(o) =>
        assert r.report == prev.report + [Visit(code, o)];
        forall p
          ensures Added(found, order, r.report, p) <==>
            Added(found, order, prev.report, p) || (o == Installed && p == InstalledPath(found[code], code))
        {
          AddedSnoc(found, order, prev.report, Visit(code, o), p);
        }
        if o == Installed {
          CopyLandsOnCheckedPath(env.dx10, found[code], code);
        }
    }
  }

  /** Given distinct four-letter codes, what a run does with each airport is
      decided by the filesystem as it was before the run: copying one
      airport's overlay never changes the outcome for another. The report
      holds the decision for every airport visited, the exception that ended
      the run is the decision for the next airport, and the filesystem
      afterwards is the one before plus exactly the overlays installed. */
  lemma {:induction false} InstallDecidedUpFront(env: Env, found: map<string, string>, order: seq<string>, fs: set<string>)
    requires AllCodes(found) && AllKeys(found, order) && Distinct(order)
    ensures DecidedUpFront(env, found, order, fs, Install(env, found, order, fs))
    decreases |order|
  {
    if |order| > 0 {
      InstallDecidedUpFront(env, found, order[..|order| - 1], fs);
      InstallStepUpFront(env, found, order, fs);
    }
  }

  /** A second run on the filesystem a first run left behind copies nothing,
      changes nothing, and ends as the first one did: it completes after a
      complete run and stops with the same exception after an aborted one. */
  lemma InstallIdempotent(env: Env, found: map<string, string>, order: seq<string>, fs: set<string>)
    requires AllCodes(found) && AllKeys(found, order) && Distinct(order)
    ensures var once := Install(env, found, order, fs);
      var twice := Install(env, found, order, once.fs);
      && twice.fault == once.fault
      && twice.fs == once.fs
      && forall i :: 0 <= i < |twice.report| ==> twice.report[i].outcome != Installed
  {
    var once := Install(env, found, order, fs);
    var twice := Install(env, found, order, once.fs);
    var k := |once.report|;
    InstallDecidedUpFront(env, found, order, fs);
    InstallDecidedUpFront(env, found, order, once.fs);
    forall i | 0 <= i < k
      ensures Decide(env, found, order[i], once.fs).Proceed?
      ensures Decide(env, found, order[i], once.fs).outcome != Installed
    {
      var code := order[i];
      var o := once.report[i].outcome;
      assert Decide(env, found, code, fs) == Proceed(o);
      if o == NotAvailable {
        AddedByOthers(found, order, once.report, fs, once.fs, i);
        DecisionStable(env, found, code, fs, once.fs);
      } else {
        if o == Installed {
          assert Added(found, order, once.report, InstalledPath(found[code], code));
        }
        assert InstalledPath(found[code], code) in once.fs;
      }
    }
    if k < |order| {
      AddedByOthers(found, order, once.report, fs, once.fs, k);
      DecisionStable(env, found, order[k], fs, once.fs);
      assert Decide(env, found, order[k], once.fs) == Stop(once.fault.value);
    }
    assert |twice.report| <= k;
    assert |twice.report| == k;
    assert forall i :: 0 <= i < |twice.report| ==> twice.report[i].outcome != Installed by {
      forall i | 0 <= i < |twice.report|
        ensures twice.report[i].outcome != Installed
      {
        assert Decide(env, found, order[i], once.fs) == Proceed(twice.report[i].outcome);
      }
    }
    assert forall p :: !Added(found, order, twice.report, p);
    assert twice.fs == once.fs;
  }

  /** The airport stops a run without the library folder: its folder is not
      ASCII, or its overlay is missing. */
  predicate Unserved(found: map<string, string>, code: string, fs: set<string>)
    requires code in found
  {
    !IsAscii(found[code]) || !HasLightField(found, code, fs)
  }

  /** Without the library folder nothing is ever copied: the run ends at the
      first airport whose folder is not ASCII or that lacks its overlay, and
      airports that have one never reach the folder check. The exception is
      the encoding error for a non-ASCII folder and the missing library
      otherwise. */
  lemma {:induction false} LibraryMissingStopsBeforeAnyCopy(env: Env, found: map<string, string>, order: seq<string>, fs: set<string>)
    requires AllKeys(found, order)
    requires LibraryFolder(env.dx10) !in fs
    ensures var r := Install(env, found, order, fs);
      && r.fs == fs
      && (forall i :: 0 <= i < |r.report| ==> r.report[i].outcome == AlreadyInstalled)
      && (r.fault.Some? <==> exists i :: 0 <= i < |order| && Unserved(found, order[i], fs))
      && (r.fault.Some? ==> Unserved(found, order[|r.report|], fs))
      && (r.fault.Some? ==>
            r.fault.value == if IsAscii(found[order[|r.report|]]) then LibraryMissing(LibraryFolder(env.dx10))
                             else EncodeError(found[order[|r.report|]]))
    decreases |order|
  {
    if |order| > 0 {
      var init := order[..|order| - 1];
      LibraryMissingStopsBeforeAnyCopy(env, found, init, fs);
      assert forall i :: 0 <= i < |init| ==> init[i] == order[i];
      var prev := Install(env, found, init, fs);
      if prev.fault.Some? {
        var i :| 0 <= i < |init| && Unserved(found, init[i], fs);
        assert Unserved(found, order[i], fs);
      }
    }
  }

  // ---------------------------------------------------------------------
  // Scan, then install
  // ---------------------------------------------------------------------

  /** `order[i]` is the first airport of `order` whose folder is not ASCII. */
  predicate FirstNonAscii(found: map<string, string>, order: seq<string>, i: int)
    requires AllKeys(found, order)
  {
    && 0 <= i < |order|
    && !IsAscii(found[order[i]])
    && forall j :: 0 <= j < i ==> IsAscii(found[order[j]])
  }

  /** Every airport folder is ASCII. */
  predicate AllAscii(found: map<string, string>)
  {
    forall k :: k in found ==> IsAscii(found[k])
  }

  /** The listing of the airports found (LFInstall.py lines 206-210): each is
      checked for its overlay, in ascending order of code, only to mark it in
      the log. What outlives the listing is the exception the check raises
      for the first airport whose folder is not ASCII. */
  function ListingFault(found: map<string, string>, order: seq<string>, fs: set<string>): (r: Option<Fault>)
    requires AllKeys(found, order)
    ensures r.None? <==> forall i :: 0 <= i < |order| ==> IsAscii(found[order[i]])
    ensures r.Some? ==> r.value.EncodeError? && !IsAscii(r.value.text)
    ensures r.Some? ==> exists i :: FirstNonAscii(found, order, i) && r.value.text == found[order[i]]
    decreases |order|
  {
    if |order| == 0 then None
    else
      match HasLightFieldAsWritten(found, order[0], fs)
      case Failure(f) => Some(f)
      case Success(_) =>
        var rest := ListingFault(found, order[1..], fs);
        assert forall i :: 0 < i < |order| ==> order[1..][i - 1] == order[i];
        assert rest.Some? ==> exists i :: FirstNonAscii(found, order, i) && rest.value.text == found[order[i]] by {
          if rest.Some? {
            var i :| FirstNonAscii(found, order[1..], i) && rest.value.text == found[order[1..][i]];
            assert FirstNonAscii(found, order, i + 1);
          }
        }
        rest
  }

  /** The program's entry point (LFInstall.py lines 203-212): scan the
      simulator tree, list the airports found, then install the missing
      light fields in ascending order of airport code. An airport file whose
      name is not ASCII aborts the scan, and an airport folder that is not
      ASCII aborts the listing; either way nothing is copied. Otherwise the
      run is the install over the scanned airports. */
  method InstallLightFields(walk: seq<Scanner.WalkEntry>, env: Env, fs: set<string>)
    returns (order: seq<string>, run: Run)
    ensures Scanner.WalkUnencodable(walk) ==>
      && run.report == [] && run.fs == fs && run.fault.Some?
      && run.fault.value.EncodeError? && Scanner.Unencodable(run.fault.value.text)
    ensures !Scanner.WalkUnencodable(walk) ==> Ascending(order)
    ensures !Scanner.WalkUnencodable(walk) ==> forall k :: k in order <==> k in Scanner.ScanWalk(walk).found
    ensures !Scanner.WalkUnencodable(walk) ==> AllKeys(Scanner.ScanWalk(walk).found, order)
    ensures !Scanner.WalkUnencodable(walk) && !AllAscii(Scanner.ScanWalk(walk).found) ==>
      && run.report == [] && run.fs == fs && run.fault.Some? && run.fault.value.EncodeError?
      && exists i :: FirstNonAscii(Scanner.ScanWalk(walk).found, order, i)
           && run.fault.value.text == Scanner.ScanWalk(walk).found[order[i]]
    ensures !Scanner.WalkUnencodable(walk) && AllAscii(Scanner.ScanWalk(walk).found) ==>
      run == Install(env, Scanner.ScanWalk(walk).found, order, fs)
  {
    var scanned := Scanner.ScanAsWritten(walk);
    Scanner.ScanAsWrittenAgrees(walk);
    if scanned.Failure? {
      return [], Run([], fs, Some(scanned.error));
    }
    var found := scanned.value.found;
    var listed := SortKeys(found.Keys);
    var fault := ListingFault(found, listed, fs);
    if fault.Some? {
      var i :| FirstNonAscii(found, listed, i) && fault.value.text == found[listed[i]];
      assert listed[i] in found && !IsAscii(found[listed[i]]);
      order, run := listed, Run([], fs, fault);
      return;
    }
    assert AllAscii(found) by {
      forall k | k in found
        ensures IsAscii(found[k])
      {
        assert k in listed;
        var i :| 0 <= i < |listed| && listed[i] == k;
      }
    }
    order, run := CopyLightFields(env, found, fs);
  }

  /** `p` is the overlay of an airport the report installed, in the folder
      of the last walk entry that writes that airport. */
  ghost predicate InstalledInLastFolder(walk: seq<Scanner.WalkEntry>, order: seq<string>, report: seq<Visit>, p: string)
  {
    exists i, j :: 0 <= i < |report| && i < |order| && report[i].outcome == Installed
      && Scanner.LastWriter(walk, order[i], j) && p == InstalledPath(walk[j].dir, order[i])
  }

  /** End to end: every file the run creates is the overlay of an airport it
      visited, placed in the folder of the last walk entry that holds files
      of that airport. */
  lemma PipelineCopiesIntoLastFolder(walk: seq<Scanner.WalkEntry>, env: Env, order: seq<string>, fs: set<string>)
    requires Ascending(order)
    requires forall k :: k in order <==> k in Scanner.ScanWalk(walk).found
    ensures var found := Scanner.ScanWalk(walk).found;
      var r := Install(env, found, order, fs);
      forall p :: p in r.fs && p !in fs ==> InstalledInLastFolder(walk, order, r.report, p)
  {
    var found := Scanner.ScanWalk(walk).found;
    assert AllKeys(found, order);
    assert AllCodes(found);
    var r := Install(env, found, order, fs);
    AscendingDistinct(order);
    InstallDecidedUpFront(env, found, order, fs);
    forall p | p in r.fs && p !in fs
      ensures InstalledInLastFolder(walk, order, r.report, p)
    {
      var i :| 0 <= i < |r.report| && i < |order| && order[i] in found
        && r.report[i].outcome == Installed && p == InstalledPath(found[order[i]], order[i]);
      Scanner.LastWriteWins(walk, order[i]);
      var j := Scanner.LastWriterIndex(walk, order[i]);
      assert Scanner.LastWriter(walk, order[i], j);
    }
  }
}
