/** The light-field matcher: `airportHasLightField` (FSX.py lines 41-53),
    `getMatchingLightField` (lines 27-39) and where `shutil.copy` puts the
    overlay it copies (line 22).

    The filesystem is the set of paths that exist, compared as exact
    strings; the DX10 Scenery Fixer folder, read from the registry in the
    original, is a parameter. */
module LightField {
  import opened Text
  import opened Results
  import Scanner

  /** The file name ending of every light-field overlay. */
  const Suffix: string := "_LightField.BGL"

  function OverlayName(code: string): string
  {
    code + Suffix
  }

  /** The path `airportHasLightField` tests (lines 45-46). */
  function InstalledPath(dir: string, code: string): string
  {
    dir + "\\" + OverlayName(code)
  }

  /** The overlay library folder of line 28. */
  function LibraryFolder(dx10: string): string
  {
    dx10 + "\\bgl\\airport fields\\bgl\\"
  }

  /** The library overlay for `code` (line 33). */
  function SourcePath(dx10: string, code: string): string
  {
    LibraryFolder(dx10) + OverlayName(code)
  }

  /** `os.path.basename`: the text after the last separator. */
  function BaseName(p: string): string
    decreases |p|
  {
    if |p| == 0 || IsSeparator(p[|p| - 1]) then "" else BaseName(p[..|p| - 1]) + [p[|p| - 1]]
  }

  /** `shutil.copy(src, dir)` with a directory as destination writes
      `dir\<basename of src>`. Walk directories carry no trailing separator,
      so the join always inserts one. */
  function CopyDestination(src: string, dir: string): string
  {
    dir + "\\" + BaseName(src)
  }

  predicate NoSeparator(s: string)
  {
    forall i :: 0 <= i < |s| ==> !IsSeparator(s[i])
  }

  // ---------------------------------------------------------------------
  // airportHasLightField (lines 41-53)
  // ---------------------------------------------------------------------

  /** `airportHasLightField` as written. The guard of line 42,
      `airport in foundAirports == False`, is a chained comparison meaning
      `(airport in foundAirports) and (foundAirports == False)`; a dict never
      equals False, so the guard never returns and a missing key reaches
      `foundAirports[airport]`, which raises KeyError. The folder is a
      `unicode` path from the walk, and `str()` of it (line 46) raises
      UnicodeEncodeError when it is not ASCII. */
  function HasLightFieldAsWritten(found: map<string, string>, code: string, fs: set<string>): (r: Result<bool, Fault>)
    ensures r.Failure? <==> code !in found || !IsAscii(found[code])
    ensures r.Failure? ==> r.error == if code !in found then KeyMissing(code) else EncodeError(found[code])
    ensures r.Success? ==> (r.value <==> InstalledPath(found[code], code) in fs)
  {
    var guardFires := code in found && false;
    if guardFires then Success(false)
    else if code !in found then Failure(KeyMissing(code))
    else if !IsAscii(found[code]) then Failure(EncodeError(found[code]))
    else Success(InstalledPath(found[code], code) in fs)
  }

  /** `airportHasLightField` as evidently intended: an airport that is not in
      the map has no light field; otherwise the overlay must exist in the
      airport's folder, whatever characters the folder's name holds. */
  function HasLightField(found: map<string, string>, code: string, fs: set<string>): (r: bool)
    ensures r ==> code in found
    ensures code in found ==> (r <==> InstalledPath(found[code], code) in fs)
  {
    code in found && InstalledPath(found[code], code) in fs
  }

  /** Wherever the code as written answers, it answers as the intended check
      does; it fails to answer exactly for a missing key or a non-ASCII folder. */
  lemma HasLightFieldAgrees(found: map<string, string>, code: string, fs: set<string>)
    ensures HasLightFieldAsWritten(found, code, fs).Success? <==> code in found && IsAscii(found[code])
    ensures HasLightFieldAsWritten(found, code, fs).Success? ==>
      HasLightFieldAsWritten(found, code, fs).value == HasLightField(found, code, fs)
  {
  }

  /** The guard of line 42 lets a missing key through: where the intended
      check answers false, the code as written raises KeyError. */
  lemma MissingKeyRaises()
    ensures HasLightFieldAsWritten(map[], "KSEA", {}) == Failure(KeyMissing("KSEA"))
    ensures !HasLightField(map[], "KSEA", {})
  {
  }

  /** An airport installed under a folder with an umlaut: the code as written
      raises at line 46, where the intended check answers false. */
  lemma NonAsciiFolderRaises()
    ensures HasLightFieldAsWritten(map["LSZH" := "C:\\Z\U{fc}rich"], "LSZH", {})
      == Failure(EncodeError("C:\\Z\U{fc}rich"))
    ensures !HasLightField(map["LSZH" := "C:\\Z\U{fc}rich"], "LSZH", {})
  {
    assert "C:\\Z\U{fc}rich"[4] as int == 0xfc;
  }

  // ---------------------------------------------------------------------
  // getMatchingLightField (lines 27-39)
  // ---------------------------------------------------------------------

  /** The library path of the overlay for `code`, `""` if the library lacks
      it, or an abort if the library folder itself is missing. */
  function GetMatchingLightField(dx10: string, code: string, fs: set<string>): (r: Result<string, Fault>)
    ensures r.Failure? <==> LibraryFolder(dx10) !in fs
    ensures r.Failure? ==> r.error == LibraryMissing(LibraryFolder(dx10))
    ensures r.Success? ==> (r.value == "" <==> SourcePath(dx10, code) !in fs)
    ensures r.Success? && r.value != "" ==> r.value in fs && r.value == SourcePath(dx10, code)
  {
    var folder := LibraryFolder(dx10);
    if folder !in fs then Failure(LibraryMissing(folder))
    else
      var src := folder + OverlayName(code);
      assert |src| > 0;
      if src !in fs then Success("") else Success(src)
  }

  // ---------------------------------------------------------------------
  // Where the copy lands
  // ---------------------------------------------------------------------

  lemma {:induction false} BaseNameAfterSeparator(prefix: string, name: string)
    requires |prefix| > 0 && IsSeparator(prefix[|prefix| - 1])
    requires NoSeparator(name)
    ensures BaseName(prefix + name) == name
    decreases |name|
  {
    var p := prefix + name;
    if |name| == 0 {
      assert p == prefix;
    } else {
      var init := name[..|name| - 1];
      BaseNameAfterSeparator(prefix, init);
      assert p[..|p| - 1] == prefix + init;
      assert p[|p| - 1] == name[|name| - 1];
      assert name == init + [name[|name| - 1]];
    }
  }

  lemma CodeHasNoSeparator(code: string)
    requires Scanner.IsCode(code)
    ensures NoSeparator(OverlayName(code))
  {
    assert forall i :: 0 <= i < 4 ==> OverlayName(code)[i] == code[i];
    assert forall i :: 4 <= i < |OverlayName(code)| ==> OverlayName(code)[i] == Suffix[i - 4];
  }

  /** Copying the library overlay of an airport code into the airport's folder
      creates exactly the file `airportHasLightField` looks for, so an airport
      that has been served is found served afterwards. */
  lemma CopyLandsOnCheckedPath(dx10: string, dir: string, code: string)
    requires Scanner.IsCode(code)
    ensures CopyDestination(SourcePath(dx10, code), dir) == InstalledPath(dir, code)
    ensures HasLightField(map[code := dir], code, {CopyDestination(SourcePath(dx10, code), dir)})
  {
    CodeHasNoSeparator(code);
    BaseNameAfterSeparator(LibraryFolder(dx10), OverlayName(code));
  }

  /** Two overlay paths of equally long codes are equal only for equal codes. */
  lemma SameSuffixSameCode(x: string, a: string, y: string, b: string)
    requires |a| == |b|
    requires x + OverlayName(a) == y + OverlayName(b)
    ensures a == b
  {
    var s := x + OverlayName(a);
    assert |x| == |y|;
    assert s[|x|..|x| + |a|] == a;
    assert (y + OverlayName(b))[|y|..|y| + |b|] == b;
  }

  /** Paths that installing overlays for four-letter codes can create never
      coincide with anything the installer looks at for another code: the
      library folder, that code's library overlay, or that code's installed
      overlay. */
  lemma OverlayPathsSeparate(dx10: string, dir: string, code: string, other: string, otherDir: string)
    requires |code| == 4 && |other| == 4 && code != other
    ensures InstalledPath(otherDir, other) != LibraryFolder(dx10)
    ensures InstalledPath(otherDir, other) != SourcePath(dx10, code)
    ensures InstalledPath(otherDir, other) != InstalledPath(dir, code)
  {
    var p := InstalledPath(otherDir, other);
    assert p[|p| - 1] == 'L';
    assert LibraryFolder(dx10)[|LibraryFolder(dx10)| - 1] == '\\';
    if p == SourcePath(dx10, code) {
      SameSuffixSameCode(otherDir + "\\", other, LibraryFolder(dx10), code);
    }
    if p == InstalledPath(dir, code) {
      SameSuffixSameCode(otherDir + "\\", other, dir + "\\", code);
    }
  }
}
