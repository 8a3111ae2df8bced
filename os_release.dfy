/**
 * The os-release OS detector: it reads `etc/os-release` and then
 * `usr/lib/os-release`, line by line, and keeps the last `ID=` value as the
 * OS and the last `VERSION_ID=` value as the version, each lower-cased and
 * with every double quote removed.
 *
 * `Detect` is the detector's loop; `DetectSpec` is what it computes, stated
 * as a fold of `Step` over the lines of the files in scan order.
 */
module OsRelease {
  import opened LineSplit

  datatype Option<T> = None | Some(value: T)

  /** The two files the detector reads, in the order it reads them. */
  const EtcOsRelease: string := "etc/os-release"
  const UsrLibOsRelease: string := "usr/lib/os-release"

  /** The literal prefixes of the two anchored patterns `^ID=(.*)` and `^VERSION_ID=(.*)`. */
  const IdPrefix: string := "ID="
  const VersionIdPrefix: string := "VERSION_ID="

  /** File path to file contents, as handed to the detector. */
  type FileSet = map<string, string>

  /** What the detector returns: the OS name and its version. */
  datatype Detection = Detection(os: string, version: string)
  {
    function Get(k: Key): string {
      match k
      case Id => os
      case VersionId => version
    }
  }

  /** The two keys the detector recognises. */
  datatype Key = Id | VersionId
  {
    function Prefix(): string {
      match this
      case Id => IdPrefix
      case VersionId => VersionIdPrefix
    }
  }

  const Empty: Detection := Detection("", "")

  function GetRequiredFiles(): (paths: seq<string>)
    ensures |paths| == 2 && paths[0] != paths[1]
    ensures paths[0] == EtcOsRelease && paths[1] == UsrLibOsRelease
  {
    [EtcOsRelease, UsrLibOsRelease]
  }

  // ---------------------------------------------------------------------
  // Matching one line against an anchored pattern

  /**
   * The submatch of `^prefix(.*)` on a line: the rest of the line when it
   * starts with `prefix`, nothing otherwise. Lines hold no '\n', so `(.*)`
   * takes the whole remainder.
   */
  function MatchPrefix(line: string, prefix: string): (r: Option<string>)
    ensures r.Some? ==> line == prefix + r.value
    ensures r.None? ==> !(|prefix| <= |line| && line[..|prefix|] == prefix)
  {
    if |prefix| <= |line| && line[..|prefix|] == prefix then Some(line[|prefix|..]) else None
  }

  // ---------------------------------------------------------------------
  // Normalisation of a captured value

  predicate IsAsciiUpper(c: char) {
    'A' <= c <= 'Z'
  }

  function LowerChar(c: char): (d: char)
    ensures !IsAsciiUpper(d)
    ensures IsAsciiUpper(c) ==> 'a' <= d <= 'z' && d as int - 'a' as int == c as int - 'A' as int
    ensures d != '"' <==> c != '"'
    ensures !IsAsciiUpper(c) ==> d == c
  {
    if IsAsciiUpper(c) then (c as int + 32) as char else c
  }

  /** Lower-cases every ASCII letter of `s`, leaving other characters alone. */
  function ToLower(s: string): (r: string)
    ensures |r| == |s|
    ensures forall i :: 0 <= i < |s| ==> r[i] == LowerChar(s[i])
  {
    if s == [] then [] else [LowerChar(s[0])] + ToLower(s[1..])
  }

  /** Removes every double quote from `s`, keeping all other characters in order. */
  function RemoveQuotes(s: string): (r: string)
    ensures '"' !in r
    ensures |r| <= |s|
    ensures forall c :: c != '"' ==> multiset(r)[c] == multiset(s)[c]
  {
    if s == [] then []
    else
      assert s == [s[0]] + s[1..];
      (if s[0] == '"' then [] else [s[0]]) + RemoveQuotes(s[1..])
  }

  /** The value stored for a match: lower-cased, then stripped of every quote. */
  function Normalize(v: string): (r: string)
    ensures '"' !in r
    ensures forall c :: c in r ==> !IsAsciiUpper(c)
  {
    var lower := ToLower(v);
    var r := RemoveQuotes(lower);
    assert forall c :: c in r ==> c in lower by {
      forall c | c in r ensures c in lower {
        assert multiset(r)[c] > 0;
      }
    }
    r
  }

  // ---------------------------------------------------------------------
  // The scan as a specification

  /** The new value of one output variable after one line. */
  function UpdateField(v: string, prefix: string, line: string): (r: string)
    ensures |prefix| <= |line| && line[..|prefix|] == prefix ==> r == Normalize(line[|prefix|..])
    ensures !(|prefix| <= |line| && line[..|prefix|] == prefix) ==> r == v
  {
    match MatchPrefix(line, prefix)
    case Some(rest) => Normalize(rest)
    case None => v
  }

  /** The effect of one line on both outputs. */
  function Step(d: Detection, line: string): (r: Detection)
    ensures forall k: Key :: r.Get(k) == UpdateField(d.Get(k), k.Prefix(), line)
  {
    Detection(UpdateField(d.os, IdPrefix, line), UpdateField(d.version, VersionIdPrefix, line))
  }

  /** Both outputs after scanning `lines` in order from `d`. */
  function Fold(d: Detection, lines: seq<string>): Detection {
    if lines == [] then d else Step(Fold(d, lines[..|lines| - 1]), lines[|lines| - 1])
  }

  /** The lines of `path` if the file is present, none otherwise. */
  function FileLines(data: FileSet, path: string): seq<string> {
    if path in data then Lines(data[path]) else []
  }

  /** The lines of the present files among `paths`, file after file. */
  function ScannedLines(data: FileSet, paths: seq<string>): seq<string> {
    if paths == [] then []
    else ScannedLines(data, paths[..|paths| - 1]) + FileLines(data, paths[|paths| - 1])
  }

  /** The scanned lines are those of `etc/os-release`, then those of `usr/lib/os-release`. */
  lemma RequiredLines(data: FileSet)
    ensures ScannedLines(data, GetRequiredFiles())
         == FileLines(data, EtcOsRelease) + FileLines(data, UsrLibOsRelease)
  {
    var paths := GetRequiredFiles();
    assert paths[..1][..0] == [] && paths[..1][0] == EtcOsRelease;
    assert ScannedLines(data, paths[..1]) == [] + FileLines(data, EtcOsRelease);
    assert paths[..1] == paths[..|paths| - 1];
    assert ScannedLines(data, paths) == ScannedLines(data, paths[..1]) + FileLines(data, UsrLibOsRelease);
    assert [] + FileLines(data, EtcOsRelease) == FileLines(data, EtcOsRelease);
  }

  /** What the detector returns for `data`. */
  function DetectSpec(data: FileSet): (r: Detection)
    ensures r == Fold(Empty, FileLines(data, EtcOsRelease) + FileLines(data, UsrLibOsRelease))
  {
    RequiredLines(data);
    Fold(Empty, ScannedLines(data, GetRequiredFiles()))
  }

  // ---------------------------------------------------------------------
  // The detector

  lemma FoldAppend(d: Detection, xs: seq<string>, ys: seq<string>)
    ensures Fold(d, xs + ys) == Fold(Fold(d, xs), ys)
    decreases |ys|
  {
    if ys != [] {
      var n := |ys| - 1;
      assert (xs + ys)[..|xs + ys| - 1] == xs + ys[..n];
      FoldAppend(d, xs, ys[..n]);
    } else {
      assert xs + ys == xs;
    }
  }

  /**
   * The inner loop of the detector over one file: every `ID=` line
   * overwrites the OS and every `VERSION_ID=` line the version.
   */
  method ScanFile(contents: string, os0: string, version0: string) returns (os: string, version: string)
    ensures Detection(os, version) == Fold(Detection(os0, version0), Lines(contents))
  {
    os, version := os0, version0;
    var scanner := new Scanner(contents);
    while true
      invariant scanner.Valid() && scanner.input == contents
      invariant Detection(os, version) == Fold(Detection(os0, version0), scanner.Emitted)
      decreases |scanner.input| - scanner.pos
    {
      ghost var seen := scanner.Emitted;
      var more := scanner.Scan();
      if !more {
        break;
      }
      var line := scanner.Text();
      assert scanner.Emitted[..|scanner.Emitted| - 1] == seen;

      var r := MatchPrefix(line, IdPrefix);
      if r.Some? {
        os := Normalize(r.value);
      }

      r := MatchPrefix(line, VersionIdPrefix);
      if r.Some? {
        version := Normalize(r.value);
      }
    }
    assert scanner.input[scanner.pos..] == [];
    assert scanner.Emitted + [] == scanner.Emitted;
  }

  /** Reads the required files in the order `GetRequiredFiles` gives, skipping missing ones. */
  method Detect(data: FileSet) returns (os: string, version: string)
    ensures Detection(os, version) == DetectSpec(data)
  {
    os, version := "", "";
    var paths := GetRequiredFiles();
    for k := 0 to |paths|
      invariant Detection(os, version) == Fold(Empty, ScannedLines(data, paths[..k]))
    {
      var path := paths[k];
      assert paths[..k + 1][..k] == paths[..k];
      ghost var scanned := ScannedLines(data, paths[..k]);
      assert ScannedLines(data, paths[..k + 1]) == scanned + FileLines(data, path);
      if path !in data {
        assert scanned + [] == scanned;
        continue;
      }
      os, version := ScanFile(data[path], os, version);
      FoldAppend(Empty, scanned, Lines(data[path]));
    }
    assert paths[..|paths|] == paths;
  }
}
