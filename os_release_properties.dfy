/**
 * What the os-release detector promises, proved of `OsRelease.DetectSpec`
 * (and so, through `OsRelease.Detect`'s postcondition, of the detector):
 * last match wins, `usr/lib/os-release` overrides `etc/os-release`, the two
 * outputs are computed independently, only the two required files matter,
 * and every output is normalised.
 */
module OsReleaseProperties {
  import opened LineSplit
  import opened OsRelease

  // ---------------------------------------------------------------------
  // One output at a time

  /** One output variable after scanning `lines` from `v`, looking only at `prefix`. */
  function FieldScan(v: string, prefix: string, lines: seq<string>): string {
    if lines == [] then v
    else UpdateField(FieldScan(v, prefix, lines[..|lines| - 1]), prefix, lines[|lines| - 1])
  }

  /** Line `i` is the last line of `lines` that starts with `prefix`. */
  predicate LastMatchAt(lines: seq<string>, prefix: string, i: int) {
    && 0 <= i < |lines|
    && MatchPrefix(lines[i], prefix).Some?
    && forall j :: i < j < |lines| ==> MatchPrefix(lines[j], prefix).None?
  }

  /** No line of `lines` starts with `prefix`. */
  predicate NoMatch(lines: seq<string>, prefix: string) {
    forall j :: 0 <= j < |lines| ==> MatchPrefix(lines[j], prefix).None?
  }

  /** The OS depends only on `ID=` lines and the version only on `VERSION_ID=` lines. */
  lemma {:induction false} FoldIndependent(d: Detection, lines: seq<string>, k: Key)
    ensures Fold(d, lines).Get(k) == FieldScan(d.Get(k), k.Prefix(), lines)
    decreases |lines|
  {
    if lines != [] {
      FoldIndependent(d, lines[..|lines| - 1], k);
    }
  }

  lemma {:induction false} FieldScanAppend(v: string, prefix: string, xs: seq<string>, ys: seq<string>)
    ensures FieldScan(v, prefix, xs + ys) == FieldScan(FieldScan(v, prefix, xs), prefix, ys)
    decreases |ys|
  {
    if ys == [] {
      assert xs + ys == xs;
    } else {
      var n := |ys| - 1;
      assert (xs + ys)[..|xs + ys| - 1] == xs + ys[..n];
      assert (xs + ys)[|xs + ys| - 1] == ys[n];
      FieldScanAppend(v, prefix, xs, ys[..n]);
    }
  }

  /** The value of the last matching line wins, whatever came before. */
  lemma {:induction false} LastMatchWins(v: string, prefix: string, lines: seq<string>, i: int)
    requires LastMatchAt(lines, prefix, i)
    ensures FieldScan(v, prefix, lines) == Normalize(MatchPrefix(lines[i], prefix).value)
    decreases |lines|
  {
    var n := |lines| - 1;
    if i < n {
      assert LastMatchAt(lines[..n], prefix, i);
      LastMatchWins(v, prefix, lines[..n], i);
    }
  }

  /** Lines that do not match leave the output as it was. */
  lemma {:induction false} NoMatchKeeps(v: string, prefix: string, lines: seq<string>)
    requires NoMatch(lines, prefix)
    ensures FieldScan(v, prefix, lines) == v
    decreases |lines|
  {
    if lines != [] {
      var n := |lines| - 1;
      assert NoMatch(lines[..n], prefix);
      NoMatchKeeps(v, prefix, lines[..n]);
    }
  }

  /**
   * A line `KEY=v` for one of the two keys sets that output to `v`
   * normalised and leaves the other output as it was.
   */
  lemma KeyLineSets(d: Detection, k: Key, v: string)
    ensures Step(d, k.Prefix() + v).Get(k) == Normalize(v)
    ensures Step(d, k.Prefix() + v).Get(Other(k)) == d.Get(Other(k))
  {
    var line := k.Prefix() + v;
    MatchPrefixIff(line, k.Prefix(), v);
    AtMostOneKey(line);
  }

  function Other(k: Key): Key {
    match k
    case Id => VersionId
    case VersionId => Id
  }

  /** A line that matches neither pattern changes neither output. */
  lemma NonMatchingLineIgnored(d: Detection, line: string)
    requires MatchPrefix(line, IdPrefix).None? && MatchPrefix(line, VersionIdPrefix).None?
    ensures Step(d, line) == d
  {
  }

  // ---------------------------------------------------------------------
  // The two files

  /** Each output of the detector is its own scan over both files in order. */
  lemma DetectField(data: FileSet, k: Key)
    ensures DetectSpec(data).Get(k)
         == FieldScan("", k.Prefix(), FileLines(data, EtcOsRelease) + FileLines(data, UsrLibOsRelease))
  {
    RequiredLines(data);
    FoldIndependent(Empty, ScannedLines(data, GetRequiredFiles()), k);
  }

  /** With neither file present the detector finds nothing. */
  lemma NoFilesGivesEmpty(data: FileSet)
    requires EtcOsRelease !in data && UsrLibOsRelease !in data
    ensures DetectSpec(data) == Detection("", "")
  {
    RequiredLines(data);
    assert FileLines(data, EtcOsRelease) + FileLines(data, UsrLibOsRelease) == [];
  }

  /** An output no line of either file sets stays empty. */
  lemma NoMatchGivesEmpty(data: FileSet, k: Key)
    requires NoMatch(FileLines(data, EtcOsRelease), k.Prefix())
    requires NoMatch(FileLines(data, UsrLibOsRelease), k.Prefix())
    ensures DetectSpec(data).Get(k) == ""
  {
    var etc, usr := FileLines(data, EtcOsRelease), FileLines(data, UsrLibOsRelease);
    DetectField(data, k);
    FieldScanAppend("", k.Prefix(), etc, usr);
    NoMatchKeeps("", k.Prefix(), etc);
    NoMatchKeeps("", k.Prefix(), usr);
  }

  /** A key that `usr/lib/os-release` sets takes its last value there. */
  lemma UsrLibOverrides(data: FileSet, k: Key, i: int)
    requires UsrLibOsRelease in data
    requires LastMatchAt(Lines(data[UsrLibOsRelease]), k.Prefix(), i)
    ensures DetectSpec(data).Get(k)
         == Normalize(MatchPrefix(Lines(data[UsrLibOsRelease])[i], k.Prefix()).value)
  {
    var etc, usr := FileLines(data, EtcOsRelease), FileLines(data, UsrLibOsRelease);
    DetectField(data, k);
    FieldScanAppend("", k.Prefix(), etc, usr);
    LastMatchWins(FieldScan("", k.Prefix(), etc), k.Prefix(), usr, i);
  }

  /**
   * A key that only `etc/os-release` sets keeps its last value there, whether
   * `usr/lib/os-release` is missing or silent about that key.
   */
  lemma EtcSurvives(data: FileSet, k: Key, i: int)
    requires EtcOsRelease in data
    requires LastMatchAt(Lines(data[EtcOsRelease]), k.Prefix(), i)
    requires NoMatch(FileLines(data, UsrLibOsRelease), k.Prefix())
    ensures DetectSpec(data).Get(k)
         == Normalize(MatchPrefix(Lines(data[EtcOsRelease])[i], k.Prefix()).value)
  {
    var etc, usr := FileLines(data, EtcOsRelease), FileLines(data, UsrLibOsRelease);
    DetectField(data, k);
    FieldScanAppend("", k.Prefix(), etc, usr);
    NoMatchKeeps(FieldScan("", k.Prefix(), etc), k.Prefix(), usr);
    LastMatchWins("", k.Prefix(), etc, i);
  }

  /** Entries other than the two required files have no effect. */
  lemma OnlyRequiredFilesMatter(data: FileSet, other: FileSet)
    requires forall p :: p in GetRequiredFiles() ==> (p in data <==> p in other)
    requires forall p :: p in GetRequiredFiles() && p in data ==> data[p] == other[p]
    ensures DetectSpec(data) == DetectSpec(other)
  {
    var paths := GetRequiredFiles();
    assert paths[0] in paths && paths[1] in paths;
    assert FileLines(data, EtcOsRelease) == FileLines(other, EtcOsRelease);
    assert FileLines(data, UsrLibOsRelease) == FileLines(other, UsrLibOsRelease);
    RequiredLines(data);
    RequiredLines(other);
  }

  // ---------------------------------------------------------------------
  // Normalisation

  /** Free of double quotes and of upper-case ASCII letters. */
  predicate IsNormal(s: string) {
    '"' !in s && forall c :: c in s ==> !IsAsciiUpper(c)
  }

  lemma {:induction false} RemoveQuotesKeepsUnquoted(s: string)
    requires '"' !in s
    ensures RemoveQuotes(s) == s
  {
    if s != [] {
      assert s[0] != '"' by { assert s[0] in s; }
      RemoveQuotesKeepsUnquoted(s[1..]);
    }
  }

  /** Quote removal works piece by piece, so the order of the rest is kept. */
  lemma {:induction false} RemoveQuotesAppend(a: string, b: string)
    ensures RemoveQuotes(a + b) == RemoveQuotes(a) + RemoveQuotes(b)
  {
    if a == [] {
      assert a + b == b;
    } else {
      assert (a + b)[0] == a[0];
      assert (a + b)[1..] == a[1..] + b;
      RemoveQuotesAppend(a[1..], b);
    }
  }

  lemma ToLowerKeepsLower(s: string)
    requires forall c :: c in s ==> !IsAsciiUpper(c)
    ensures ToLower(s) == s
  {
  }

  /** Lower-casing works piece by piece. */
  lemma ToLowerAppend(a: string, b: string)
    ensures ToLower(a + b) == ToLower(a) + ToLower(b)
  {
  }

  /** A normalised value is left as it is by normalisation. */
  lemma NormalizeKeepsNormal(s: string)
    requires IsNormal(s)
    ensures Normalize(s) == s
  {
    ToLowerKeepsLower(s);
    RemoveQuotesKeepsUnquoted(s);
  }

  /** Normalising twice is normalising once. */
  lemma NormalizeIdempotent(v: string)
    ensures Normalize(Normalize(v)) == Normalize(v)
  {
    NormalizeKeepsNormal(Normalize(v));
  }

  /** Without quotes in the value, normalisation is plain lower-casing. */
  lemma NormalizeUnquoted(v: string)
    requires '"' !in v
    ensures Normalize(v) == ToLower(v)
  {
  }

  /** A value written between double quotes is stored without them. */
  lemma NormalizeQuoted(v: string)
    requires '"' !in v
    ensures Normalize("\"" + v + "\"") == ToLower(v)
  {
    var q: string := "\"";
    ToLowerAppend(q + v, q);
    ToLowerAppend(q, v);
    assert ToLower(q) == q;
    NormalizeUnquoted(v);
    RemoveQuotesAppend(q + ToLower(v), q);
    RemoveQuotesAppend(q, ToLower(v));
    assert RemoveQuotes(q) == [];
  }

  lemma {:induction false} FieldScanNormal(v: string, prefix: string, lines: seq<string>)
    requires IsNormal(v)
    ensures IsNormal(FieldScan(v, prefix, lines))
    decreases |lines|
  {
    if lines != [] {
      FieldScanNormal(v, prefix, lines[..|lines| - 1]);
    }
  }

  /** Both outputs of the detector are normalised. */
  lemma DetectNormal(data: FileSet)
    ensures IsNormal(DetectSpec(data).os) && IsNormal(DetectSpec(data).version)
  {
    var lines := FileLines(data, EtcOsRelease) + FileLines(data, UsrLibOsRelease);
    DetectField(data, Id);
    DetectField(data, VersionId);
    FieldScanNormal("", IdPrefix, lines);
    FieldScanNormal("", VersionIdPrefix, lines);
  }

  // ---------------------------------------------------------------------
  // The patterns are anchored and end in '='

  /** A line matches `prefix` exactly when it is `prefix` followed by the captured value. */
  lemma MatchPrefixIff(line: string, prefix: string, v: string)
    ensures MatchPrefix(line, prefix) == Some(v) <==> line == prefix + v
  {
  }

  /** No line sets both outputs. */
  lemma AtMostOneKey(line: string)
    ensures MatchPrefix(line, IdPrefix).None? || MatchPrefix(line, VersionIdPrefix).None?
  {
    if MatchPrefix(line, IdPrefix).Some? {
      assert line[0] == IdPrefix[0];
    }
  }

  /** `ID_LIKE=` is not `ID=`: such a line changes nothing. */
  lemma IdLikeIgnored(d: Detection, rest: string)
    ensures Step(d, "ID_LIKE=" + rest) == d
  {
    var line := "ID_LIKE=" + rest;
    assert line[2] == '_';
    assert line[0] == 'I';
  }

  /** `VERSION=` is not `VERSION_ID=`: such a line changes nothing. */
  lemma VersionIgnored(d: Detection, rest: string)
    ensures Step(d, "VERSION=" + rest) == d
  {
    var line := "VERSION=" + rest;
    assert line[7] == '=';
    assert line[0] == 'V';
  }

  /** The patterns are anchored: a line that starts with anything else does not match. */
  lemma Anchored(k: Key, c: char, rest: string)
    requires c != k.Prefix()[0]
    ensures MatchPrefix([c] + rest, k.Prefix()).None?
  {
  }

  // ---------------------------------------------------------------------
  // Worked examples

  /**
   * A single `etc/os-release` holding `ID=<os>` and `VERSION_ID="<version>"`
   * gives the OS lower-cased and the version lower-cased without its quotes.
   */
  lemma OneFileBothKeys(os: string, version: string)
    requires '\n' !in os && '\r' !in os && '"' !in os
    requires '\n' !in version && '\r' !in version && '"' !in version
    ensures DetectSpec(map[EtcOsRelease := IdPrefix + os + "\n" + (VersionIdPrefix + ("\"" + version + "\"") + "\n")])
         == Detection(ToLower(os), ToLower(version))
  {
    var id, ver := IdPrefix + os, VersionIdPrefix + ("\"" + version + "\"");
    var data := map[EtcOsRelease := id + "\n" + (ver + "\n")];
    assert '\n' !in id && !EndsWithCR(id) by {
      assert forall c :: c in id ==> c in IdPrefix || c in os;
    }
    assert '\n' !in ver && !EndsWithCR(ver) by {
      assert forall c :: c in ver ==> c in VersionIdPrefix || c == '"' || c in version;
    }
    TwoLines(id, ver);
    MatchPrefixIff(id, IdPrefix, os);
    MatchPrefixIff(ver, VersionIdPrefix, "\"" + version + "\"");
    AtMostOneKey(id);
    AtMostOneKey(ver);
    assert LastMatchAt(Lines(data[EtcOsRelease]), IdPrefix, 0);
    assert LastMatchAt(Lines(data[EtcOsRelease]), VersionIdPrefix, 1);
    EtcSurvives(data, Id, 0);
    EtcSurvives(data, VersionId, 1);
    NormalizeQuoted(version);
    NormalizeUnquoted(os);
  }

  /** A file of two lines, each ended by a newline. */
  lemma TwoLines(a: string, b: string)
    requires '\n' !in a && '\n' !in b && !EndsWithCR(a) && !EndsWithCR(b)
    ensures Lines(a + "\n" + (b + "\n")) == [a, b]
  {
    SplitAtNewline(a, b + "\n");
    NoEmptyLineAfterFinalNewline(b);
  }
}
