# os-release OS detector, modelled in Dafny

This project models the os-release detector of Clair's worker
(`worker/detectors/os/os_release.go`). The detector is handed a map from file
path to file contents. It reads `etc/os-release` and then
`usr/lib/os-release`, skipping a file that is absent. It splits each file into
lines the way Go's `bufio.Scanner` does with its default split function. A line
that starts with `ID=` sets the OS, and a line that starts with `VERSION_ID=`
sets the version. Each value is the rest of the line, lower-cased, with every
double quote removed. Later lines overwrite earlier ones, so
`usr/lib/os-release` overrides `etc/os-release`. Nothing found gives empty
strings. No error is ever raised.

The precedence is the code's own: a key set in `usr/lib/os-release` overrides
the same key in `etc/os-release`, and a key set only in `etc/os-release` is
kept. The os-release(5) manual page describes the opposite rule: the file in
`/etc` is used alone when it exists. The model follows the code
(`OsReleaseProperties.UsrLibOverrides`, `OsReleaseProperties.EtcSurvives`).

Files:

- `line_split.dfy`, module `LineSplit`: the default line splitter.
  - `ScanLines` is one step of the split: how far the next token reaches, and the token.
  - `Lines` is the whole split, as a function.
  - `JoinLines` writes lines back out, each followed by a newline. It undoes `Lines` only on lines that hold no `\n` and do not end in `\r` (`LinesOfJoin`). The other way round, `JoinOfLines` holds only for input in which no line ends in `\r`.
  - `Scanner` is the stateful object that the detector drives with `Scan` and `Text`.
- `os_release.dfy`, module `OsRelease`: the detector itself.
  - `GetRequiredFiles`, the two patterns as `MatchPrefix`, and the normalisation `Normalize`.
  - The specification `DetectSpec`, a fold of `Step` over the scanned lines.
  - The imperative `Detect`. Its outer `for` loop runs over the required files. Its inner loop, `ScanFile`, runs over the scanner's lines.
  - Both loops are proved equal to the specification.
- `os_release_properties.dfy`, module `OsReleaseProperties`: what the detector
  promises, proved of `DetectSpec`:
  - the last match wins;
  - the second file takes precedence over the first;
  - the two outputs are independent;
  - only the two required entries matter;
  - outputs are normalised, and normalisation is idempotent;
  - the patterns are anchored and need `=` right after the key.

## Model

| member | source | states |
|---|---|---|
| `OsRelease.GetRequiredFiles` | worker/detectors/os/os_release.go:68-70 | exactly two distinct paths, `etc/os-release` first and `usr/lib/os-release` second (the scan order) |
| `OsRelease.Detect` | worker/detectors/os/os_release.go:41-65 | the detector loop over the required files (absent ones skipped) returns exactly `DetectSpec(data)`: the fold of the per-line update over the lines of the present files in scan order |
| `OsRelease.ScanFile` | worker/detectors/os/os_release.go:48-61 | the scanner loop over one file leaves OS and version equal to the fold of the per-line update, starting from their values before the file, over `Lines(contents)` |
| `OsRelease.MatchPrefix` | worker/detectors/os/os_release.go:26-27 | the anchored pattern `^prefix(.*)`: a capture `v` means the line is exactly `prefix + v`; no capture means the line does not start with `prefix` |
| `OsRelease.ToLower` | worker/detectors/os/os_release.go:54 | keeps the length and maps every character through ASCII lower-casing |
| `OsRelease.LowerChar` | worker/detectors/os/os_release.go:54 | maps an upper-case ASCII letter to the lower-case letter at the same place in the alphabet, never yields an upper-case ASCII letter, is a quote exactly when the input is, and leaves non-upper-case characters alone |
| `OsRelease.RemoveQuotes` | worker/detectors/os/os_release.go:54 | the result has no `"`, is no longer than the input, and keeps the count of every other character |
| `OsRelease.Normalize` | worker/detectors/os/os_release.go:54 | a stored value never has a `"` or an upper-case ASCII letter |
| `OsRelease.UpdateField` | worker/detectors/os/os_release.go:52-59 | a line that starts with the key's prefix replaces the value with the normalised rest of the line; any other line keeps the value |
| `OsRelease.Step` | worker/detectors/os/os_release.go:52-60 | one line updates each output through its own key's prefix, independently of the other output |
| `OsRelease.RequiredLines` | worker/detectors/os/os_release.go:42-46 | the scanned lines are those of `etc/os-release` (if present) followed by those of `usr/lib/os-release` (if present) |
| `OsRelease.DetectSpec` | worker/detectors/os/os_release.go:41-64 | the result is the per-line update folded from `("", "")` over the lines of `etc/os-release` followed by those of `usr/lib/os-release`, an absent file giving no lines |
| `OsRelease.FoldAppend` | worker/detectors/os/os_release.go:42-62 | scanning two line sequences one after the other is scanning their concatenation, so files continue from each other's state |
| `LineSplit.LineEnd` | worker/detectors/os/os_release.go:48-49 | the index of the first `\n`, or the length when there is none |
| `LineSplit.DropCR` | worker/detectors/os/os_release.go:48-49 | removes exactly one trailing `\r` when there is one, and otherwise changes nothing |
| `LineSplit.ScanLines` | worker/detectors/os/os_release.go:48-49 | one split step cuts just after the first `\n`, or at the end when there is none; its token is the text before the cut with one trailing `\r` dropped, so it holds no `\n` |
| `LineSplit.Lines` | worker/detectors/os/os_release.go:48-50 | no line contains `\n`; there are at most as many lines as characters; non-empty input gives at least one line |
| `LineSplit.SplitAtNewline` | worker/detectors/os/os_release.go:48-50 | the input is split at each `\n`, and the line before it loses one trailing `\r` |
| `LineSplit.FinalLineWithoutNewline` | worker/detectors/os/os_release.go:48-50 | a final line that has no newline is still yielded |
| `LineSplit.NoEmptyLineAfterFinalNewline` | worker/detectors/os/os_release.go:48-50 | a final newline does not yield an empty extra line |
| `LineSplit.LinesOfJoin` | worker/detectors/os/os_release.go:48-50 | round trip: splitting the join of lines without `\n` or a trailing `\r` gives the same lines |
| `LineSplit.JoinOfLines` | worker/detectors/os/os_release.go:48-50 | round trip: for input where no `\n` and not the end is preceded by `\r`, joining its lines gives the input back, plus a newline when its last line had none |
| `LineSplit.Scanner.constructor` | worker/detectors/os/os_release.go:48 | a fresh scanner over the contents has consumed nothing and emitted no line |
| `LineSplit.Scanner.Scan` | worker/detectors/os/os_release.go:49-50 | succeeds exactly while input remains; a success appends the next line of `Lines(input)` and advances; a failure leaves an empty token; the lines emitted plus the split of the rest are always `Lines(input)` |
| `LineSplit.Scanner.Text` | worker/detectors/os/os_release.go:50 | returns the current token, which never holds `\n` while the scanner invariant holds; by `Scan`'s contract that is the line a successful `Scan` just appended, and empty after a failed one |
| `OsReleaseProperties.FoldIndependent` | worker/detectors/os/os_release.go:52-60 | OS and version are computed independently: each is a scan of its own previous value over its own pattern |
| `OsReleaseProperties.FieldScanAppend` | worker/detectors/os/os_release.go:42-62 | the scan of one output over concatenated lines is the scan of the second part started from the first part's result |
| `OsReleaseProperties.LastMatchWins` | worker/detectors/os/os_release.go:49-61 | the output is the normalised capture of the last matching line, whatever came before |
| `OsReleaseProperties.NoMatchKeeps` | worker/detectors/os/os_release.go:49-61 | lines that do not match a pattern leave that output unchanged |
| `OsReleaseProperties.KeyLineSets` | worker/detectors/os/os_release.go:52-60 | a line `ID=v` sets the OS to `v` lower-cased and without quotes and leaves the version alone; a `VERSION_ID=v` line does the same for the version |
| `OsReleaseProperties.NonMatchingLineIgnored` | worker/detectors/os/os_release.go:52-60 | a line that matches neither pattern changes neither output |
| `OsReleaseProperties.DetectField` | worker/detectors/os/os_release.go:41-64 | each detector output is the scan of its own pattern, from `""`, over both files' lines in order |
| `OsReleaseProperties.NoFilesGivesEmpty` | worker/detectors/os/os_release.go:43-46 | with neither required file present the result is `("", "")` |
| `OsReleaseProperties.NoMatchGivesEmpty` | worker/detectors/os/os_release.go:64 | an output that no line of either file matches stays `""` |
| `OsReleaseProperties.UsrLibOverrides` | worker/detectors/os/os_release.go:69 | a key that `usr/lib/os-release` sets takes its last value there, whatever `etc/os-release` says |
| `OsReleaseProperties.EtcSurvives` | worker/detectors/os/os_release.go:42 | a key that only `etc/os-release` sets keeps its last value there, when `usr/lib/os-release` is absent or silent about it |
| `OsReleaseProperties.OnlyRequiredFilesMatter` | worker/detectors/os/os_release.go:42-43 | two file maps that agree on the two required paths give the same result; other entries are ignored |
| `OsReleaseProperties.RemoveQuotesKeepsUnquoted` | worker/detectors/os/os_release.go:54 | a string without quotes is left unchanged by quote removal |
| `OsReleaseProperties.RemoveQuotesAppend` | worker/detectors/os/os_release.go:54 | quote removal works piece by piece, so the other characters keep their order |
| `OsReleaseProperties.ToLowerAppend` | worker/detectors/os/os_release.go:54 | lower-casing works piece by piece: the result for a concatenation is the concatenation of the results |
| `OsReleaseProperties.ToLowerKeepsLower` | worker/detectors/os/os_release.go:54 | a string without upper-case ASCII letters is left unchanged by lower-casing |
| `OsReleaseProperties.NormalizeKeepsNormal` | worker/detectors/os/os_release.go:54 | a string without quotes or upper-case ASCII letters is its own normal form |
| `OsReleaseProperties.NormalizeIdempotent` | worker/detectors/os/os_release.go:54 | normalising twice is normalising once |
| `OsReleaseProperties.NormalizeUnquoted` | worker/detectors/os/os_release.go:54 | a value without quotes is only lower-cased |
| `OsReleaseProperties.NormalizeQuoted` | worker/detectors/os/os_release.go:54 | a value between double quotes is stored lower-cased and without the quotes |
| `OsReleaseProperties.FieldScanNormal` | worker/detectors/os/os_release.go:52-60 | scanning from a normalised value always leaves a normalised value |
| `OsReleaseProperties.DetectNormal` | worker/detectors/os/os_release.go:54-64 | both detector outputs are free of `"` and of upper-case ASCII letters |
| `OsReleaseProperties.MatchPrefixIff` | worker/detectors/os/os_release.go:26-27 | a line yields capture `v` for `prefix` exactly when the line is `prefix + v` (both directions) |
| `OsReleaseProperties.AtMostOneKey` | worker/detectors/os/os_release.go:52-60 | no line matches both `ID=` and `VERSION_ID=` |
| `OsReleaseProperties.IdLikeIgnored` | worker/detectors/os/os_release.go:26 | an `ID_LIKE=` line changes neither output |
| `OsReleaseProperties.VersionIgnored` | worker/detectors/os/os_release.go:27 | a `VERSION=` line changes neither output |
| `OsReleaseProperties.Anchored` | worker/detectors/os/os_release.go:26-27 | a line that starts with any other character than the key's first does not match |
| `OsReleaseProperties.OneFileBothKeys` | worker/detectors/os/os_release.go:41-64 | an `etc/os-release` of `ID=<os>` and `VERSION_ID="<version>"` gives `(lower(os), lower(version))`, with the quotes gone |
| `OsReleaseProperties.TwoLines` | worker/detectors/os/os_release.go:48-50 | two newline-terminated lines split into exactly those two lines |

## Left out

- Registration of the detector under the name `os-release` in the shared detector registry (`init`, lines 34-36). This writes into a package that is not part of this model.
- `OsRelease.ToLower`: lower-cases ASCII letters only. Go's `strings.ToLower` also maps non-ASCII upper-case letters and replaces invalid UTF-8. Those letters are left as they are in the model.
- File contents are a `string` with one character per byte. Go's conversion of `[]byte` to `string` copies the bytes as they are, and the scanner and the pattern match return slices of them unchanged, so this is exact. UTF-8 matters only inside `strings.ToLower` (see the `OsRelease.ToLower` line).
- `LineSplit.Scanner.Scan`: has no 64 KiB token limit. Go's scanner stops silently, and the detector then drops the rest of that file, when a line is longer than the buffer. The model assumes every line fits.
- The Go regular-expression engine is not modelled. The two patterns are modelled as a literal anchored prefix followed by a capture of the remainder. That is what `^KEY=(.*)` matches on a line, because a line never holds `\n`.
- The scanner's reads into its buffer in chunks are not modelled. The split is stated as if the whole input were at hand, and the split function gives the same tokens either way.
