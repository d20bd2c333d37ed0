# EEG motor imagery dataset helpers, modelled in Dafny

This project models the deterministic core of `mne/datasets/eegbci/eegbci.py`,
the MNE-Python module that fetches the EEG Motor Movement/Imagery dataset
(EEGMI) from PhysioNet and normalises its channel names:

- `standardize`: the per-channel name transform (strip dots, upper-case, a
  final `Z` becomes `z`, a leading `FP` becomes `Fp`) and the loop that builds
  the rename dictionary (`channel_names.dfy`, module `ChannelNames`);
- from `load_data`:
  - the zero-padded file part `S{subject:03d}/S{subject:03d}R{run:02d}.edf`
    and POSIX `os.path.join` (`file_names.dfy`, module `FileNames`);
  - the `base_url` check, written out by hand as the `re.match` of
    `(?:https?://.*)(files)/(eegmmidb)/(\d+\.\d+\.\d+)/?`, and the derived
    `base_path` (`base_url.dfy`, module `BaseUrl`);
  - the normalisation of `runs`, and the ordered fetch loop with its
    `force_update` deletion (`fetch.dfy`, module `Fetch`);
- from the legacy `data_path`: the fetch-if-missing decision (`fetch.dfy`).

`results.dfy` holds the `Option` and `Result` datatypes and the `ValueError`
that `load_data` raises.

The file system is a value, `Fetch.Disk`. It holds the set of paths that
contain a file and the log of downloads, which are the paths written by
network transfers, in order. The fetcher that `pooch.create` returns is a
function parameter. It maps the base directory and a file part to the local
path it reports. In the model it downloads exactly when the destination is
missing (`Fetch.FetchInto`). The legacy `_fetch_file` always downloads when
it is called. The methods that loop or change the disk
(`ChannelNames.Standardize`, `Fetch.FetchRuns`, `Fetch.LoadData`,
`Fetch.DataPath`) are proved against the specification functions
`ChannelNames.StdName`, `Fetch.LocalPaths`, `Fetch.AfterRuns` and
`Fetch.LegacyStep`. Lemmas then state the properties of those functions.

Details of `load_data` the model follows:

- The URL pattern fixes the dataset name to `eegmmidb`, and its trailing `/`
  is optional.
- The pattern is anchored at the start only, and its `.*` is greedy and does
  not cross a line break. So the version is taken from the last
  `files/eegmmidb/` before the first line break that is followed by a
  version.
- The base path is `op.join(path, 'MNE-eegbci-data')` followed by
  `/files/eegmmidb/<version>`, for every data path, so the `files` group is
  one of its directory levels.

## Model

| member | source | states |
|---|---|---|
| ChannelNames.Upper | mne/datasets/eegbci/eegbci.py:209 | upper-casing keeps the length and maps each character to its ASCII upper-case form |
| ChannelNames.DotsFrom | mne/datasets/eegbci/eegbci.py:208 | the leading scan of `strip('.')` stops at the first character that is not a dot, having passed only dots |
| ChannelNames.DotsBefore | mne/datasets/eegbci/eegbci.py:208 | the trailing scan of `strip('.')` stops after the last character that is not a dot, having passed only dots |
| ChannelNames.Strip | mne/datasets/eegbci/eegbci.py:208 | the stripped name is no longer than the name and neither starts nor ends with a dot |
| ChannelNames.StripIsMiddle | mne/datasets/eegbci/eegbci.py:208 | the stripped name is a contiguous middle part of the name with only dots before and after it; it is empty exactly when the name is all dots |
| ChannelNames.StripPadded | mne/datasets/eegbci/eegbci.py:208 | any number of dots on either side of a name that neither starts nor ends with a dot are all removed |
| ChannelNames.LowerFinalZ | mne/datasets/eegbci/eegbci.py:210-211 | a final `Z` becomes `z`; every other character and the length are kept |
| ChannelNames.MixFp | mne/datasets/eegbci/eegbci.py:212-213 | a leading `FP` becomes `Fp`; every other character and the length are kept |
| ChannelNames.StdName | mne/datasets/eegbci/eegbci.py:208-213 | the new name has the length of the dot-stripped name, never starts or ends with a dot, and has at each position the character the three rules give |
| ChannelNames.StdNameRules | mne/datasets/eegbci/eegbci.py:208-213 | if the stripped, upper-cased name ends in `Z` the result ends in `z`; if it starts with `FP` the result starts with `Fp`; every other character is the upper-case input character |
| ChannelNames.StdNameIdempotent | mne/datasets/eegbci/eegbci.py:208-213 | standardising a standardised name returns it unchanged |
| ChannelNames.StdNameExamples | mne/datasets/eegbci/eegbci.py:208-213 | `Fp1.` becomes `Fp1`, `cz` becomes `Cz`, `t7` becomes `T7`, `fpz` becomes `Fpz`, `..Oz..` becomes `Oz` |
| ChannelNames.StdNameNotInjective | mne/datasets/eegbci/eegbci.py:206-215 | two different names (`cz.` and `cz`) can get the same new name; the dictionary does not deduplicate |
| ChannelNames.Standardize | mne/datasets/eegbci/eegbci.py:206-214 | the rename dictionary has every channel name as a key and no other key, and maps each name to its standard form |
| FileNames.FormatInt | mne/datasets/eegbci/eegbci.py:188 | `{n:0wd}` for any integer; characterised by `FormatIntRoundTrip` (parsing gives `n` back) and `FormatIntChars` (only digits and `-`) |
| FileNames.Join | mne/datasets/eegbci/eegbci.py:189 | `op.join(a, b)` always ends with `b`; an absolute `b` discards `a`; otherwise the result starts with `a` and is at most one character longer than `a` and `b` together |
| FileNames.JoinSeparator | mne/datasets/eegbci/eegbci.py:189 | for a relative `b`: an empty `a` gives `b`; a non-empty `a` is followed by a single `/`, which is added only when `a` does not already end with one |
| FileNames.JoinExamples | mne/datasets/eegbci/eegbci.py:189 | `("x/y", "y")` gives `x/y/y`, `("a", "b")` gives `a/b`, `("a", "/b")` gives `/b` |
| FileNames.FilePart | mne/datasets/eegbci/eegbci.py:188 | `S{subject:03d}/S{subject:03d}R{run:02d}.edf`; characterised by `FilePartShape`, `FilePartLength` and `FilePartInjective` |
| FileNames.Decimal | mne/datasets/eegbci/eegbci.py:188 | the decimal numeral of a natural number is non-empty, all digits, denotes the number, and has no leading zero |
| FileNames.ZeroPad | mne/datasets/eegbci/eegbci.py:188 | zero padding gives the longer of the width and the numeral, all digits, and keeps the value |
| FileNames.FormatIntRoundTrip | mne/datasets/eegbci/eegbci.py:188 | parsing the `{n:0wd}` text of any integer, negative ones included, gives the integer back |
| FileNames.FilePartExample | mne/datasets/eegbci/eegbci.py:188 | subject 1, run 4 gives `S001/S001R04.edf` |
| FileNames.FilePartShape | mne/datasets/eegbci/eegbci.py:188 | the file part holds the subject numeral after the first `S`, then `/`, and the run numeral after the `R` |
| FileNames.FilePartLength | mne/datasets/eegbci/eegbci.py:188 | every subject in 0-999 and run in 0-99, which includes subjects 1-109 and runs 1-14, gives a 16-character file part |
| FileNames.FilePartInjective | mne/datasets/eegbci/eegbci.py:188 | different (subject, run) pairs, over all integers, give different file parts |
| BaseUrl.SchemeEnd | mne/datasets/eegbci/eegbci.py:167 | `https?://`: the scheme ends at 8 when the URL starts with `https://`, at 7 when it starts with `http://`, and there is no match otherwise; `DefaultUrlScheme` and `MatchUrlRefuses` use it |
| BaseUrl.LineEnd | mne/datasets/eegbci/eegbci.py:167 | `.*` can reach up to the first line break and no further |
| BaseUrl.DigitRun | mne/datasets/eegbci/eegbci.py:167 | `\d+` takes the maximal run of digits |
| BaseUrl.VersionEnd | mne/datasets/eegbci/eegbci.py:167 | the match of `\d+\.\d+\.\d+` is at least five characters long; `VersionShape` proves it sound and `VersionComplete` proves it complete |
| BaseUrl.VersionShape | mne/datasets/eegbci/eegbci.py:167 | soundness of `\d+\.\d+\.\d+`: what is found is three non-empty digit runs separated by single dots |
| BaseUrl.VersionComplete | mne/datasets/eegbci/eegbci.py:167 | completeness of `\d+\.\d+\.\d+`: every text of that shape is found, and the match ends where the maximal third digit run ends |
| BaseUrl.VersionPlain | mne/datasets/eegbci/eegbci.py:167 | a found version holds no `/`, so it is one directory level |
| BaseUrl.LastWhere | mne/datasets/eegbci/eegbci.py:167-168 | backtracking finds the last position that passes, and none passes above it; when none is found, none in the range passes |
| BaseUrl.TailStart | mne/datasets/eegbci/eegbci.py:167-168 | the backtracking of the greedy `.*`: a position it returns is followed by the marker and a version; `TailStartGreedy` and `TailStartNone` characterise it |
| BaseUrl.TailStartGreedy | mne/datasets/eegbci/eegbci.py:167-168 | the position where the pattern's tail is taken matches, and no later position matches |
| BaseUrl.TailStartNone | mne/datasets/eegbci/eegbci.py:167-169 | when no tail position is found, the pattern matches nowhere |
| BaseUrl.MatchUrl | mne/datasets/eegbci/eegbci.py:167-171 | a refusal is the `ValueError` with the source's message; an accepted URL gives the groups `files` and `eegmmidb`; `MatchUrlRefuses` and `MatchUrlGroups` characterise when and with which version |
| BaseUrl.MatchUrlRefuses | mne/datasets/eegbci/eegbci.py:167-171 | the URL is refused with the `ValueError` message exactly when the pattern matches at no position |
| BaseUrl.MatchUrlGroups | mne/datasets/eegbci/eegbci.py:167-172 | on a match the groups are `files`, `eegmmidb` and the version after the greedy match position |
| BaseUrl.MatchIgnoresSuffix | mne/datasets/eegbci/eegbci.py:167-168 | the match is anchored at the start only: a matching URL still matches whatever is appended |
| BaseUrl.DefaultUrlScheme | mne/datasets/eegbci/eegbci.py:17 | the default URL starts with `https://` |
| BaseUrl.DefaultUrlOneLine | mne/datasets/eegbci/eegbci.py:17 | the default URL has 43 characters and no line break |
| BaseUrl.DefaultUrlMatches | mne/datasets/eegbci/eegbci.py:167-171 | the default `EEGMI_URL` matches with groups `files`, `eegmmidb`, `1.0.0` |
| BaseUrl.BasePath | mne/datasets/eegbci/eegbci.py:172 | the base path always ends with the version group |
| BaseUrl.BasePathLevels | mne/datasets/eegbci/eegbci.py:172 | for every data path, each group without a `/` becomes one directory level below `op.join(path, 'MNE-eegbci-data')` |
| BaseUrl.MatchUrlPlain | mne/datasets/eegbci/eegbci.py:167-172 | the version of every accepted URL is one plain directory level |
| BaseUrl.MatchUrlBasePath | mne/datasets/eegbci/eegbci.py:167-172 | for every accepted URL and every data path, the base path is `op.join(path, 'MNE-eegbci-data')` followed by `/files/eegmmidb/<version>` |
| BaseUrl.DefaultBasePath | mne/datasets/eegbci/eegbci.py:172 | for every data path, the default groups give `op.join(path, 'MNE-eegbci-data')` followed by `/files/eegmmidb/1.0.0` |
| Fetch.RunList | mne/datasets/eegbci/eegbci.py:158-159 | a single run becomes the list `[run]`, a sequence of runs is used as it is; `LoadData` states the effect |
| Fetch.FetchInto | mne/datasets/eegbci/eegbci.py:192 | afterwards the destination holds a file, and a download happened exactly when it was missing |
| Fetch.RunStep | mne/datasets/eegbci/eegbci.py:189-192 | one turn of the loop: afterwards the destination holds a file; it is downloaded exactly when `force_update` is set or it was missing, and nothing happens otherwise |
| Fetch.AfterRuns | mne/datasets/eegbci/eegbci.py:186-195 | the loop's disk: downloads are only appended, at most one per run; `AfterRunsPresent`, `AfterRunsForced`, `AfterRunsNotForced` and `AfterRunsNotForcedExact` say which |
| Fetch.Destination | mne/datasets/eegbci/eegbci.py:189 | `op.join(base_path, file_part)`; `Join` and `JoinSeparator` give its shape |
| Fetch.LocalPaths | mne/datasets/eegbci/eegbci.py:186-195 | one path per run, in the order of the runs, duplicates included, each the fetcher's answer for that run's file part |
| Fetch.ThreeRunsExample | mne/datasets/eegbci/eegbci.py:186-195 | subject 1 with runs 4, 10, 14 gives the fetcher's paths for `S001/S001R04.edf`, `S001/S001R10.edf`, `S001/S001R14.edf`, in that order |
| Fetch.AfterRunsPresent | mne/datasets/eegbci/eegbci.py:186-195 | after the loop every destination holds a file, and no other file was added or lost |
| Fetch.AfterRunsForced | mne/datasets/eegbci/eegbci.py:189-192 | with `force_update` every destination is removed if present and downloaded again: one download per run, in order |
| Fetch.AfterRunsNotForced | mne/datasets/eegbci/eegbci.py:189-192 | without `force_update` no file is removed, earlier downloads stay, and each new download is a requested file that was missing |
| Fetch.AfterRunsNotForcedExact | mne/datasets/eegbci/eegbci.py:189-192 | without `force_update` every requested file that was missing is downloaded, no file is downloaded twice, and each new download holds a file afterwards |
| Fetch.SecondLoadIsNoOp | mne/datasets/eegbci/eegbci.py:186-195 | a second request for the same runs without `force_update` downloads nothing and leaves the disk unchanged |
| Fetch.FetchRuns | mne/datasets/eegbci/eegbci.py:186-195 | the loop returns the fetcher's path for each run in order and leaves the disk in the state `AfterRuns` describes |
| Fetch.LoadData | mne/datasets/eegbci/eegbci.py:158-195 | a single run is treated as `[run]`; a URL that does not match gives the `ValueError` with the disk untouched; otherwise the paths and disk of the loop on the derived base path |
| Fetch.LegacyStep | mne/datasets/eegbci/eegbci.py:84-89 | the fetch-if-missing decision of `data_path`; characterised by `LegacyStepDownloads` and `LegacyStepIsRunStep` |
| Fetch.LegacyStepDownloads | mne/datasets/eegbci/eegbci.py:84-89 | `data_path` downloads exactly when the destination is missing or `force_update` is set, and afterwards the destination holds a file |
| Fetch.LegacyStepIsRunStep | mne/datasets/eegbci/eegbci.py:84-89 | the legacy decision has the same effect as one turn of the `load_data` loop |
| Fetch.DataPath | mne/datasets/eegbci/eegbci.py:79-93 | `data_path` returns a list of length one holding the local path of the URL, with the disk after the legacy decision |

## Left out

- `pooch.create`, the fetcher's retries and checksum verification, and the registry read through `pkg_resources` (lines 174-184, 192): network transfer and integrity checks happen in a library that is not part of this model. The fetcher is a function parameter and downloads exactly when the file is missing.
- Fetch.FetchInto: the fetcher also downloads a new copy when the local file's hash does not match the registry. This is not modelled, because file contents are not modelled.
- `_get_path`, `_do_path_update` and `_url_to_local_path` (lines 79-80, 92, 165, 194): they read and write the configuration and may prompt the user. The resolved `path` is an input, `_url_to_local_path` is a function parameter of `Fetch.DataPath`, and the path update is not modelled.
- `os.makedirs` (lines 87-88) and real file-system calls: the disk is the value `Fetch.Disk`, a set of present paths plus a download log. Directories, permissions and file contents are not modelled.
- Fetch.FetchRuns and Fetch.LoadData take and return the disk as a value, not as shared mutable state. Failures of the fetcher in the middle of the loop, which would leave earlier files on disk, are not modelled.
- `raw.rename_channels` (line 215) and its error on duplicate target names: it is a foreign in-place update of the Raw object. `ChannelNames.Standardize` takes the channel names and returns the dictionary.
- ChannelNames.Upper: upper-cases ASCII letters only. Python's `str.upper` also maps other letters and can change the length of a string.
- FileNames.Join: models POSIX `posixpath.join` only. On Windows `op.join` is `ntpath.join`, which uses `\` as the separator and handles drive letters.
- BaseUrl.DigitRun: `\d` is taken as the ASCII digits `0`-`9`. Python's `\d` on `str` also matches other Unicode decimal digits.
- Fetch.RunList: `runs` is either one `int` or a sequence of `int`. Other iterables, such as strings, are not modelled.
- The `deprecated` and `verbose` decorators and the docstrings.
