/**
 * The fetch loop of `load_data` and the fetch-if-missing decision of the
 * legacy `data_path`, over an abstract file system.
 *
 * The file system is the set of paths that hold a file together with the log
 * of downloads (the local paths a network transfer wrote, in order). The
 * fetcher returned by `pooch.create` is a function from its base directory and
 * a file part to the local path it reports.
 */
module Fetch {
  import opened Results
  import opened FileNames
  import opened BaseUrl

  /** `runs` as `load_data` receives it: a single run number, or an iterable of them. */
  datatype Runs = One(run: int) | Many(runs: seq<int>)

  /** A single run number is treated as the one-element list `[run]`. */
  function RunList(runs: Runs): seq<int>
  {
    match runs
    case One(run) => [run]
    case Many(rs) => rs
  }

  /** Where the recording of `run` lives below `basePath`. */
  function Destination(basePath: string, subject: int, run: int): string
  {
    Join(basePath, FilePart(subject, run))
  }

  function Destinations(basePath: string, subject: int, runs: seq<int>): (ds: seq<string>)
    ensures |ds| == |runs|
    ensures forall i :: 0 <= i < |runs| ==> ds[i] == Destination(basePath, subject, runs[i])
  {
    seq(|runs|, i requires 0 <= i < |runs| => Destination(basePath, subject, runs[i]))
  }

  /** The local paths the fetcher reports for `runs`, in order. */
  function LocalPaths(fetch: (string, string) -> string, basePath: string, subject: int, runs: seq<int>)
    : (ps: seq<string>)
    ensures |ps| == |runs|
    ensures forall i :: 0 <= i < |runs| ==> ps[i] == fetch(basePath, FilePart(subject, runs[i]))
  {
    seq(|runs|, i requires 0 <= i < |runs| => fetch(basePath, FilePart(subject, runs[i])))
  }

  /**
   * Subject 1 with runs 4, 10 and 14 asks the fetcher for three files, in
   * that order.
   */
  lemma ThreeRunsExample(fetch: (string, string) -> string, basePath: string)
    ensures LocalPaths(fetch, basePath, 1, [4, 10, 14])
            == [fetch(basePath, "S001/S001R04.edf"), fetch(basePath, "S001/S001R10.edf"),
                fetch(basePath, "S001/S001R14.edf")]
  {
    FilePartExample();
    FilePartRunTen();
    FilePartRunFourteen();
  }

  /** The paths that hold a file, and the paths written by downloads so far. */
  datatype Disk = Disk(present: set<string>, downloads: seq<string>)

  /**
   * The fetcher's `fetch`: afterwards `dest` holds a file, and a download into
   * `dest` happened exactly when no file was there.
   */
  function FetchInto(d: Disk, dest: string): (r: Disk)
    ensures r.present == d.present + {dest}
    ensures r.downloads == d.downloads + [dest] <==> dest !in d.present
    ensures r.downloads == d.downloads <==> dest in d.present
  {
    if dest in d.present then d else Disk(d.present + {dest}, d.downloads + [dest])
  }

  /**
   * One turn of the `load_data` loop: with `force_update`, an existing
   * destination is removed first; then the fetcher is asked for it.
   */
  function RunStep(d: Disk, dest: string, force: bool): (r: Disk)
    ensures r.present == d.present + {dest}
    ensures r.downloads == d.downloads + [dest] <==> force || dest !in d.present
    ensures r.downloads == d.downloads <==> !force && dest in d.present
  {
    var cleared := if force && dest in d.present then d.(present := d.present - {dest}) else d;
    FetchInto(cleared, dest)
  }

  /**
   * The disk after the loop has handled `dests`, in order: downloads are only
   * ever appended, at most one per destination.
   */
  function AfterRuns(d: Disk, dests: seq<string>, force: bool): (r: Disk)
    ensures d.downloads <= r.downloads && |r.downloads| <= |d.downloads| + |dests|
  {
    if dests == [] then d
    else RunStep(AfterRuns(d, dests[..|dests| - 1], force), dests[|dests| - 1], force)
  }

  /** The loop state after `i + 1` turns is one more turn on the state after `i`. */
  lemma AfterRunsSnoc(d: Disk, dests: seq<string>, i: nat, force: bool)
    requires i < |dests|
    ensures AfterRuns(d, dests[..i + 1], force) == RunStep(AfterRuns(d, dests[..i], force), dests[i], force)
  {
    assert dests[..i + 1][..i] == dests[..i];
  }

  /** After the loop every destination holds a file, and no other file was added or lost. */
  lemma {:induction false} AfterRunsPresent(d: Disk, dests: seq<string>, force: bool)
    ensures AfterRuns(d, dests, force).present == d.present + set dest | dest in dests
  {
    if dests != [] {
      var init := dests[..|dests| - 1];
      AfterRunsPresent(d, init, force);
      assert dests == init + [dests[|dests| - 1]];
      assert (set dest | dest in dests) == (set dest | dest in init) + {dests[|dests| - 1]};
    }
  }

  /**
   * With `force_update` every requested file is removed if present and then
   * downloaded again: one download per run, in the order of the runs,
   * duplicates included.
   */
  lemma {:induction false} AfterRunsForced(d: Disk, dests: seq<string>)
    ensures AfterRuns(d, dests, true).downloads == d.downloads + dests
  {
    if dests != [] {
      var init := dests[..|dests| - 1];
      AfterRunsForced(d, init);
      assert dests == init + [dests[|dests| - 1]];
    }
  }

  /**
   * Without `force_update` no file is removed, earlier downloads stay as they
   * were, and every new download is a requested file that was missing before.
   */
  lemma {:induction false} AfterRunsNotForced(d: Disk, dests: seq<string>)
    ensures var r := AfterRuns(d, dests, false);
            && d.present <= r.present
            && |d.downloads| <= |r.downloads|
            && r.downloads[..|d.downloads|] == d.downloads
            && forall k :: |d.downloads| <= k < |r.downloads| ==>
                 r.downloads[k] in dests && r.downloads[k] !in d.present
  {
    if dests != [] {
      var init := dests[..|dests| - 1];
      AfterRunsNotForced(d, init);
      var before := AfterRuns(d, init, false);
      var last := dests[|dests| - 1];
      var r := AfterRuns(d, dests, false);
      assert r == FetchInto(before, last);
      if last !in before.present {
        assert last !in d.present;
        assert r.downloads == before.downloads + [last];
      }
    }
  }

  /**
   * Without `force_update` every requested file that was missing is
   * downloaded, and no file is downloaded twice: the new downloads are
   * pairwise distinct, and each one holds a file afterwards.
   */
  lemma {:induction false} AfterRunsNotForcedExact(d: Disk, dests: seq<string>)
    ensures var r := AfterRuns(d, dests, false);
            && (forall dest :: dest in dests && dest !in d.present ==> dest in r.downloads[|d.downloads|..])
            && (forall k, l :: |d.downloads| <= k < l < |r.downloads| ==> r.downloads[k] != r.downloads[l])
            && (forall k :: |d.downloads| <= k < |r.downloads| ==> r.downloads[k] in r.present)
  {
    if dests != [] {
      var init := dests[..|dests| - 1];
      var last := dests[|dests| - 1];
      assert dests == init + [last];
      AfterRunsNotForcedExact(d, init);
      AfterRunsPresent(d, init, false);
      var before := AfterRuns(d, init, false);
      var r := AfterRuns(d, dests, false);
      var n := |d.downloads|;
      assert r == FetchInto(before, last);
      if last in before.present {
        assert r == before;
        forall dest | dest in dests && dest !in d.present
          ensures dest in r.downloads[n..]
        {
          if dest == last {
            assert dest in init;
          }
        }
      } else {
        assert r.downloads == before.downloads + [last];
        assert r.downloads[n..] == before.downloads[n..] + [last];
        forall k, l | n <= k < l < |r.downloads|
          ensures r.downloads[k] != r.downloads[l]
        {
          if l == |r.downloads| - 1 {
            assert r.downloads[k] == before.downloads[k];
            assert before.downloads[k] in before.present;
          }
        }
      }
    }
  }

  /** Without `force_update`, requesting files that are all present changes nothing. */
  lemma {:induction false} AfterRunsAllPresent(d: Disk, dests: seq<string>)
    requires forall dest :: dest in dests ==> dest in d.present
    ensures AfterRuns(d, dests, false) == d
  {
    if dests != [] {
      AfterRunsAllPresent(d, dests[..|dests| - 1]);
    }
  }

  /**
   * Asking again for the same runs without `force_update` downloads nothing
   * and leaves the disk as the first call left it.
   */
  lemma SecondLoadIsNoOp(d: Disk, dests: seq<string>, force: bool)
    ensures var once := AfterRuns(d, dests, force);
            AfterRuns(once, dests, false) == once
  {
    AfterRunsPresent(d, dests, force);
    AfterRunsAllPresent(AfterRuns(d, dests, force), dests);
  }

  /**
   * The decision of `data_path`: when the destination is missing or
   * `force_update` is set, remove what is there and download; otherwise do
   * nothing.
   */
  function LegacyStep(d: Disk, dest: string, force: bool): Disk
  {
    if dest !in d.present || force then
      var cleared := if dest in d.present then d.present - {dest} else d.present;
      Disk(cleared + {dest}, d.downloads + [dest])
    else d
  }

  /**
   * `data_path` downloads exactly when the destination is missing or
   * `force_update` is set, and afterwards the destination holds a file.
   */
  lemma LegacyStepDownloads(d: Disk, dest: string, force: bool)
    ensures var r := LegacyStep(d, dest, force);
            && r.present == d.present + {dest}
            && (r.downloads == d.downloads + [dest] <==> dest !in d.present || force)
            && (r.downloads == d.downloads <==> dest in d.present && !force)
  {
    var r := LegacyStep(d, dest, force);
    if dest !in d.present || force {
      assert r.downloads != d.downloads by {
        assert |r.downloads| == |d.downloads| + 1;
      }
    }
  }

  /** The legacy decision has the same effect as one turn of the `load_data` loop. */
  lemma LegacyStepIsRunStep(d: Disk, dest: string, force: bool)
    ensures LegacyStep(d, dest, force) == RunStep(d, dest, force)
  {
  }

  /**
   * Prefix facts stated for any element type, so that the loop below does not
   * unfold the file parts and paths its sequences hold.
   */
  lemma PrefixSnoc<T>(s: seq<T>, i: nat)
    requires i < |s|
    ensures s[..i + 1] == s[..i] + [s[i]]
  {
  }

  lemma PrefixAll<T>(s: seq<T>)
    ensures s[..|s|] == s
  {
  }

  /**
   * The loop of `load_data` over `runs`, with the fetcher created on
   * `basePath`: for each run, remove an existing destination when `force` is
   * set, ask the fetcher for the file, and append the path it reports.
   */
  method FetchRuns(disk: Disk, subject: int, runs: seq<int>, basePath: string, force: bool,
                   fetch: (string, string) -> string)
    returns (paths: seq<string>, disk': Disk)
    ensures paths == LocalPaths(fetch, basePath, subject, runs)
    ensures disk' == AfterRuns(disk, Destinations(basePath, subject, runs), force)
  {
    ghost var dests := Destinations(basePath, subject, runs);
    ghost var wanted := LocalPaths(fetch, basePath, subject, runs);
    paths, disk' := [], disk;
    for i := 0 to |runs|
      invariant paths == wanted[..i]
      invariant disk' == AfterRuns(disk, dests[..i], force)
    {
      var filePart := FilePart(subject, runs[i]);
      var destination := Join(basePath, filePart);
      ghost var before := disk';
      if force && destination in disk'.present {
        disk' := disk'.(present := disk'.present - {destination});
      }
      var local := fetch(basePath, filePart);
      disk' := FetchInto(disk', destination);
      assert local == wanted[i];
      PrefixSnoc(wanted, i);
      paths := paths + [local];
      AfterRunsSnoc(disk, dests, i, force);
      assert destination == dests[i];
      assert disk' == RunStep(before, dests[i], force);
    }
    PrefixAll(dests);
    PrefixAll(wanted);
  }

  /**
   * `load_data(subject, runs, path, force_update, base_url)` once `path` has
   * been resolved. A `base_url` that does not match the pattern gives
   * `ValueError` before the disk is touched; otherwise one local path per run,
   * in the order of the runs, and the disk the loop leaves.
   */
  method LoadData(disk: Disk, subject: int, runs: Runs, path: string, force: bool, baseUrl: string,
                  fetch: (string, string) -> string)
    returns (r: Result<seq<string>>, disk': Disk)
    ensures MatchUrl(baseUrl).Err? ==> r == Err(MatchUrl(baseUrl).error) && disk' == disk
    ensures MatchUrl(baseUrl).Ok? ==>
              var base := BasePath(path, MatchUrl(baseUrl).value);
              && r == Ok(LocalPaths(fetch, base, subject, RunList(runs)))
              && disk' == AfterRuns(disk, Destinations(base, subject, RunList(runs)), force)
  {
    var rs := RunList(runs);
    var m := MatchUrl(baseUrl);
    if m.Err? {
      return Err(m.error), disk;
    }
    var base := BasePath(path, m.value);
    var paths;
    paths, disk' := FetchRuns(disk, subject, rs, base, force, fetch);
    r := Ok(paths);
  }

  /**
   * The legacy `data_path(url, path, force_update)` once `path` has been
   * resolved; `urlToLocal` is the helper that maps the URL to a file below the
   * data folder. Always a list of length one.
   */
  method DataPath(disk: Disk, url: string, path: string, force: bool,
                  urlToLocal: (string, string) -> string)
    returns (paths: seq<string>, disk': Disk)
    ensures paths == [urlToLocal(url, Join(path, DataFolder))]
    ensures disk' == LegacyStep(disk, paths[0], force)
  {
    var destination := urlToLocal(url, Join(path, DataFolder));
    disk' := disk;
    if destination !in disk'.present || force {
      if destination in disk'.present {
        disk' := disk'.(present := disk'.present - {destination});
      }
      disk' := Disk(disk'.present + {destination}, disk'.downloads + [destination]);
    }
    paths := [destination];
  }
}
