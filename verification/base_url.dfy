/**
 * The check `load_data` applies to its `base_url` and the local directory it
 * derives from it.
 *
 * The check is `re.match` of the pattern
 * `(?:https?://.*)(files)/(eegmmidb)/(\d+\.\d+\.\d+)/?`: anchored at the start
 * of the URL only, with a greedy `.*` that cannot cross a line break. It is
 * written out here by hand.
 */
module BaseUrl {
  import opened Results
  import opened FileNames

  /** The default `base_url`. */
  const EegmiUrl: string := "https://physionet.org/files/eegmmidb/1.0.0/"

  /** The folder under the data path that holds the dataset. */
  const DataFolder: string := "MNE-eegbci-data"

  /** The literal text between the free prefix and the version. */
  const Marker: string := "files/eegmmidb/"

  const UrlMismatch: string :=
    "base_url does not match the expected EEGMI folder structure. Please notify MNE-Python developers."

  /** The three groups of a successful match. */
  datatype Groups = Groups(files: string, dataset: string, version: string)

  /** Where `https?://` ends, if the URL starts with it. */
  function SchemeEnd(url: string): Option<nat>
  {
    if "https://" <= url then Some(8)
    else if "http://" <= url then Some(7)
    else None
  }

  /** The first line break at or after `i`, or the end of `s`: where `.*` must stop. */
  function LineEnd(s: string, i: nat): (e: nat)
    requires i <= |s|
    ensures i <= e <= |s|
    ensures forall k :: i <= k < e ==> s[k] != '\n'
    ensures e == |s| || s[e] == '\n'
    decreases |s| - i
  {
    if i == |s| || s[i] == '\n' then i else LineEnd(s, i + 1)
  }

  /** The length of the longest run of decimal digits starting at `i`. */
  function DigitRun(s: string, i: nat): (n: nat)
    requires i <= |s|
    ensures i + n <= |s|
    ensures forall k :: i <= k < i + n ==> IsDigit(s[k])
    ensures i + n == |s| || !IsDigit(s[i + n])
    decreases |s| - i
  {
    if i < |s| && IsDigit(s[i]) then 1 + DigitRun(s, i + 1) else 0
  }

  /** Where a match of `\d+\.` that starts at `i` ends, if there is one. */
  function DottedRun(s: string, i: nat): (e: Option<nat>)
    requires i <= |s|
    ensures e.Some? ==> i + 2 <= e.value <= |s| && s[e.value - 1] == '.'
    ensures e.Some? ==> forall k :: i <= k < e.value - 1 ==> IsDigit(s[k])
  {
    var a := DigitRun(s, i);
    if a == 0 || i + a == |s| || s[i + a] != '.' then None else Some(i + a + 1)
  }

  /**
   * Where the match of `\d+\.\d+\.\d+` that starts at `i` ends, if there is
   * one. Backtracking can never shorten the first two digit runs (a `.` must
   * follow them), and the third is greedy, so the match is made of maximal runs.
   */
  function VersionEnd(s: string, i: nat): (e: Option<nat>)
    requires i <= |s|
    ensures e.Some? ==> i + 5 <= e.value <= |s|
  {
    match DottedRun(s, i)
    case None => None
    case Some(j) =>
      match DottedRun(s, j)
      case None => None
      case Some(k) =>
        var c := DigitRun(s, k);
        if c == 0 then None else Some(k + c)
  }

  /**
   * A version found by `VersionEnd` is three non-empty digit runs separated by
   * single dots.
   */
  lemma VersionShape(s: string, i: nat)
    requires i <= |s| && VersionEnd(s, i).Some?
    ensures var v := s[i..VersionEnd(s, i).value];
            exists a: nat, b: nat ::
              && 0 < a && a + 1 < b && b + 1 < |v| && v[a] == '.' && v[b] == '.'
              && (forall k :: 0 <= k < |v| && k != a && k != b ==> IsDigit(v[k]))
  {
    var j := DottedRun(s, i).value;
    var k := DottedRun(s, j).value;
    var v := s[i..VersionEnd(s, i).value];
    var a, b := j - 1 - i, k - 1 - i;
    assert v[a] == '.' && v[b] == '.';
    forall n | 0 <= n < |v| && n != a && n != b
      ensures IsDigit(v[n])
    {
      assert v[n] == s[i + n];
    }
  }

  /** A run of `n` digits at `i` is part of the maximal run there. */
  lemma {:induction false} DigitRunAtLeast(s: string, i: nat, n: nat)
    requires i + n <= |s|
    requires forall k :: i <= k < i + n ==> IsDigit(s[k])
    ensures DigitRun(s, i) >= n
    decreases n
  {
    if n > 0 {
      DigitRunAtLeast(s, i + 1, n - 1);
    }
  }

  /**
   * Every text at `i` of the shape `\d+\.\d+\.\d+` is found by `VersionEnd`:
   * with `a`, `b` and `c` digits in the three runs, the match ends where the
   * maximal third digit run ends, which is at least `c` digits long.
   */
  lemma VersionComplete(s: string, i: nat, a: nat, b: nat, c: nat)
    requires 0 < a && 0 < b && 0 < c && i + a + 1 + b + 1 + c <= |s|
    requires forall k :: i <= k < i + a ==> IsDigit(s[k])
    requires s[i + a] == '.'
    requires forall k :: i + a + 1 <= k < i + a + 1 + b ==> IsDigit(s[k])
    requires s[i + a + 1 + b] == '.'
    requires forall k :: i + a + 1 + b + 1 <= k < i + a + 1 + b + 1 + c ==> IsDigit(s[k])
    ensures var k := i + a + 1 + b + 1;
            DigitRun(s, k) >= c && VersionEnd(s, i) == Some(k + DigitRun(s, k))
  {
    var j, k := i + a + 1, i + a + 1 + b + 1;
    DigitRunAtLeast(s, i, a);
    assert DigitRun(s, i) == a;
    assert DottedRun(s, i) == Some(j);
    DigitRunAtLeast(s, j, b);
    assert DigitRun(s, j) == b;
    assert DottedRun(s, j) == Some(k);
    DigitRunAtLeast(s, k, c);
  }

  /** A version found by `VersionEnd` holds only digits and dots, so it is one plain path level. */
  lemma VersionPlain(s: string, i: nat)
    requires i <= |s| && VersionEnd(s, i).Some?
    ensures PlainSegment(s[i..VersionEnd(s, i).value])
  {
    var j := DottedRun(s, i).value;
    var k := DottedRun(s, j).value;
    var e := VersionEnd(s, i).value;
    assert e == k + DigitRun(s, k);
    var v := s[i..e];
    forall n | 0 <= n < |v|
      ensures v[n] != '/'
    {
      assert v[n] == s[i + n];
    }
  }

  /** The part of the pattern after `.*` matches at `p`. */
  predicate TailAt(s: string, p: nat)
    requires p <= |s|
  {
    |s| - p >= |Marker| && s[p..p + |Marker|] == Marker && VersionEnd(s, p + |Marker|).Some?
  }

  /**
   * The last position in `lo..p` that passes `ok`, trying `p` first and then
   * each position below it: how the greedy `.*` backtracks.
   */
  function LastWhere(ok: nat -> bool, lo: nat, p: nat): (q: Option<nat>)
    requires lo <= p
    ensures q.Some? ==> lo <= q.value <= p && ok(q.value)
    ensures q.Some? ==> forall k :: q.value < k <= p ==> !ok(k)
    ensures q.None? ==> forall k :: lo <= k <= p ==> !ok(k)
    decreases p - lo
  {
    if ok(p) then Some(p) else if p == lo then None else LastWhere(ok, lo, p - 1)
  }

  /** `TailAt` as a test on every position. */
  function TailTest(s: string): nat -> bool
  {
    (k: nat) => k <= |s| && TailAt(s, k)
  }

  /** The whole pattern matches at the start of `url`, with the tail at `p`. */
  predicate MatchesWithTailAt(url: string, p: nat)
  {
    && SchemeEnd(url).Some?
    && SchemeEnd(url).value <= p <= LineEnd(url, SchemeEnd(url).value)
    && TailAt(url, p)
  }

  /** `p` is where the tail matches once the greedy `.*` has backtracked as little as possible. */
  ghost predicate GreedyTailAt(url: string, p: nat)
  {
    MatchesWithTailAt(url, p) && forall k: nat :: p < k ==> !MatchesWithTailAt(url, k)
  }

  /** Where the greedy `.*` of the pattern stops, if the URL matches at all. */
  function TailStart(url: string): (q: Option<nat>)
    ensures q.Some? ==> q.value + |Marker| <= |url| && VersionEnd(url, q.value + |Marker|).Some?
  {
    var scheme := SchemeEnd(url);
    if scheme.None? then None
    else LastWhere(TailTest(url), scheme.value, LineEnd(url, scheme.value))
  }

  /** Wherever the pattern matches, `TailStart` finds some match position. */
  lemma TailStartFindsMatch(url: string, p: nat)
    requires MatchesWithTailAt(url, p)
    ensures TailStart(url).Some?
  {
    var lo := SchemeEnd(url).value;
    var hi := LineEnd(url, lo);
    assert TailTest(url)(p);
    var last := LastWhere(TailTest(url), lo, hi);
    assert TailStart(url) == last;
  }

  /** When there is no match position, the pattern matches nowhere. */
  lemma TailStartNone(url: string)
    requires TailStart(url).None?
    ensures forall p: nat :: !MatchesWithTailAt(url, p)
  {
    forall p: nat
      ensures !MatchesWithTailAt(url, p)
    {
      if MatchesWithTailAt(url, p) {
        TailStartFindsMatch(url, p);
        assert false;
      }
    }
  }

  /** The position `TailStart` finds is the greedy one. */
  lemma TailStartGreedy(url: string)
    requires TailStart(url).Some?
    ensures GreedyTailAt(url, TailStart(url).value)
  {
    var lo := SchemeEnd(url).value;
    var hi := LineEnd(url, lo);
    var last := LastWhere(TailTest(url), lo, hi);
    assert TailStart(url) == last;
    var q := last.value;
    assert TailTest(url)(q);
    assert MatchesWithTailAt(url, q);
    forall k: nat | q < k
      ensures !MatchesWithTailAt(url, k)
    {
      if k <= hi {
        assert !TailTest(url)(k);
      }
    }
  }

  /** The greedy match position is unique. */
  lemma GreedyTailUnique(url: string, p: nat, q: nat)
    requires GreedyTailAt(url, p) && GreedyTailAt(url, q)
    ensures p == q
  {
  }

  /**
   * `re.match(pattern, url)`: `Err(ValueError)` when the URL does not match,
   * otherwise the groups `files`, `eegmmidb` and the version that follows the
   * last admissible occurrence of `files/eegmmidb/`.
   */
  function MatchUrl(url: string): (r: Result<Groups>)
    ensures r.Err? ==> r.error == ValueError(UrlMismatch)
    ensures r.Ok? ==> r.value.files == "files" && r.value.dataset == "eegmmidb"
  {
    var q := TailStart(url);
    if q.None? then Err(ValueError(UrlMismatch))
    else
      var v := q.value + |Marker|;
      Ok(Groups("files", "eegmmidb", url[v..VersionEnd(url, v).value]))
  }

  /** The URL is refused, with the `ValueError` of `load_data`, exactly when the pattern matches nowhere. */
  lemma MatchUrlRefuses(url: string)
    ensures MatchUrl(url).Err? <==> forall p: nat :: !MatchesWithTailAt(url, p)
    ensures MatchUrl(url).Err? ==> MatchUrl(url) == Err(ValueError(UrlMismatch))
  {
    if TailStart(url).None? {
      TailStartNone(url);
    } else {
      TailStartGreedy(url);
    }
  }

  /**
   * When the URL matches, the groups are `files`, `eegmmidb` and the version
   * found after the greedy match position.
   */
  lemma MatchUrlGroups(url: string, p: nat)
    requires GreedyTailAt(url, p)
    ensures var v := p + |Marker|;
            MatchUrl(url) == Ok(Groups("files", "eegmmidb", url[v..VersionEnd(url, v).value]))
  {
    TailStartFindsMatch(url, p);
    var q := TailStart(url).value;
    TailStartGreedy(url);
    GreedyTailUnique(url, p, q);
    var v := q + |Marker|;
    assert MatchUrl(url) == Ok(Groups("files", "eegmmidb", url[v..VersionEnd(url, v).value]));
  }

  /** `op.join(path, 'MNE-eegbci-data', *groups)`: it always ends with the version. */
  function BasePath(path: string, g: Groups): (p: string)
    ensures |g.version| <= |p| && p[|p| - |g.version|..] == g.version
  {
    Join(Join(Join(Join(path, DataFolder), g.files), g.dataset), g.version)
  }

  /** The default URL starts with `https://`. */
  lemma DefaultUrlScheme()
    ensures SchemeEnd(EegmiUrl) == Some(8)
  {
    assert "https://" <= EegmiUrl;
  }

  /** The default URL has no line break, so `.*` may run to its end. */
  lemma DefaultUrlOneLine()
    ensures LineEnd(EegmiUrl, 8) == |EegmiUrl| == 43
  {
    assert '\n' !in EegmiUrl;
  }

  /** `files/eegmmidb/` begins at position 22 of the default URL. */
  lemma DefaultUrlMarker()
    ensures EegmiUrl[22..37] == Marker
  {
  }

  /** The version digits of the default URL, and the dots between them. */
  lemma DefaultUrlDigits()
    ensures DigitRun(EegmiUrl, 37) == 1 && DigitRun(EegmiUrl, 39) == 1 && DigitRun(EegmiUrl, 41) == 1
    ensures EegmiUrl[38] == '.' && EegmiUrl[40] == '.'
  {
    assert IsDigit(EegmiUrl[37]) && !IsDigit(EegmiUrl[38]);
    assert IsDigit(EegmiUrl[39]) && !IsDigit(EegmiUrl[40]);
    assert IsDigit(EegmiUrl[41]) && !IsDigit(EegmiUrl[42]);
  }

  /** In the default URL the tail matches where `files/` begins, with version `1.0.0`. */
  lemma DefaultUrlTail()
    ensures TailAt(EegmiUrl, 22)
    ensures VersionEnd(EegmiUrl, 37) == Some(42)
    ensures EegmiUrl[37..42] == "1.0.0"
  {
    DefaultUrlMarker();
    DefaultUrlDigits();
  }

  /** No later position of the default URL starts the tail: no `f` follows position 22. */
  lemma DefaultUrlNoLaterTail()
    ensures forall k :: 22 < k <= |EegmiUrl| ==> !TailAt(EegmiUrl, k)
  {
    assert EegmiUrl[23] != 'f' && EegmiUrl[24] != 'f' && EegmiUrl[25] != 'f';
    assert EegmiUrl[26] != 'f' && EegmiUrl[27] != 'f' && EegmiUrl[28] != 'f';
    forall k | 22 < k <= |EegmiUrl|
      ensures !TailAt(EegmiUrl, k)
    {
      if k <= 28 {
        assert EegmiUrl[k..k + |Marker|][0] != Marker[0];
      }
    }
  }

  /** The default URL matches, with version `1.0.0`. */
  lemma DefaultUrlMatches()
    ensures MatchUrl(EegmiUrl) == Ok(Groups("files", "eegmmidb", "1.0.0"))
  {
    DefaultUrlScheme();
    DefaultUrlOneLine();
    DefaultUrlTail();
    DefaultUrlNoLaterTail();
    assert GreedyTailAt(EegmiUrl, 22) by {
      forall k: nat | 22 < k
        ensures !MatchesWithTailAt(EegmiUrl, k)
      {
      }
    }
    MatchUrlGroups(EegmiUrl, 22);
  }

  /** A path component that `op.join` appends as one directory level. */
  predicate PlainSegment(s: string)
  {
    s != [] && '/' !in s
  }

  /**
   * Each group becomes one directory level below `<path>/MNE-eegbci-data`,
   * whatever the data path (empty, or ending in `/`, included).
   */
  lemma BasePathLevels(path: string, g: Groups)
    requires PlainSegment(g.files) && PlainSegment(g.dataset) && PlainSegment(g.version)
    ensures BasePath(path, g) == Join(path, DataFolder) + "/" + g.files + "/" + g.dataset + "/" + g.version
  {
    var a := Join(path, DataFolder);
    assert a[|a| - 1] == DataFolder[|DataFolder| - 1];
    var b := Join(a, g.files);
    assert b == a + "/" + g.files;
    var c := Join(b, g.dataset);
    assert c == b + "/" + g.dataset;
    assert c[|c| - 1] == g.dataset[|g.dataset| - 1];
  }

  /** The version of every accepted URL is one plain directory level. */
  lemma MatchUrlPlain(url: string)
    requires MatchUrl(url).Ok?
    ensures PlainSegment(MatchUrl(url).value.version)
  {
    var v := TailStart(url).value + |Marker|;
    var version := url[v..VersionEnd(url, v).value];
    assert MatchUrl(url) == Ok(Groups("files", "eegmmidb", version));
    VersionPlain(url, v);
  }

  /**
   * For every accepted URL, files go under
   * `<path>/MNE-eegbci-data/files/eegmmidb/<version>`.
   */
  lemma MatchUrlBasePath(url: string, path: string)
    requires MatchUrl(url).Ok?
    ensures var g := MatchUrl(url).value;
            BasePath(path, g) == Join(path, DataFolder) + "/" + "files" + "/" + "eegmmidb" + "/" + g.version
  {
    MatchUrlPlain(url);
    DefaultGroupsPlain();
    BasePathLevels(path, MatchUrl(url).value);
  }

  /**
   * With the groups of the default URL (`DefaultUrlMatches`), files go under
   * `<path>/MNE-eegbci-data/files/eegmmidb/1.0.0`, whatever the data path.
   */
  lemma DefaultBasePath(path: string)
    ensures BasePath(path, Groups("files", "eegmmidb", "1.0.0"))
            == Join(path, DataFolder) + "/" + "files" + "/" + "eegmmidb" + "/" + "1.0.0"
  {
    DefaultGroupsPlain();
    BasePathLevels(path, Groups("files", "eegmmidb", "1.0.0"));
  }

  lemma DefaultGroupsPlain()
    ensures PlainSegment("files") && PlainSegment("eegmmidb") && PlainSegment("1.0.0")
  {
    assert '/' !in "files" && '/' !in "eegmmidb" && '/' !in "1.0.0";
  }

  /** Text appended after a digit run that ends inside `s` does not change it. */
  lemma {:induction false} DigitRunAppend(s: string, x: string, i: nat)
    requires i <= |s|
    ensures DigitRun(s + x, i) >= DigitRun(s, i)
    ensures i + DigitRun(s, i) < |s| ==> DigitRun(s + x, i) == DigitRun(s, i)
    decreases |s| - i
  {
    if i < |s| && IsDigit(s[i]) {
      assert (s + x)[i] == s[i];
      DigitRunAppend(s, x, i + 1);
    } else if i < |s| {
      assert (s + x)[i] == s[i];
    }
  }

  /** A digit run closed by a dot inside `s` is the same run, with the same dot, in `s + x`. */
  lemma DottedRunAppend(s: string, x: string, i: nat)
    requires i <= |s| && DottedRun(s, i).Some?
    ensures DottedRun(s + x, i) == DottedRun(s, i)
  {
    var a := DigitRun(s, i);
    DigitRunAppend(s, x, i);
    assert (s + x)[i + a] == s[i + a];
  }

  /** A version that matches in `s` still matches once text is appended. */
  lemma VersionEndAppend(s: string, x: string, i: nat)
    requires i <= |s| && VersionEnd(s, i).Some?
    ensures VersionEnd(s + x, i).Some?
  {
    var j := DottedRun(s, i).value;
    DottedRunAppend(s, x, i);
    var k := DottedRun(s, j).value;
    DottedRunAppend(s, x, j);
    DigitRunAppend(s, x, k);
  }

  /** The tail that matches at `p` in `s` still matches there in `s + x`. */
  lemma TailAtAppend(s: string, x: string, p: nat)
    requires p <= |s| && TailAt(s, p)
    ensures TailAt(s + x, p)
  {
    assert (s + x)[p..p + |Marker|] == s[p..p + |Marker|];
    VersionEndAppend(s, x, p + |Marker|);
  }

  /** Appending text can only move the first line break further away. */
  lemma LineEndAppend(s: string, x: string, i: nat)
    requires i <= |s|
    ensures LineEnd(s + x, i) >= LineEnd(s, i)
  {
  }

  /** Where the pattern matches in `url`, it matches in `url + x` too. */
  lemma MatchesAppend(url: string, x: string, p: nat)
    requires MatchesWithTailAt(url, p)
    ensures MatchesWithTailAt(url + x, p)
  {
    var u := url + x;
    assert SchemeEnd(u) == SchemeEnd(url);
    LineEndAppend(url, x, SchemeEnd(url).value);
    TailAtAppend(url, x, p);
  }

  /**
   * The pattern is anchored at the start only: a URL that matches still
   * matches whatever is appended to it.
   */
  lemma MatchIgnoresSuffix(url: string, x: string)
    requires MatchUrl(url).Ok?
    ensures MatchUrl(url + x).Ok?
  {
    TailStartGreedy(url);
    MatchesAppend(url, x, TailStart(url).value);
    TailStartFindsMatch(url + x, TailStart(url).value);
  }
}
