/**
 * Channel-name standardisation of the EEG motor imagery dataset
 * (`standardize` in mne/datasets/eegbci/eegbci.py).
 *
 * Names are strings of characters; upper-casing is ASCII upper-casing.
 */
module ChannelNames {

  /** ASCII upper-case form of one character; every other character is kept. */
  function UpperChar(c: char): char
  {
    if 'a' <= c <= 'z' then (c as int - 32) as char else c
  }

  /** `str.upper()` restricted to ASCII: a character-by-character map. */
  function Upper(s: string): (u: string)
    ensures |u| == |s|
    ensures forall i :: 0 <= i < |s| ==> u[i] == UpperChar(s[i])
  {
    if s == [] then [] else [UpperChar(s[0])] + Upper(s[1..])
  }

  predicate AllDots(s: string)
  {
    forall i :: 0 <= i < |s| ==> s[i] == '.'
  }

  /**
   * Where the leading run of dots that starts at `i` ends: the first index at
   * or after `i` that does not hold a dot.
   */
  function DotsFrom(s: string, i: nat): (j: nat)
    requires i <= |s|
    ensures i <= j <= |s|
    ensures forall k :: i <= k < j ==> s[k] == '.'
    ensures j == |s| || s[j] != '.'
    decreases |s| - i
  {
    if i < |s| && s[i] == '.' then DotsFrom(s, i + 1) else i
  }

  /**
   * Where the trailing run of dots that ends at `j` starts, not going below
   * `lo`: the index after the last character before `j` that is not a dot.
   */
  function DotsBefore(s: string, lo: nat, j: nat): (i: nat)
    requires lo <= j <= |s|
    ensures lo <= i <= j
    ensures forall k :: i <= k < j ==> s[k] == '.'
    ensures i == lo || s[i - 1] != '.'
  {
    if j > lo && s[j - 1] == '.' then DotsBefore(s, lo, j - 1) else j
  }

  /**
   * `s.strip('.')`: skip the dots at the front, then the dots at the back,
   * and keep what lies between.
   */
  function Strip(s: string): (r: string)
    ensures |r| <= |s|
    ensures r == [] || (r[0] != '.' && r[|r| - 1] != '.')
  {
    var i := DotsFrom(s, 0);
    var j := DotsBefore(s, i, |s|);
    s[i..j]
  }

  /** The leading run of dots is determined by where it ends. */
  lemma DotsFromIs(s: string, i: nat, j: nat)
    requires i <= j <= |s|
    requires forall k :: i <= k < j ==> s[k] == '.'
    requires j == |s| || s[j] != '.'
    ensures DotsFrom(s, i) == j
  {
  }

  /** The trailing run of dots is determined by where it starts. */
  lemma DotsBeforeIs(s: string, lo: nat, i: nat, j: nat)
    requires lo <= i <= j <= |s|
    requires forall k :: i <= k < j ==> s[k] == '.'
    requires i == lo || s[i - 1] != '.'
    ensures DotsBefore(s, lo, j) == i
  {
  }

  /**
   * `Strip(s)` is the middle of `s`: only dots lie before and after it, and
   * it is empty when `s` is all dots.
   */
  lemma StripIsMiddle(s: string)
    ensures var i := DotsFrom(s, 0);
            var r := Strip(s);
            && i + |r| <= |s| && s[i..i + |r|] == r
            && (forall k :: 0 <= k < i ==> s[k] == '.')
            && (forall k :: i + |r| <= k < |s| ==> s[k] == '.')
            && (AllDots(s) <==> r == [])
  {
    var i := DotsFrom(s, 0);
    var j := DotsBefore(s, i, |s|);
    if Strip(s) == [] {
      assert i == j;
    } else {
      assert s[i] != '.';
    }
  }

  /** `k` dots. */
  function Dots(k: nat): (d: string)
    ensures |d| == k && AllDots(d)
  {
    seq(k, _ => '.')
  }

  /** Any number of dots on either side of a name that neither starts nor ends with one is stripped. */
  lemma StripPadded(k: nat, t: string, m: nat)
    requires |t| > 0 && t[0] != '.' && t[|t| - 1] != '.'
    ensures Strip(Dots(k) + t + Dots(m)) == t
  {
    var s := Dots(k) + t + Dots(m);
    assert s[k] == t[0];
    DotsFromIs(s, 0, k);
    assert s[k + |t| - 1] == t[|t| - 1];
    DotsBeforeIs(s, k, k + |t|, |s|);
    assert s[k..k + |t|] == t;
  }

  /** A final `Z` becomes `z`; every other character is kept. */
  function LowerFinalZ(u: string): (r: string)
    ensures |r| == |u|
    ensures forall i :: 0 <= i < |u| ==>
              r[i] == if i == |u| - 1 && u[i] == 'Z' then 'z' else u[i]
  {
    if |u| > 0 && u[|u| - 1] == 'Z' then u[..|u| - 1] + "z" else u
  }

  /** A leading `FP` becomes `Fp`; every other character is kept. */
  function MixFp(u: string): (r: string)
    ensures |r| == |u|
    ensures forall i :: 0 <= i < |u| ==>
              r[i] == if i == 1 && u[0] == 'F' && u[1] == 'P' then 'p' else u[i]
  {
    if |u| >= 2 && u[..2] == "FP" then "Fp" + u[2..] else u
  }

  /** The character `standardize` writes at position `i` of the stripped name `s`. */
  function StdCharAt(s: string, i: nat): char
    requires i < |s|
  {
    if i == |s| - 1 && UpperChar(s[i]) == 'Z' then 'z'
    else if i == 1 && UpperChar(s[0]) == 'F' && UpperChar(s[1]) == 'P' then 'p'
    else UpperChar(s[i])
  }

  /**
   * The new name `standardize` gives to one channel: strip dots, upper-case,
   * then a final `Z` becomes `z` and a leading `FP` becomes `Fp`.
   */
  function StdName(name: string): (r: string)
    ensures |r| == |Strip(name)|
    ensures r == [] || (r[0] != '.' && r[|r| - 1] != '.')
    ensures forall i :: 0 <= i < |r| ==> r[i] == StdCharAt(Strip(name), i)
  {
    var s := Strip(name);
    var r := MixFp(LowerFinalZ(Upper(s)));
    assert forall i :: 0 <= i < |r| ==> r[i] == StdCharAt(s, i);
    r
  }

  /**
   * The three rules of `standardize`, stated on the stripped, upper-cased
   * name `u`: a final `Z` becomes `z`, a leading `FP` becomes `Fp`, and every
   * other character is that of `u`.
   */
  lemma StdNameRules(name: string)
    ensures var u := Upper(Strip(name));
            var r := StdName(name);
            && |r| == |u|
            && (|u| > 0 && u[|u| - 1] == 'Z' ==> r[|r| - 1] == 'z')
            && (|u| >= 2 && u[0] == 'F' && u[1] == 'P' ==> r[0] == 'F' && r[1] == 'p')
            && (forall i :: 0 <= i < |u| && !(i == |u| - 1 && u[i] == 'Z') && !(i == 1 && u[0] == 'F' && u[1] == 'P')
                  ==> r[i] == u[i])
  {
  }

  /** Stripping a name that neither starts nor ends with a dot changes nothing. */
  lemma StripNoDots(s: string)
    requires s == [] || (s[0] != '.' && s[|s| - 1] != '.')
    ensures Strip(s) == s
  {
  }

  /** Upper-casing undoes the two lower-case letters `standardize` introduces. */
  lemma UpperStdCharAt(s: string, i: nat)
    requires i < |s|
    ensures UpperChar(StdCharAt(s, i)) == UpperChar(s[i])
  {
  }

  /** `StdCharAt` only looks at the upper-case form of the characters. */
  lemma StdCharAtUpperInvariant(a: string, b: string, i: nat)
    requires |a| == |b| && i < |a|
    requires forall j :: 0 <= j < |a| ==> UpperChar(a[j]) == UpperChar(b[j])
    ensures StdCharAt(a, i) == StdCharAt(b, i)
  {
  }

  /** A name is the standard form of `name` when it agrees with it character by character. */
  lemma StdNameIs(name: string, expected: string)
    requires |expected| == |Strip(name)|
    requires forall i :: 0 <= i < |expected| ==> expected[i] == StdCharAt(Strip(name), i)
    ensures StdName(name) == expected
  {
  }

  /** A standard name agrees with the stripped name up to upper-casing. */
  lemma StdNameUpperAgrees(name: string)
    ensures var r := StdName(name);
            forall i :: 0 <= i < |r| ==> UpperChar(r[i]) == UpperChar(Strip(name)[i])
  {
    var r := StdName(name);
    forall i | 0 <= i < |r|
      ensures UpperChar(r[i]) == UpperChar(Strip(name)[i])
    {
      UpperStdCharAt(Strip(name), i);
    }
  }

  /** Standardising a standardised name gives it back unchanged. */
  lemma StdNameIdempotent(name: string)
    ensures StdName(StdName(name)) == StdName(name)
  {
    var r := StdName(name);
    StripNoDots(r);
    StdNameUpperAgrees(name);
    forall i | 0 <= i < |r|
      ensures r[i] == StdCharAt(Strip(r), i)
    {
      StdCharAtUpperInvariant(r, Strip(name), i);
    }
    StdNameIs(r, r);
  }

  /** `"Fp1."` loses its trailing dot and keeps its mixed-case `Fp`. */
  lemma StdNameFp1()
    ensures StdName("Fp1.") == "Fp1"
  {
    assert "Fp1." == Dots(0) + "Fp1" + Dots(1);
    StripPadded(0, "Fp1", 1);
    assert StdCharAt("Fp1", 0) == 'F' && StdCharAt("Fp1", 1) == 'p' && StdCharAt("Fp1", 2) == '1';
    StdNameIs("Fp1.", "Fp1");
  }

  /** `"cz"` is upper-cased except for its final midline `z`. */
  lemma StdNameCz()
    ensures StdName("cz") == "Cz"
  {
    StripNoDots("cz");
    assert StdCharAt("cz", 0) == 'C' && StdCharAt("cz", 1) == 'z';
    StdNameIs("cz", "Cz");
  }

  /** `"t7"` is upper-cased. */
  lemma StdNameT7()
    ensures StdName("t7") == "T7"
  {
    StripNoDots("t7");
    assert StdCharAt("t7", 0) == 'T' && StdCharAt("t7", 1) == '7';
    StdNameIs("t7", "T7");
  }

  /** `"fpz"` gets both the `Fp` prefix and the `z` suffix. */
  lemma StdNameFpz()
    ensures StdName("fpz") == "Fpz"
  {
    StripNoDots("fpz");
    assert StdCharAt("fpz", 0) == 'F' && StdCharAt("fpz", 1) == 'p' && StdCharAt("fpz", 2) == 'z';
    StdNameIs("fpz", "Fpz");
  }

  /** Dots are stripped from both ends, however many there are. */
  lemma StdNameDotsBothEnds()
    ensures StdName("..Oz..") == "Oz"
  {
    assert "..Oz.." == Dots(2) + "Oz" + Dots(2);
    StripPadded(2, "Oz", 2);
    assert StdCharAt("Oz", 0) == 'O' && StdCharAt("Oz", 1) == 'z';
    StdNameIs("..Oz..", "Oz");
  }

  /** The examples above, together. */
  lemma StdNameExamples()
    ensures StdName("Fp1.") == "Fp1" && StdName("cz") == "Cz" && StdName("t7") == "T7"
    ensures StdName("fpz") == "Fpz" && StdName("..Oz..") == "Oz"
  {
    StdNameFp1();
    StdNameCz();
    StdNameT7();
    StdNameFpz();
    StdNameDotsBothEnds();
  }

  /** A trailing dot makes no difference to the new name. */
  lemma StdNameCzDot()
    ensures StdName("cz.") == "Cz"
  {
    assert "cz." == Dots(0) + "cz" + Dots(1);
    StripPadded(0, "cz", 1);
    assert StdCharAt("cz", 0) == 'C' && StdCharAt("cz", 1) == 'z';
    StdNameIs("cz.", "Cz");
  }

  /**
   * Two different names can receive the same new name; the map keeps both
   * keys and leaves the clash to the caller that applies it.
   */
  lemma StdNameNotInjective()
    ensures "cz." != "cz" && StdName("cz.") == StdName("cz")
  {
    StdNameCz();
    StdNameCzDot();
  }

  /**
   * The loop of `standardize`: a map from every original channel name to its
   * new name, and from nothing else.
   */
  method Standardize(chNames: seq<string>) returns (rename: map<string, string>)
    ensures rename.Keys == set n | n in chNames
    ensures forall n :: n in rename ==> rename[n] == StdName(n)
  {
    rename := map[];
    for i := 0 to |chNames|
      invariant rename.Keys == set n | n in chNames[..i]
      invariant forall n :: n in rename ==> rename[n] == StdName(n)
    {
      var name := chNames[i];
      assert chNames[..i + 1] == chNames[..i] + [name];
      rename := rename[name := StdName(name)];
    }
    assert chNames[..|chNames|] == chNames;
  }
}
