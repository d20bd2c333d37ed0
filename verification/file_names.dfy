/**
 * Decimal formatting of the subject and run numbers, POSIX path joining, and
 * the relative file name of one recording of the EEG motor imagery dataset.
 */
module FileNames {

  predicate IsDigit(c: char)
  {
    '0' <= c <= '9'
  }

  predicate AllDigits(s: string)
  {
    forall i :: 0 <= i < |s| ==> IsDigit(s[i])
  }

  function DigitChar(d: nat): (c: char)
    requires d < 10
    ensures IsDigit(c)
  {
    ('0' as int + d) as char
  }

  function DigitValue(c: char): (d: nat)
    requires IsDigit(c)
    ensures d < 10 && DigitChar(d) == c
  {
    c as int - '0' as int
  }

  /** The number a string of decimal digits denotes (leading zeros allowed). */
  function Value(s: string): nat
    requires AllDigits(s)
  {
    if s == [] then 0 else Value(s[..|s| - 1]) * 10 + DigitValue(s[|s| - 1])
  }

  /** Python's `str(n)` for `n >= 0`: the shortest decimal numeral of `n`. */
  function Decimal(n: nat): (s: string)
    ensures 1 <= |s| && AllDigits(s)
    ensures Value(s) == n
    ensures |s| > 1 ==> s[0] != '0'
  {
    if n < 10 then [DigitChar(n)]
    else
      var s := Decimal(n / 10) + [DigitChar(n % 10)];
      assert s[..|s| - 1] == Decimal(n / 10);
      s
  }

  function Zeros(k: nat): (s: string)
    ensures |s| == k && AllDigits(s)
  {
    if k == 0 then [] else Zeros(k - 1) + ['0']
  }

  /** Leading zeros do not change the value of a numeral. */
  lemma {:induction false} ValueLeadingZeros(k: nat, s: string)
    requires AllDigits(s)
    ensures AllDigits(Zeros(k) + s) && Value(Zeros(k) + s) == Value(s)
    decreases |s|, k
  {
    var t := Zeros(k) + s;
    if s == [] {
      assert t == Zeros(k);
      if k > 0 {
        assert t[..|t| - 1] == Zeros(k - 1);
        ValueLeadingZeros(k - 1, []);
        assert Zeros(k - 1) + [] == Zeros(k - 1);
      }
    } else {
      assert t[..|t| - 1] == Zeros(k) + s[..|s| - 1];
      ValueLeadingZeros(k, s[..|s| - 1]);
    }
  }

  /**
   * Python's `format(n, '0<width>d')` for `n >= 0`: the decimal numeral of `n`,
   * left-padded with zeros to `width` characters, never truncated.
   */
  function ZeroPad(n: nat, width: nat): (s: string)
    ensures |s| == if |Decimal(n)| >= width then |Decimal(n)| else width
    ensures AllDigits(s) && Value(s) == n
  {
    var d := Decimal(n);
    if |d| >= width then d
    else
      ValueLeadingZeros(width - |d|, d);
      Zeros(width - |d|) + d
  }

  /**
   * Python's `format(n, '0<width>d')` for any integer: a negative number gets
   * its `-` sign first and the zeros after it, the sign counting towards the width.
   */
  function FormatInt(n: int, width: nat): string
  {
    if n < 0 then "-" + ZeroPad(-n, if width > 0 then width - 1 else 0)
    else ZeroPad(n, width)
  }

  /** The strings `FormatInt` produces: an optional `-` and at least one digit. */
  predicate IsIntNumeral(s: string)
  {
    if |s| > 0 && s[0] == '-' then |s| > 1 && AllDigits(s[1..]) else |s| > 0 && AllDigits(s)
  }

  /** The integer an `IsIntNumeral` string denotes (Python's `int(s)`). */
  function ParseInt(s: string): int
    requires IsIntNumeral(s)
  {
    if s[0] == '-' then -(Value(s[1..]) as int) else Value(s)
  }

  /** Formatting then parsing gives the number back, whatever the width. */
  lemma FormatIntRoundTrip(n: int, width: nat)
    ensures IsIntNumeral(FormatInt(n, width))
    ensures ParseInt(FormatInt(n, width)) == n
  {
    var s := FormatInt(n, width);
    if n < 0 {
      assert s[1..] == ZeroPad(-n, if width > 0 then width - 1 else 0);
    }
  }

  /** A formatted number holds only digits and `-`. */
  lemma FormatIntChars(n: int, width: nat, i: nat)
    requires i < |FormatInt(n, width)|
    ensures var c := FormatInt(n, width)[i]; IsDigit(c) || c == '-'
  {
    if n < 0 && i > 0 {
      assert FormatInt(n, width)[i] == ZeroPad(-n, if width > 0 then width - 1 else 0)[i - 1];
    }
  }

  /**
   * `os.path.join(a, b)` on POSIX, for two components: the result always ends
   * with `b`, and unless `b` is absolute it starts with `a`, with at most one
   * `/` added between them.
   */
  function Join(a: string, b: string): (r: string)
    ensures |b| <= |r| && r[|r| - |b|..] == b
    ensures (b == [] || b[0] != '/') ==> |a| <= |r| <= |a| + 1 + |b| && r[..|a|] == a
    ensures |b| > 0 && b[0] == '/' ==> r == b
  {
    if |b| > 0 && b[0] == '/' then b
    else if a == [] || a[|a| - 1] == '/' then a + b
    else a + "/" + b
  }

  /**
   * The separator rule of `os.path.join` for a relative `b`: an empty `a`
   * adds nothing, and a non-empty `a` is followed by exactly one `/` before
   * `b`, added only when `a` does not already end with one.
   */
  lemma JoinSeparator(a: string, b: string)
    requires b == [] || b[0] != '/'
    ensures a == [] ==> Join(a, b) == b
    ensures a != [] && a[|a| - 1] != '/' ==> Join(a, b) == a + "/" + b
    ensures a != [] && a[|a| - 1] == '/' ==> Join(a, b) == a + b
  {
    if a == [] {
      assert a + b == b;
    }
  }

  /** Worked examples: a repeated component, a plain join, and an absolute second part. */
  lemma JoinExamples()
    ensures Join("x/y", "y") == "x/y/y"
    ensures Join("a", "b") == "a/b"
    ensures Join("a", "/b") == "/b"
  {
    JoinSeparator("x/y", "y");
    JoinSeparator("a", "b");
  }

  /**
   * The relative name of one recording:
   * `S{subject:03d}/S{subject:03d}R{run:02d}.edf`.
   */
  function FilePart(subject: int, run: int): string
  {
    var s := FormatInt(subject, 3);
    "S" + s + "/S" + s + "R" + FormatInt(run, 2) + ".edf"
  }

  /** `{1:03d}` is `001`. */
  lemma FormatSubjectOne()
    ensures FormatInt(1, 3) == "001"
  {
    assert DigitChar(1) == '1';
    assert Decimal(1) == "1";
    assert Zeros(2) == "00";
  }

  /** `{4:02d}` is `04`. */
  lemma FormatRunFour()
    ensures FormatInt(4, 2) == "04"
  {
    assert DigitChar(4) == '4';
    assert Decimal(4) == "4";
    assert Zeros(1) == "0";
  }

  /** Subject 1, run 4 is stored as `S001/S001R04.edf`. */
  lemma FilePartExample()
    ensures FilePart(1, 4) == "S001/S001R04.edf"
  {
    FormatSubjectOne();
    FormatRunFour();
  }

  /** `{10:02d}` is `10` and `{14:02d}` is `14`: two digits need no padding. */
  lemma FormatRunsTenFourteen()
    ensures FormatInt(10, 2) == "10" && FormatInt(14, 2) == "14"
  {
    assert DigitChar(1) == '1' && DigitChar(0) == '0' && DigitChar(4) == '4';
    assert Decimal(1) == "1";
    assert Decimal(10) == "10";
    assert Decimal(14) == "14";
  }

  /** Subject 1, run 10 is stored as `S001/S001R10.edf`. */
  lemma FilePartRunTen()
    ensures FilePart(1, 10) == "S001/S001R10.edf"
  {
    FormatSubjectOne();
    FormatRunsTenFourteen();
  }

  /** Subject 1, run 14 is stored as `S001/S001R14.edf`. */
  lemma FilePartRunFourteen()
    ensures FilePart(1, 14) == "S001/S001R14.edf"
  {
    FormatSubjectOne();
    FormatRunsTenFourteen();
  }

  /** Where the subject and run numerals sit inside a file part. */
  lemma FilePartShape(subject: int, run: int)
    ensures var s := FormatInt(subject, 3); var t := FormatInt(run, 2); var p := FilePart(subject, run);
            |p| == 2 * |s| + |t| + 8
            && p[1..1 + |s|] == s && p[1 + |s|] == '/'
            && p[2 * |s| + 4..2 * |s| + 4 + |t|] == t
  {
  }

  function Pow10(k: nat): (p: nat)
    ensures p >= 1
  {
    if k == 0 then 1 else 10 * Pow10(k - 1)
  }

  /** A number below `10^w` has at most `w` decimal digits. */
  lemma {:induction false} DecimalWidth(n: nat, w: nat)
    requires 1 <= w && n < Pow10(w)
    ensures |Decimal(n)| <= w
  {
    if n >= 10 {
      DecimalWidth(n / 10, w - 1);
    }
  }

  /**
   * Every subject below 1000 and run below 100, so every documented subject
   * (1 to 109) and run (1 to 14), gives a 16-character file part.
   */
  lemma FilePartLength(subject: int, run: int)
    requires 0 <= subject < 1000 && 0 <= run < 100
    ensures |FilePart(subject, run)| == 16
  {
    assert Pow10(3) == 1000 && Pow10(2) == 100;
    DecimalWidth(subject, 3);
    DecimalWidth(run, 2);
    FilePartShape(subject, run);
  }

  /**
   * Different (subject, run) pairs never share a file name: the subject can be
   * read back from the text before the first `/`, and the run from the text
   * between the last `R` and `.edf`.
   */
  lemma {:induction false} FilePartInjective(subject: int, run: int, subject': int, run': int)
    requires FilePart(subject, run) == FilePart(subject', run')
    ensures subject == subject' && run == run'
  {
    var s, t := FormatInt(subject, 3), FormatInt(run, 2);
    var s', t' := FormatInt(subject', 3), FormatInt(run', 2);
    var p := FilePart(subject, run);
    FilePartShape(subject, run);
    FilePartShape(subject', run');
    if |s| < |s'| {
      FormatIntChars(subject', 3, |s|);
      assert false;
    } else if |s'| < |s| {
      FormatIntChars(subject, 3, |s'|);
      assert false;
    }
    assert s == s';
    assert |t| == |t'|;
    assert t == t';
    FormatIntRoundTrip(subject, 3);
    FormatIntRoundTrip(subject', 3);
    FormatIntRoundTrip(run, 2);
    FormatIntRoundTrip(run', 2);
  }
}
