/** The version string `getAppVersion` builds from the app configuration:
    `'' + major + '.' + minor + '.' + patch`. */
module Version {

  import opened Bytes
  import opened Wrappers
  import opened Codec

  function DecimalDigit(d: nat): char
    requires d < 10
  {
    ('0' as int + d) as char
  }

  function DigitValue(c: char): nat
  {
    if '0' <= c <= '9' then c as int - '0' as int else 0
  }

  /** `Number.prototype.toString()` on a non-negative integer. */
  function Decimal(n: nat): (s: string)
    ensures 1 <= |s|
    decreases n
  {
    if n < 10 then [DecimalDigit(n)] else Decimal(n / 10) + [DecimalDigit(n % 10)]
  }

  function ParseDecimal(s: string): nat
  {
    if s == [] then 0 else 10 * ParseDecimal(s[..|s| - 1]) + DigitValue(s[|s| - 1])
  }

  /** Decimal digits only, no leading zero, and they read back as the number. */
  lemma {:induction false} DecimalRoundTrip(n: nat)
    ensures ParseDecimal(Decimal(n)) == n
    ensures forall k :: 0 <= k < |Decimal(n)| ==> '0' <= Decimal(n)[k] <= '9'
    ensures n > 0 ==> Decimal(n)[0] != '0'
    decreases n
  {
    if n >= 10 {
      DecimalRoundTrip(n / 10);
      var s := Decimal(n);
      assert s[..|s| - 1] == Decimal(n / 10);
    }
  }

  function VersionString(c: AppConfig): string
  {
    Decimal(c.major) + "." + Decimal(c.minor) + "." + Decimal(c.patch)
  }

  /** The pieces of `s` between the separators (`String.prototype.split`). */
  function Split(s: string, sep: char): (r: seq<string>)
    ensures |r| >= 1
  {
    if s == [] then [""]
    else
      var rest := Split(s[1..], sep);
      if s[0] == sep then [""] + rest else [[s[0]] + rest[0]] + rest[1..]
  }

  lemma {:induction false} SplitAfterPiece(a: string, sep: char, b: string)
    requires sep !in a
    ensures Split(a + [sep] + b, sep) == [a] + Split(b, sep)
    ensures Split(a, sep) == [a]
  {
    if a != [] {
      SplitAfterPiece(a[1..], sep, b);
      assert (a + [sep] + b)[1..] == a[1..] + [sep] + b;
      assert [a[0]] + a[1..] == a;
    } else {
      assert (a + [sep] + b)[1..] == b;
    }
  }

  /** Reading a version string back: three dot-separated decimal numbers. */
  function ParseVersion(v: string): Option<(nat, nat, nat)>
  {
    var fields := Split(v, '.');
    if |fields| == 3 then
      Some((ParseDecimal(fields[0]), ParseDecimal(fields[1]), ParseDecimal(fields[2])))
    else None
  }

  lemma DecimalHasNoDot(n: nat)
    ensures '.' !in Decimal(n)
  {
    DecimalRoundTrip(n);
  }

  lemma VersionStringSplits(c: AppConfig)
    ensures Split(VersionString(c), '.') == [Decimal(c.major), Decimal(c.minor), Decimal(c.patch)]
  {
    var maj, min, pat := Decimal(c.major), Decimal(c.minor), Decimal(c.patch);
    DecimalHasNoDot(c.major);
    DecimalHasNoDot(c.minor);
    DecimalHasNoDot(c.patch);
    SplitAfterPiece(min, '.', pat);
    SplitAfterPiece(pat, '.', "");
    SplitAfterPiece(maj, '.', min + "." + pat);
    assert VersionString(c) == maj + ['.'] + (min + ['.'] + pat);
  }

  /** The version string holds exactly the three configuration numbers, in the
      order major, minor, patch. */
  lemma VersionStringRoundTrip(c: AppConfig)
    ensures ParseVersion(VersionString(c)) == Some((c.major as nat, c.minor as nat, c.patch as nat))
  {
    VersionStringSplits(c);
    DecimalRoundTrip(c.major);
    DecimalRoundTrip(c.minor);
    DecimalRoundTrip(c.patch);
  }
}
