/** Backup artifact names: `<etcd version>_<revision, zero-padded to 16 digits>_etcd.backup`,
    joined to a prefix with `/`, and the parse of the revision back out of such a name. */
module Naming {
  import opened Common

  const SUFFIX: string := "_etcd.backup"
  const REVISION_WIDTH: nat := 16

  predicate IsDigit(c: char) { '0' <= c <= '9' }

  predicate AllDigits(s: string)
  {
    forall i :: 0 <= i < |s| ==> IsDigit(s[i])
  }

  function DigitValue(c: char): nat
    requires IsDigit(c)
  {
    c as int - '0' as int
  }

  function DigitChar(d: nat): (c: char)
    requires d < 10
    ensures IsDigit(c) && DigitValue(c) == d
  {
    ('0' as int + d) as char
  }

  function Pow10(k: nat): (p: nat)
    ensures p >= 1
  {
    if k == 0 then 1 else 10 * Pow10(k - 1)
  }

  /** The shortest decimal numeral of `n`. */
  function Decimal(n: nat): (s: string)
    ensures |s| >= 1 && AllDigits(s)
    decreases n
  {
    if n < 10 then [DigitChar(n)] else Decimal(n / 10) + [DigitChar(n % 10)]
  }

  function Zeros(k: nat): (s: string)
    ensures |s| == k && AllDigits(s)
    ensures forall i :: 0 <= i < k ==> s[i] == '0'
  {
    if k == 0 then [] else Zeros(k - 1) + ['0']
  }

  /** The numeral of `n` left-padded with zeros to at least REVISION_WIDTH digits. */
  function Padded(n: nat): (s: string)
    ensures |s| >= REVISION_WIDTH && AllDigits(s)
  {
    var d := Decimal(n);
    if |d| >= REVISION_WIDTH then d else Zeros(REVISION_WIDTH - |d|) + d
  }

  /** The number a string of decimal digits denotes, read left to right. */
  function Value(s: string): nat
    requires AllDigits(s)
    decreases |s|
  {
    if s == [] then 0 else Value(s[..|s| - 1]) * 10 + DigitValue(s[|s| - 1])
  }

  /** The backup object name for an etcd version and a revision. */
  function MakeBackupName(version: string, rev: nat): (name: string)
    ensures |name| >= |version| + 1 + REVISION_WIDTH + |SUFFIX|
    ensures name[|version|] == '_'
  {
    version + "_" + Padded(rev) + SUFFIX
  }

  /** The full path of a backup under a prefix; an empty prefix adds nothing. */
  function JoinPath(prefix: string, name: string): (path: string)
    ensures prefix == "" ==> path == name
    ensures prefix != "" ==> |path| == |prefix| + 1 + |name| && path[|prefix|] == '/'
  {
    if prefix == "" then name else prefix + "/" + name
  }

  /** Under a non-empty prefix, the path is the prefix, then `/`, then the name. */
  lemma JoinPathParts(prefix: string, name: string)
    requires prefix != ""
    ensures JoinPath(prefix, name)[..|prefix|] == prefix
    ensures JoinPath(prefix, name)[|prefix| + 1..] == name
  {
  }

  /** The position of the last `c` in `s`. */
  function LastIndexOf(s: string, c: char): (r: Option<nat>)
    ensures r.Some? ==> r.value < |s| && s[r.value] == c && forall j :: r.value < j < |s| ==> s[j] != c
    ensures r.None? ==> forall j :: 0 <= j < |s| ==> s[j] != c
    decreases |s|
  {
    if s == [] then None
    else if s[|s| - 1] == c then Some(|s| - 1)
    else LastIndexOf(s[..|s| - 1], c)
  }

  /** The revision a backup name carries: the digits between the last `_` and the suffix. */
  function ParseRevision(name: string): (r: Option<nat>)
    ensures r.Some? ==> |name| >= |SUFFIX| + 2 && name[|name| - |SUFFIX|..] == SUFFIX
  {
    if |name| < |SUFFIX| || name[|name| - |SUFFIX|..] != SUFFIX then None
    else
      var stem := name[..|name| - |SUFFIX|];
      match LastIndexOf(stem, '_')
      case None => None
      case Some(k) =>
        var digits := stem[k + 1..];
        if digits != [] && AllDigits(digits) then Some(Value(digits)) else None
  }

  /** Byte-wise lexicographic order of strings, as Go compares them. */
  predicate LexLess(a: string, b: string)
    decreases |a|
  {
    if a == [] then b != []
    else b != [] && (a[0] < b[0] || (a[0] == b[0] && LexLess(a[1..], b[1..])))
  }

  // ---- arithmetic of numerals ----

  lemma {:induction false} ValueConcat(p: string, q: string)
    requires AllDigits(p) && AllDigits(q)
    ensures AllDigits(p + q)
    ensures Value(p + q) == Value(p) * Pow10(|q|) + Value(q)
    decreases |q|
  {
    if q == [] {
      assert p + q == p;
    } else {
      var q' := q[..|q| - 1];
      var d := DigitValue(q[|q| - 1]);
      assert (p + q)[..|p + q| - 1] == p + q';
      assert (p + q)[|p + q| - 1] == q[|q| - 1];
      ValueConcat(p, q');
      ShiftDigit(Value(p), Pow10(|q'|), Value(q'), d);
    }
  }

  lemma ShiftDigit(v: nat, p: nat, w: nat, d: nat)
    ensures (v * p + w) * 10 + d == v * (10 * p) + (w * 10 + d)
  {
    calc {
      (v * p + w) * 10 + d;
      v * p * 10 + w * 10 + d;
      v * (10 * p) + (w * 10 + d);
    }
  }

  lemma {:induction false} ValueBound(s: string)
    requires AllDigits(s)
    ensures Value(s) < Pow10(|s|)
    decreases |s|
  {
    if s != [] {
      ValueBound(s[..|s| - 1]);
    }
  }

  lemma {:induction false} ZerosValue(k: nat)
    ensures Value(Zeros(k)) == 0
  {
    if k > 0 {
      ZerosValue(k - 1);
      assert Zeros(k)[..k - 1] == Zeros(k - 1);
    }
  }

  lemma {:induction false} DecimalValue(n: nat)
    ensures Value(Decimal(n)) == n
    decreases n
  {
    if n >= 10 {
      var d := Decimal(n / 10);
      DecimalValue(n / 10);
      assert (d + [DigitChar(n % 10)])[..|d|] == d;
    }
  }

  /** Leading zeros do not change the value of a numeral. */
  lemma LeadingZeros(k: nat, d: string)
    requires AllDigits(d)
    ensures AllDigits(Zeros(k) + d) && Value(Zeros(k) + d) == Value(d)
  {
    ValueConcat(Zeros(k), d);
    ZerosValue(k);
    var p := Pow10(|d|);
    assert Value(Zeros(k)) * p == 0;
  }

  /** Parsing the padded numeral gives the revision back. */
  lemma PaddedValue(n: nat)
    ensures Value(Padded(n)) == n
  {
    var d := Decimal(n);
    DecimalValue(n);
    if |d| < REVISION_WIDTH {
      LeadingZeros(REVISION_WIDTH - |d|, d);
    }
  }

  lemma {:induction false} DecimalLength(n: nat, k: nat)
    requires 1 <= k && n < Pow10(k)
    ensures |Decimal(n)| <= k
    decreases n
  {
    if n >= 10 {
      assert k >= 2;
      assert n / 10 < Pow10(k - 1);
      DecimalLength(n / 10, k - 1);
    }
  }

  /** Revisions below 10^16 fill the padded field exactly. */
  lemma PaddedWidth(n: nat)
    requires n < Pow10(REVISION_WIDTH)
    ensures |Padded(n)| == REVISION_WIDTH
  {
    DecimalLength(n, REVISION_WIDTH);
  }

  // ---- round trip ----

  /** A name made for any version and revision parses back to that revision, even when the
      version itself contains underscores. */
  lemma ParseMakeRoundTrip(version: string, rev: nat)
    ensures ParseRevision(MakeBackupName(version, rev)) == Some(rev)
  {
    var digits := Padded(rev);
    var stem := version + "_" + digits;
    var name := MakeBackupName(version, rev);
    assert name == stem + SUFFIX;
    assert name[|name| - |SUFFIX|..] == SUFFIX;
    assert name[..|name| - |SUFFIX|] == stem;
    assert stem[|version|] == '_';
    assert forall j :: |version| < j < |stem| ==> stem[j] == digits[j - |version| - 1];
    var k := LastIndexOf(stem, '_');
    assert k.Some?;
    assert k.value == |version|;
    assert stem[k.value + 1..] == digits;
    PaddedValue(rev);
  }

  // ---- lexicographic order of names ----

  lemma {:induction false} LexIrreflexive(a: string)
    ensures !LexLess(a, a)
    decreases |a|
  {
    if a != [] {
      LexIrreflexive(a[1..]);
    }
  }

  lemma {:induction false} LexCommonPrefix(p: string, a: string, b: string)
    ensures LexLess(p + a, p + b) == LexLess(a, b)
    decreases |p|
  {
    if p == [] {
      assert p + a == a && p + b == b;
    } else {
      assert (p + a)[1..] == p[1..] + a;
      assert (p + b)[1..] == p[1..] + b;
      LexCommonPrefix(p[1..], a, b);
    }
  }

  lemma {:induction false} LexFirstDifference(a: string, b: string, s: string, t: string)
    requires |a| == |b| && a != b
    ensures LexLess(a + s, b + t) == LexLess(a, b)
    decreases |a|
  {
    assert a != [];
    assert (a + s)[0] == a[0] && (b + t)[0] == b[0];
    assert a == [a[0]] + a[1..] && b == [b[0]] + b[1..];
    if a[0] == b[0] {
      assert (a + s)[1..] == a[1..] + s;
      assert (b + t)[1..] == b[1..] + t;
      LexFirstDifference(a[1..], b[1..], s, t);
    }
  }

  /** A numeral is its first digit times the weight of its position plus the rest. */
  lemma FrontDigit(s: string)
    requires s != [] && AllDigits(s)
    ensures Value(s) == DigitValue(s[0]) * Pow10(|s| - 1) + Value(s[1..])
  {
    var head := [s[0]];
    assert s == head + s[1..];
    assert head[..0] == [];
    assert Value(head) == DigitValue(s[0]);
    ValueConcat(head, s[1..]);
  }

  /** A smaller leading digit decides the comparison when the rest is below the weight. */
  lemma LeadingDigitDecides(x: nat, y: nat, p: nat, u: nat, w: nat)
    requires x < y && u < p
    ensures x * p + u < y * p + w
  {
    var k := y - x;
    MulAtLeast(k, p);
    assert y * p == x * p + k * p;
  }

  lemma {:induction false} MulAtLeast(k: nat, p: nat)
    requires k >= 1
    ensures k * p >= p
  {
    if k > 1 {
      MulAtLeast(k - 1, p);
      assert k * p == (k - 1) * p + p;
    }
  }

  /** On numerals of equal length, lexicographic order is numeric order. */
  lemma {:induction false} LexDigits(a: string, b: string)
    requires |a| == |b| && AllDigits(a) && AllDigits(b)
    ensures LexLess(a, b) <==> Value(a) < Value(b)
    decreases |a|
  {
    if a != [] {
      var x, y := DigitValue(a[0]), DigitValue(b[0]);
      var p := Pow10(|a| - 1);
      FrontDigit(a);
      FrontDigit(b);
      ValueBound(a[1..]);
      ValueBound(b[1..]);
      if x < y {
        LeadingDigitDecides(x, y, p, Value(a[1..]), Value(b[1..]));
      } else if y < x {
        LeadingDigitDecides(y, x, p, Value(b[1..]), Value(a[1..]));
      } else {
        LexDigits(a[1..], b[1..]);
      }
    }
  }

  lemma NameParts(version: string, rev: nat)
    ensures MakeBackupName(version, rev) == (version + "_") + (Padded(rev) + SUFFIX)
  {
  }

  /** Names of one version sort lexicographically exactly as their revisions sort, for every
      revision that fits the 16-digit field; so the latest backup is the lexicographically
      greatest name. */
  lemma NameOrder(version: string, r1: nat, r2: nat)
    requires r1 < Pow10(REVISION_WIDTH) && r2 < Pow10(REVISION_WIDTH)
    ensures LexLess(MakeBackupName(version, r1), MakeBackupName(version, r2)) <==> r1 < r2
  {
    var p1, p2 := Padded(r1), Padded(r2);
    var head := version + "_";
    NameParts(version, r1);
    NameParts(version, r2);
    LexCommonPrefix(head, p1 + SUFFIX, p2 + SUFFIX);
    PaddedValue(r1);
    PaddedValue(r2);
    if r1 == r2 {
      LexIrreflexive(p1 + SUFFIX);
    } else {
      PaddedWidth(r1);
      PaddedWidth(r2);
      LexFirstDifference(p1, p2, SUFFIX, SUFFIX);
      LexDigits(p1, p2);
    }
  }

  // ---- the documented example ----

  lemma PaddedOne()
    ensures Padded(1) == "0000000000000001"
  {
    assert Decimal(1) == "1";
    var padded := Zeros(15) + "1";
    assert |padded| == 16 && padded[15] == '1';
  }

  /** The name of the documented example: version 3.1.8 at revision 1. */
  lemma DocumentedName()
    ensures MakeBackupName("3.1.8", 1) == "3.1.8_0000000000000001_etcd.backup"
  {
    PaddedOne();
  }

  /** The full path of the documented example: the prefix, `/`, then the documented name. */
  lemma DocumentedPath()
    ensures var prefix := "etcd-backups/v1/default/example-etcd-cluster";
      var path := JoinPath(prefix, MakeBackupName("3.1.8", 1));
      && path[..|prefix|] == prefix
      && path[|prefix|] == '/'
      && path[|prefix| + 1..] == "3.1.8_0000000000000001_etcd.backup"
  {
    var prefix := "etcd-backups/v1/default/example-etcd-cluster";
    DocumentedName();
    JoinPathParts(prefix, MakeBackupName("3.1.8", 1));
  }
}
