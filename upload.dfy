/** The disk-storage callbacks of the avatar upload: where a file goes, what
    it is called, and which files are let through. Time and randomness are
    parameters. */
module Upload {

  import opened Wrappers

  /** The `(error, value)` pair a storage callback passes to `cb`. */
  datatype NameCallback = NameCallback(error: Option<string>, value: string)

  /** The `(error, accept)` pair the file filter passes to `cb`. */
  datatype FilterCallback = FilterCallback(error: Option<string>, accept: bool)

  const UploadDir: string := "uploads"
  const ImagePrefix: string := "image/"
  const RejectMessage: string := "Only image files are allowed"

  /** `fileFilter`: accept exactly the MIME types that start with `image/`
      (case-sensitive), otherwise reject with an error. */
  function FileFilter(mimetype: string): (r: FilterCallback)
    ensures r.accept <==> |mimetype| >= 6 && mimetype[..6] == "image/"
    ensures r.accept ==> r.error == None
    ensures !r.accept ==> r.error == Some("Only image files are allowed")
  {
    if ImagePrefix <= mimetype then FilterCallback(None, true)
    else FilterCallback(Some(RejectMessage), false)
  }

  /** `destination`: every file goes to the `uploads` directory, whatever
      the request and the file. */
  function Destination<Req, File>(req: Req, file: File): (r: NameCallback)
    ensures r.error == None && r.value == "uploads"
  {
    NameCallback(None, UploadDir)
  }

  // ----- Decimal form of a non-negative integer (`String(n)`) -----

  predicate IsDigit(ch: char)
  {
    '0' <= ch <= '9'
  }

  predicate AllDigits(s: string)
  {
    forall i :: 0 <= i < |s| ==> IsDigit(s[i])
  }

  /** The decimal form JavaScript gives a non-negative integer below 10^21. */
  function Decimal(n: nat): (s: string)
    ensures |s| >= 1 && AllDigits(s)
    decreases n
  {
    if n < 10 then ["0123456789"[n]]
    else Decimal(n / 10) + ["0123456789"[n % 10]]
  }

  /** The value of a string of decimal digits. */
  function DigitsValue(s: string): nat
    requires AllDigits(s)
  {
    if s == [] then 0
    else 10 * DigitsValue(s[..|s| - 1]) + ((s[|s| - 1] as int) - ('0' as int))
  }

  /** Reading back a decimal form gives the number. */
  lemma {:induction false} DecimalRoundTrip(n: nat)
    ensures DigitsValue(Decimal(n)) == n
    decreases n
  {
    var s := Decimal(n);
    if n >= 10 {
      assert s[..|s| - 1] == Decimal(n / 10);
      DecimalRoundTrip(n / 10);
    }
  }

  /** Distinct numbers have distinct decimal forms. */
  lemma DecimalInjective(m: nat, n: nat)
    requires Decimal(m) == Decimal(n)
    ensures m == n
  {
    DecimalRoundTrip(m);
    DecimalRoundTrip(n);
  }

  // ----- `Math.round(Math.random() * 1E9)` -----

  /** `Math.round(u * 1E9)` for a draw `u` of `Math.random()`, computed on
      exact reals: round half up. */
  function RandomPart(u: real): (r: nat)
    requires 0.0 <= u < 1.0
    ensures r <= 1000000000
  {
    (u * 1000000000.0 + 0.5).Floor
  }

  // ----- `path.extname` (POSIX) -----

  /** The index of the last occurrence of `ch` in `s`. */
  function LastIndexOf(s: string, ch: char): (r: Option<nat>)
    ensures r.None? <==> ch !in s
    ensures r.Some? ==> r.value < |s| && s[r.value] == ch && ch !in s[r.value + 1..]
  {
    if s == [] then None
    else if s[|s| - 1] == ch then Some(|s| - 1)
    else
      assert s == s[..|s| - 1] + [s[|s| - 1]];
      LastIndexOf(s[..|s| - 1], ch)
  }

  /** The path with its trailing `/` separators removed. */
  function TrimTrailingSlashes(path: string): (r: string)
    ensures r <= path
    ensures r == [] || r[|r| - 1] != '/'
  {
    if path != [] && path[|path| - 1] == '/' then TrimTrailingSlashes(path[..|path| - 1])
    else path
  }

  /** The last component of the path, trailing separators ignored. */
  function BaseName(path: string): (b: string)
    ensures '/' !in b
  {
    var p := TrimTrailingSlashes(path);
    match LastIndexOf(p, '/')
    case None => p
    case Some(i) => p[i + 1..]
  }

  /** `path.extname`: from the last `.` of the base name to its end. There is
      none when the base name has no `.`, when its only `.` that could start
      one is its first character, or when the base name is `..`. */
  function ExtName(path: string): (e: string)
    ensures e == [] || (e[0] == '.' && '/' !in e && '.' !in e[1..])
    ensures '.' !in BaseName(path) ==> e == []
    ensures e != [] ==> |e| < |BaseName(path)| && BaseName(path)[|BaseName(path)| - |e|..] == e
    ensures forall d ::
      (0 < d < |BaseName(path)| && BaseName(path)[d] == '.' && '.' !in BaseName(path)[d + 1..] && BaseName(path) != "..")
      ==> e == BaseName(path)[d..]
  {
    var base := BaseName(path);
    match LastIndexOf(base, '.')
    case None => ""
    case Some(d) => if d == 0 || base == ".." then "" else base[d..]
  }

  /** Examples from Node's documentation: a base name keeps only its last
      extension, and a leading dot starts none. */
  lemma ExtNameExamples()
    ensures ExtName("index.coffee.md") == ".md"
    ensures ExtName(".index") == ""
  {
    var a := "index.coffee.md";
    BaseNameOfPlainName(a);
    assert a[12] == '.' && '.' !in a[13..];
    assert LastIndexOf(a, '.') == Some(12);
    var b := ".index";
    BaseNameOfPlainName(b);
    assert '.' !in b[1..];
    assert LastIndexOf(b, '.') == Some(0);
  }

  /** The base name `..` has no extension, although its last `.` is not its
      first character. */
  lemma ExtNameOfParentDirectory()
    ensures ExtName("src/..") == ""
    ensures ExtName("...") == "."
  {
    var a := "src/..";
    assert TrimTrailingSlashes(a) == a;
    assert LastIndexOf(a, '/') == Some(3);
    assert BaseName(a) == "..";
    var b := "...";
    BaseNameOfPlainName(b);
    assert LastIndexOf(b, '.') == Some(2);
  }

  // ----- `filename` -----

  /** Two digit strings joined by `_` hold no `.` and no `/`, and start and
      end with a digit. */
  lemma JoinedDigitsShape(a: string, b: string)
    requires a != [] && b != [] && AllDigits(a) && AllDigits(b)
    ensures var p := a + "_" + b;
      |p| >= 3 && IsDigit(p[0]) && IsDigit(p[|p| - 1]) && '.' !in p && '/' !in p
  {
    var p := a + "_" + b;
    assert forall i :: 0 <= i < |p| ==> p[i] == '_' || IsDigit(p[i]) by {
      forall i | 0 <= i < |p| ensures p[i] == '_' || IsDigit(p[i]) {
        if i < |a| { assert p[i] == a[i]; }
        else if i > |a| { assert p[i] == b[i - |a| - 1]; }
      }
    }
  }

  /** `uniqueSuffix`: `Date.now() + "_" + Math.round(Math.random() * 1E9)`.
      It is made of digits and one `_`, so it holds no `.` and no `/`. */
  function UniqueSuffix(now: nat, random: nat): (p: string)
    ensures |p| >= 3 && IsDigit(p[0]) && IsDigit(p[|p| - 1]) && '.' !in p && '/' !in p
  {
    JoinedDigitsShape(Decimal(now), Decimal(random));
    Decimal(now) + "_" + Decimal(random)
  }

  /** `filename`: the unique suffix followed by the original name's extension. */
  function Filename(now: nat, random: nat, originalname: string): (r: NameCallback)
    ensures r.error == None
  {
    NameCallback(None, UniqueSuffix(now, random) + ExtName(originalname))
  }

  /** A name without separators is its own base name. */
  lemma BaseNameOfPlainName(f: string)
    requires f != [] && '/' !in f
    ensures BaseName(f) == f
  {
    assert f[|f| - 1] in f;
    assert TrimTrailingSlashes(f) == f;
  }

  /** Appending an extension-shaped string to a non-empty name without
      dots or separators yields a name whose extension is that string. */
  lemma ExtNameOfPrefixed(p: string, e: string)
    requires p != [] && '.' !in p && '/' !in p
    requires e == [] || (e[0] == '.' && '/' !in e && '.' !in e[1..])
    ensures ExtName(p + e) == e
  {
    var f := p + e;
    assert '/' !in f by {
      forall i | 0 <= i < |f| ensures f[i] != '/' {
        if i < |p| { assert f[i] == p[i]; } else { assert f[i] == e[i - |p|]; }
      }
    }
    BaseNameOfPlainName(f);
    if e == [] {
      assert f == p;
    } else {
      assert f[|p|] == '.';
      var k := LastIndexOf(f, '.').value;
      assert k == |p|;
      assert f[0] == p[0];
      assert f[k..] == e;
    }
  }

  /** The stored name keeps the original name's extension, and so has none
      when the original has none. */
  lemma FilenameKeepsExtension(now: nat, random: nat, originalname: string)
    ensures ExtName(Filename(now, random, originalname).value) == ExtName(originalname)
  {
    ExtNameOfPrefixed(UniqueSuffix(now, random), ExtName(originalname));
  }

  /** The length of the run of digits a string starts with. */
  function LeadingDigits(s: string): (n: nat)
    ensures n <= |s|
  {
    if s != [] && IsDigit(s[0]) then 1 + LeadingDigits(s[1..]) else 0
  }

  /** A run of digits followed by a non-digit (or nothing) is read back whole. */
  lemma {:induction false} LeadingDigitsOfConcat(a: string, b: string)
    requires AllDigits(a)
    requires b == [] || !IsDigit(b[0])
    ensures LeadingDigits(a + b) == |a|
  {
    if a != [] {
      assert (a + b)[0] == a[0];
      assert (a + b)[1..] == a[1..] + b;
      LeadingDigitsOfConcat(a[1..], b);
    } else {
      assert a + b == b;
    }
  }

  /** Where a run of digits is followed by a non-digit or by nothing, the
      run is determined by the string. */
  lemma SplitAfterDigits(a1: string, b1: string, a2: string, b2: string)
    requires AllDigits(a1) && (b1 == [] || !IsDigit(b1[0]))
    requires AllDigits(a2) && (b2 == [] || !IsDigit(b2[0]))
    requires a1 + b1 == a2 + b2
    ensures a1 == a2 && b1 == b2
  {
    LeadingDigitsOfConcat(a1, b1);
    LeadingDigitsOfConcat(a2, b2);
    assert a1 == (a1 + b1)[..|a1|];
    assert a2 == (a2 + b2)[..|a2|];
    assert b1 == (a1 + b1)[|a1|..];
    assert b2 == (a2 + b2)[|a2|..];
  }

  /** Two digit runs around one `_`, followed by an empty string or one
      starting with `.`, split back into their parts. */
  lemma SplitSuffix(t1: string, r1: string, e1: string, t2: string, r2: string, e2: string)
    requires AllDigits(t1) && AllDigits(r1) && (e1 == [] || e1[0] == '.')
    requires AllDigits(t2) && AllDigits(r2) && (e2 == [] || e2[0] == '.')
    requires t1 + "_" + r1 + e1 == t2 + "_" + r2 + e2
    ensures t1 == t2 && r1 == r2 && e1 == e2
  {
    var u1, u2 := "_" + (r1 + e1), "_" + (r2 + e2);
    assert t1 + "_" + r1 + e1 == t1 + u1;
    assert t2 + "_" + r2 + e2 == t2 + u2;
    SplitAfterDigits(t1, u1, t2, u2);
    assert r1 + e1 == u1[1..];
    assert r2 + e2 == u2[1..];
    SplitAfterDigits(r1, e1, r2, e2);
  }

  /** Distinct `(now, random)` draws give distinct stored names: the name
      determines the time, the random value and the extension. */
  lemma FilenameInjective(now1: nat, random1: nat, name1: string, now2: nat, random2: nat, name2: string)
    ensures Filename(now1, random1, name1).value == Filename(now2, random2, name2).value ==>
      now1 == now2 && random1 == random2 && ExtName(name1) == ExtName(name2)
  {
    if Filename(now1, random1, name1).value == Filename(now2, random2, name2).value {
      SplitSuffix(Decimal(now1), Decimal(random1), ExtName(name1),
                  Decimal(now2), Decimal(random2), ExtName(name2));
      DecimalInjective(now1, now2);
      DecimalInjective(random1, random2);
    }
  }
}
