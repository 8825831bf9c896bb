/**
 * Migration file names and the listing `_enumerateMigrations` builds from
 * one directory of them: `003_add_index.php` becomes version 3 with the
 * definition ("003_add_index", camelize("add_index")).
 */
module Catalogue {
  import opened Wrappers

  /** One migration file: its name without the extension and its class name. */
  datatype Definition = Definition(name: string, className: string)

  /** version -> definition, for one directory. */
  type Listing = map<int, Definition>

  predicate IsDigit(c: char) { '0' <= c <= '9' }

  predicate AllDigits(s: string) { forall i :: 0 <= i < |s| ==> IsDigit(s[i]) }

  /** `explode('_')` followed by `array_shift` and `implode('_')`: the part
      before the first '_' and the part after it ("" when there is none). */
  function SplitAtUnderscore(file: string): (string, string) {
    if file == [] then ("", "")
    else if file[0] == '_' then ("", file[1..])
    else
      var (prefix, rest) := SplitAtUnderscore(file[1..]);
      ([file[0]] + prefix, rest)
  }

  /** The split is at the first '_': the part before holds none, and the two
      parts with the '_' between them give back the name; a name without '_'
      is all prefix. */
  lemma {:induction false} SplitFacts(file: string)
    ensures '_' !in SplitAtUnderscore(file).0
    ensures '_' in file ==> file == SplitAtUnderscore(file).0 + "_" + SplitAtUnderscore(file).1
    ensures '_' !in file ==> SplitAtUnderscore(file) == (file, "")
  {
    if file != [] && file[0] != '_' {
      SplitFacts(file[1..]);
      assert file == [file[0]] + file[1..];
    }
  }

  /** The longest prefix of `s` made of decimal digits. */
  function LeadingDigits(s: string): string {
    if s == [] || !IsDigit(s[0]) then "" else [s[0]] + LeadingDigits(s[1..])
  }

  /** The leading digits are a prefix made of digits, and the character after
      them, if any, is not one. */
  lemma {:induction false} LeadingDigitsFacts(s: string)
    ensures LeadingDigits(s) <= s && AllDigits(LeadingDigits(s))
    ensures |LeadingDigits(s)| < |s| ==> !IsDigit(s[|LeadingDigits(s)|])
  {
    if s != [] && IsDigit(s[0]) {
      LeadingDigitsFacts(s[1..]);
    }
  }

  /** The value of a string of decimal digits, most significant first. */
  function DecimalValue(d: string): int {
    if d == [] then 0 else 10 * DecimalValue(d[..|d| - 1]) + (d[|d| - 1] as int - '0' as int)
  }

  /** How the version prefix of a file name reads as a number, in `$version > 0`
      and `(int)$version`: the value of its leading decimal digits. */
  function NumericPrefix(s: string): int {
    DecimalValue(LeadingDigits(s))
  }

  /** The shortest decimal spelling of `n`. */
  function Decimal(n: nat): (d: string)
    ensures AllDigits(d) && |d| > 0
  {
    if n < 10 then [('0' as int + n) as char]
    else Decimal(n / 10) + [('0' as int + n % 10) as char]
  }

  /** `k` zero digits, the padding of `003_add_index.php`. */
  function Zeros(k: nat): (z: string)
    ensures |z| == k && AllDigits(z)
  {
    if k == 0 then "" else Zeros(k - 1) + "0"
  }

  /** `substr($s, 0, -4)`: the string without its last four characters
      (the ".php" extension), "" when it is shorter. */
  function WithoutExtension(s: string): string {
    if |s| < 4 then "" else s[..|s| - 4]
  }

  /** What one file contributes to the listing: its version and definition,
      or None when the loop skips it. */
  function ParseFile(file: string, camelize: string -> string): (r: Option<(int, Definition)>)
    ensures r.Some? ==> r.value.0 > 0 && r.value.1.name == WithoutExtension(file)
  {
    var (prefix, rest) := SplitAtUnderscore(file);
    var version := NumericPrefix(prefix);
    if version > 0 && |rest| > 0 then
      Some((version as int, Definition(WithoutExtension(file), camelize(WithoutExtension(rest)))))
    else
      None
  }

  /** A kept file has a '_' after a non-empty run of leading digits. */
  lemma ParseFileShape(file: string, camelize: string -> string)
    ensures ParseFile(file, camelize).Some? ==>
              '_' in file && LeadingDigits(SplitAtUnderscore(file).0) != ""
  {
    SplitFacts(file);
  }

  /** True when `file` is kept by the listing under version `v`. */
  predicate Kept(file: string, camelize: string -> string, v: int) {
    var r := ParseFile(file, camelize);
    r.Some? && r.value.0 == v
  }

  /** The listing built from a directory's files in the order they are found;
      a later file with the same version replaces the earlier one. */
  function Enumerated(files: seq<string>, camelize: string -> string): (m: Listing)
    ensures forall v :: v in m ==> v > 0
  {
    if files == [] then map[]
    else
      var m := Enumerated(files[..|files| - 1], camelize);
      var r := ParseFile(files[|files| - 1], camelize);
      if r.Some? then m[r.value.0 := r.value.1] else m
  }

  lemma {:induction false} DecimalRoundTrip(n: nat)
    ensures DecimalValue(Decimal(n)) == n
  {
    if n >= 10 {
      DecimalRoundTrip(n / 10);
      var d := Decimal(n);
      assert d[..|d| - 1] == Decimal(n / 10);
    }
  }

  lemma {:induction false} LeadingZerosIgnored(k: nat, d: string)
    ensures DecimalValue(Zeros(k) + d) == DecimalValue(d)
  {
    if d == [] {
      assert Zeros(k) + d == Zeros(k);
      ZerosAreZero(k);
    } else {
      var s := Zeros(k) + d;
      assert s[..|s| - 1] == Zeros(k) + d[..|d| - 1];
      LeadingZerosIgnored(k, d[..|d| - 1]);
    }
  }

  lemma {:induction false} ZerosAreZero(k: nat)
    ensures DecimalValue(Zeros(k)) == 0
  {
    if k > 0 {
      assert Zeros(k)[..k - 1] == Zeros(k - 1);
      ZerosAreZero(k - 1);
    }
  }

  lemma {:induction false} LeadingDigitsOfDigits(a: string, b: string)
    requires AllDigits(a)
    requires b == [] || !IsDigit(b[0])
    ensures LeadingDigits(a + b) == a
  {
    if a != [] {
      assert (a + b)[1..] == a[1..] + b;
      LeadingDigitsOfDigits(a[1..], b);
      assert a == [a[0]] + a[1..];
    }
  }

  lemma {:induction false} SplitAtFirstUnderscore(a: string, b: string)
    requires '_' !in a
    ensures SplitAtUnderscore(a + "_" + b) == (a, b)
  {
    if a != [] {
      assert (a + "_" + b)[1..] == a[1..] + "_" + b;
      SplitAtFirstUnderscore(a[1..], b);
      assert a == [a[0]] + a[1..];
    } else {
      assert a + "_" + b == ['_'] + b;
    }
  }

  /** A numbered file `<zeros><n>_<rest>.php` with n > 0 is kept as version n,
      named by the file without ".php", with class camelize(rest). */
  lemma ParseNumberedFile(k: nat, n: nat, rest: string, camelize: string -> string)
    requires n > 0
    ensures var prefix := Zeros(k) + Decimal(n);
            ParseFile(prefix + "_" + rest + ".php", camelize)
              == Some((n as int, Definition(prefix + "_" + rest, camelize(rest))))
  {
    var prefix := Zeros(k) + Decimal(n);
    var file := prefix + "_" + rest + ".php";
    assert AllDigits(prefix);
    assert '_' !in prefix;
    assert file == prefix + "_" + (rest + ".php");
    SplitAtFirstUnderscore(prefix, rest + ".php");
    assert prefix + [] == prefix;
    LeadingDigitsOfDigits(prefix, []);
    LeadingZerosIgnored(k, Decimal(n));
    DecimalRoundTrip(n);
    assert WithoutExtension(file) == prefix + "_" + rest;
    assert WithoutExtension(rest + ".php") == rest;
  }

  /** A file whose version prefix is all zeros is skipped. */
  lemma ParseZeroVersionSkipped(k: nat, rest: string, camelize: string -> string)
    ensures ParseFile(Zeros(k) + "_" + rest, camelize) == None
  {
    var z := Zeros(k);
    assert '_' !in z;
    SplitAtFirstUnderscore(z, rest);
    assert z + [] == z;
    LeadingDigitsOfDigits(z, []);
    ZerosAreZero(k);
  }

  /** A version is listed exactly when some file is kept under it. */
  lemma {:induction false} EnumeratedKeys(files: seq<string>, camelize: string -> string, v: int)
    ensures v in Enumerated(files, camelize) <==> exists i :: 0 <= i < |files| && Kept(files[i], camelize, v)
  {
    if files != [] {
      var n := |files| - 1;
      var init := files[..n];
      EnumeratedKeys(init, camelize, v);
      assert forall i :: 0 <= i < n ==> files[i] == init[i];
      var m := Enumerated(files, camelize);
      if Kept(files[n], camelize, v) {
        assert v in m;
      } else {
        assert v in m <==> v in Enumerated(init, camelize);
      }
    }
  }

  /** A listed version carries the definition of the LAST file kept under it. */
  lemma {:induction false} EnumeratedLastWins(files: seq<string>, camelize: string -> string, v: int)
    requires v in Enumerated(files, camelize)
    ensures exists i :: 0 <= i < |files|
                        && ParseFile(files[i], camelize) == Some((v, Enumerated(files, camelize)[v]))
                        && forall j :: i < j < |files| ==> !Kept(files[j], camelize, v)
  {
    var n := |files| - 1;
    var init := files[..n];
    var m := Enumerated(files, camelize);
    var last := ParseFile(files[n], camelize);
    var k: int;
    if last.Some? && last.value.0 == v {
      k := n;
    } else {
      var before := Enumerated(init, camelize);
      assert v in before && m[v] == before[v];
      EnumeratedLastWins(init, camelize, v);
      k :| 0 <= k < n && ParseFile(init[k], camelize) == Some((v, before[v]))
           && forall j :: k < j < n ==> !Kept(init[j], camelize, v);
      assert files[k] == init[k];
      forall j | k < j < |files| ensures !Kept(files[j], camelize, v) {
        if j < n { assert files[j] == init[j]; } else { assert j == n && !(last.Some? && last.value.0 == v); }
      }
    }
    assert ParseFile(files[k], camelize) == Some((v, m[v]));
  }
}
