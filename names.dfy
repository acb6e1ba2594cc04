/**
 * File names and collation keys: `cleanTheInputs` (Application.java) turns a
 * path such as "./file1.txt" into the name "file1", and a worker stores line
 * `n` of that file under the key "file1-n".
 */
module Names {
  import opened Text

  // ---------------------------------------------------------------------------
  // String.split("\\.")
  // ---------------------------------------------------------------------------

  /** Every field between dots, empty ones included: "a..b." gives ["a", "", "b", ""]. */
  function Fields(s: string): (r: seq<string>)
    ensures |r| >= 1
    ensures forall i, j :: 0 <= i < |r| && 0 <= j < |r[i]| ==> r[i][j] != '.'
  {
    if s == [] then [""]
    else if s[0] == '.' then [""] + Fields(s[1..])
    else
      var rest := Fields(s[1..]);
      [[s[0]] + rest[0]] + rest[1..]
  }

  /** Puts the fields back together, a dot between each two. */
  function JoinDots(r: seq<string>): string
    requires |r| >= 1
  {
    if |r| == 1 then r[0] else r[0] + "." + JoinDots(r[1..])
  }

  lemma {:induction false} FieldsRoundTrip(s: string)
    ensures JoinDots(Fields(s)) == s
  {
    if s != [] {
      FieldsRoundTrip(s[1..]);
      var rest := Fields(s[1..]);
      if s[0] != '.' {
        var r := Fields(s);
        assert r[1..] == rest[1..];
        if |rest| == 1 {
          assert r == [[s[0]] + rest[0]];
        } else {
          assert JoinDots(r) == [s[0]] + rest[0] + "." + JoinDots(rest[1..]);
        }
      }
      assert s == [s[0]] + s[1..];
    }
  }

  function DropTrailingEmpty(r: seq<string>): (d: seq<string>)
    ensures |d| <= |r| && d == r[..|d|]
    ensures d == [] || d[|d| - 1] != ""
    ensures forall i :: |d| <= i < |r| ==> r[i] == ""
  {
    if r == [] || r[|r| - 1] != "" then r else DropTrailingEmpty(r[..|r| - 1])
  }

  /**
   * Java's `s.split("\\.")`: a string without a dot is returned whole;
   * otherwise the fields between dots, with trailing empty fields removed.
   */
  function JavaSplit(s: string): seq<string>
  {
    if '.' !in s then [s] else DropTrailingEmpty(Fields(s))
  }

  lemma NoDotOneField(s: string)
    requires '.' !in s
    ensures |Fields(s)| == 1
  {
    if s != [] {
      NoDotOneField(s[1..]);
    }
  }

  // ---------------------------------------------------------------------------
  // cleanTheInputs
  // ---------------------------------------------------------------------------

  /**
   * `cleanTheInputs` can take this input: the dot-split has a second field
   * and that field is not empty (`SplitNameIff` shows this is what
   * `str[1].substring(1, str[1].length())` on `s.split("\\.")` demands).
   */
  predicate ValidName(s: string)
  {
    var f := Fields(s);
    |f| >= 2 && f[1] != ""
  }

  /** The name of one input file: the second dot-field without its first character. */
  function CleanName(s: string): string
    requires ValidName(s)
  {
    Fields(s)[1][1..]
  }

  /**
   * The name can be cleaned exactly when Java's split has a non-empty second
   * field, and the cleaned name is that field without its first character.
   */
  lemma SplitNameIff(s: string)
    ensures ValidName(s) <==> |JavaSplit(s)| >= 2 && |JavaSplit(s)[1]| >= 1
    ensures ValidName(s) ==> CleanName(s) == JavaSplit(s)[1][1..]
  {
    if '.' !in s {
      NoDotOneField(s);
    } else {
      var f := Fields(s);
      var d := DropTrailingEmpty(f);
      assert |f| >= 2 && f[1] != "" ==> |d| >= 2;
    }
  }

  lemma {:induction false} FieldsNoDot(a: string)
    requires '.' !in a
    ensures Fields(a) == [a]
  {
    if a != [] {
      FieldsNoDot(a[1..]);
      assert a == [a[0]] + a[1..];
    }
  }

  lemma {:induction false} FieldsFirstDot(a: string, b: string)
    requires '.' !in a
    ensures Fields(a + "." + b) == [a] + Fields(b)
  {
    var s := a + "." + b;
    if a == [] {
      assert s == "." + b && s[1..] == b;
    } else {
      assert s[1..] == a[1..] + "." + b;
      FieldsFirstDot(a[1..], b);
      assert a == [a[0]] + a[1..];
    }
  }

  /** A path "<dir>.<p>.<ext>" (no further dots) cleans to `p` minus its first character. */
  lemma CleanPath(dir: string, p: string, ext: string)
    requires '.' !in dir && '.' !in p && '.' !in ext
    requires p != "" && ext != ""
    ensures ValidName(dir + "." + p + "." + ext)
    ensures CleanName(dir + "." + p + "." + ext) == p[1..]
  {
    var s := dir + "." + p + "." + ext;
    assert s == dir + "." + (p + "." + ext);
    FieldsNoDot(ext);
    FieldsFirstDot(p, ext);
    FieldsFirstDot(dir, p + "." + ext);
    assert Fields(s) == [dir, p, ext];
  }

  lemma CleanFileOne()
    ensures ValidName("./file1.txt") && CleanName("./file1.txt") == "file1"
  {
    assert "./file1.txt" == "" + "." + "/file1" + "." + "txt";
    CleanPath("", "/file1", "txt");
  }

  /** `cleanTheInputs(data)`: the names of the inputs, in order. */
  function CleanTheInputs(data: seq<string>): (list: seq<string>)
    requires forall i :: 0 <= i < |data| ==> ValidName(data[i])
    ensures |list| == |data|
  {
    if data == [] then []
    else CleanTheInputs(data[..|data| - 1]) + [CleanName(data[|data| - 1])]
  }

  /** Each input's name sits at the input's position. */
  lemma {:induction false} CleanTheInputsAt(data: seq<string>, i: nat)
    requires forall i :: 0 <= i < |data| ==> ValidName(data[i])
    requires i < |data|
    ensures CleanTheInputs(data)[i] == CleanName(data[i])
  {
    var init := data[..|data| - 1];
    assert CleanTheInputs(data) == CleanTheInputs(init) + [CleanName(data[|data| - 1])];
    if i < |init| {
      CleanTheInputsAt(init, i);
      assert init[i] == data[i];
    }
  }

  // ---------------------------------------------------------------------------
  // Collation keys
  // ---------------------------------------------------------------------------

  /** The key a worker stores line `line` of file `name` under: `name + "-" + line`. */
  function Key(name: string, line: nat): string
  {
    name + "-" + Decimal(line)
  }

  /** Index of the last '-' in `s`, or -1. */
  function LastDash(s: string): (i: int)
    ensures -1 <= i < |s|
    ensures i >= 0 ==> s[i] == '-'
    ensures forall j :: i < j < |s| ==> s[j] != '-'
  {
    if s == [] then -1
    else if s[|s| - 1] == '-' then |s| - 1
    else LastDash(s[..|s| - 1])
  }

  function AllDigits(s: string): bool
  {
    forall i :: 0 <= i < |s| ==> IsDigit(s[i])
  }

  datatype KeyParts = KeyParts(name: string, line: nat)
  datatype Option<T> = None | Some(value: T)

  /** Splits a key at its last '-' into the file name and the line number. */
  function ParseKey(k: string): Option<KeyParts>
  {
    var d := LastDash(k);
    if d < 0 || d + 1 == |k| || !AllDigits(k[d + 1..]) then None
    else Some(KeyParts(k[..d], ParseDecimal(k[d + 1..])))
  }

  lemma LastDashOfKey(name: string, line: nat)
    ensures LastDash(Key(name, line)) == |name|
  {
    var k := Key(name, line);
    var d := LastDash(k);
    assert k[|name|] == '-';
    assert forall j :: |name| < j < |k| ==> k[j] == Decimal(line)[j - |name| - 1];
  }

  /**
   * The line number is the decimal suffix after the last '-', which holds no
   * '-' itself, so a key can be split back into its file name and line.
   */
  lemma KeyRoundTrip(name: string, line: nat)
    ensures ParseKey(Key(name, line)) == Some(KeyParts(name, line))
  {
    var k := Key(name, line);
    LastDashOfKey(name, line);
    assert k[..|name|] == name;
    assert k[|name| + 1..] == Decimal(line);
    DecimalRoundTrip(line);
  }

  /** Distinct (name, line) pairs give distinct keys. */
  lemma KeyInjective(a: string, m: nat, b: string, n: nat)
    requires Key(a, m) == Key(b, n)
    ensures a == b && m == n
  {
    KeyRoundTrip(a, m);
    KeyRoundTrip(b, n);
  }
}
