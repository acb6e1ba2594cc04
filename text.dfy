/**
 * Strings as the collation engine sees them: the lexicographic order that
 * `String.compareTo` imposes (and hence `Collections.sort` on a list of
 * strings), a sort specified by that order, and the decimal rendering of a
 * line number (`Integer.toString`).
 */
module Text {

  // ---------------------------------------------------------------------------
  // Lexicographic order
  // ---------------------------------------------------------------------------

  /** `a.compareTo(b) <= 0`: compare character by character; a proper prefix comes first. */
  predicate LexLe(a: string, b: string)
  {
    if a == [] then true
    else if b == [] then false
    else if a[0] != b[0] then a[0] < b[0]
    else LexLe(a[1..], b[1..])
  }

  lemma {:induction false} LexLeReflexive(a: string)
    ensures LexLe(a, a)
  {
    if a != [] {
      LexLeReflexive(a[1..]);
    }
  }

  lemma {:induction false} LexLeTotal(a: string, b: string)
    ensures LexLe(a, b) || LexLe(b, a)
  {
    if a != [] && b != [] && a[0] == b[0] {
      LexLeTotal(a[1..], b[1..]);
    }
  }

  lemma {:induction false} LexLeAntisymmetric(a: string, b: string)
    requires LexLe(a, b) && LexLe(b, a)
    ensures a == b
  {
    if a != [] && b != [] {
      LexLeAntisymmetric(a[1..], b[1..]);
      assert a == [a[0]] + a[1..] && b == [b[0]] + b[1..];
    }
  }

  lemma {:induction false} LexLeTransitive(a: string, b: string, c: string)
    requires LexLe(a, b) && LexLe(b, c)
    ensures LexLe(a, c)
  {
    if a != [] && b != [] && c != [] && a[0] == b[0] && b[0] == c[0] {
      LexLeTransitive(a[1..], b[1..], c[1..]);
    }
  }

  // ---------------------------------------------------------------------------
  // Sorting
  // ---------------------------------------------------------------------------

  /** Each element is at most the next one (non-decreasing order). */
  predicate Sorted(s: seq<string>)
  {
    |s| <= 1 || (LexLe(s[0], s[1]) && Sorted(s[1..]))
  }

  /** Places `x` before the first element it does not follow. */
  function Insert(x: string, s: seq<string>): seq<string>
  {
    if s == [] || LexLe(x, s[0]) then [x] + s
    else [s[0]] + Insert(x, s[1..])
  }

  lemma {:induction false} InsertSorted(x: string, s: seq<string>)
    requires Sorted(s)
    ensures Sorted(Insert(x, s))
    ensures multiset(Insert(x, s)) == multiset(s) + multiset{x}
    ensures Insert(x, s)[0] == x || (s != [] && Insert(x, s)[0] == s[0])
    decreases |s|
  {
    if s != [] && !LexLe(x, s[0]) {
      LexLeTotal(x, s[0]);
      InsertSorted(x, s[1..]);
      assert s == [s[0]] + s[1..];
    }
  }

  /**
   * What `Collections.sort` leaves in a list of strings (insertion sort here;
   * `SortedPermutationsEqual` shows that any sorting algorithm gives the same).
   */
  function Sort(s: seq<string>): seq<string>
  {
    if s == [] then [] else Insert(s[0], Sort(s[1..]))
  }

  /** The same strings, in non-decreasing lexicographic order. */
  lemma {:induction false} SortSorted(s: seq<string>)
    ensures Sorted(Sort(s))
    ensures multiset(Sort(s)) == multiset(s)
    ensures |Sort(s)| == |s|
  {
    if s != [] {
      SortSorted(s[1..]);
      InsertSorted(s[0], Sort(s[1..]));
      assert s == [s[0]] + s[1..];
      assert |Sort(s)| == |multiset(Sort(s))|;
    }
  }

  /** Sorting neither adds nor drops an element. */
  lemma SortSameElements(s: seq<string>, x: string)
    ensures x in Sort(s) <==> x in s
  {
    SortSorted(s);
    assert x in Sort(s) <==> x in multiset(Sort(s));
    assert x in s <==> x in multiset(s);
  }

  /** In a sorted sequence the first element is at most every element. */
  lemma {:induction false} FirstIsLeast(t: seq<string>, x: string)
    requires Sorted(t) && x in multiset(t)
    ensures t != [] && LexLe(t[0], x)
    decreases |t|
  {
    if t[0] == x {
      LexLeReflexive(x);
    } else {
      assert t == [t[0]] + t[1..];
      FirstIsLeast(t[1..], x);
      LexLeTransitive(t[0], t[1], x);
    }
  }

  lemma TailsAgree(t: seq<string>, u: seq<string>)
    requires t != [] && u != [] && t[0] == u[0]
    requires multiset(t) == multiset(u)
    ensures multiset(t[1..]) == multiset(u[1..])
  {
    assert t == [t[0]] + t[1..] && u == [u[0]] + u[1..];
    assert multiset(t) == multiset{t[0]} + multiset(t[1..]);
    assert multiset(u) == multiset{t[0]} + multiset(u[1..]);
    forall x ensures multiset(t[1..])[x] == multiset(u[1..])[x] {
      assert multiset(t)[x] == multiset{t[0]}[x] + multiset(t[1..])[x];
      assert multiset(u)[x] == multiset{t[0]}[x] + multiset(u[1..])[x];
    }
  }

  /**
   * A sorted permutation is unique: whatever algorithm the library uses, the
   * sorted list depends only on the multiset of its elements.
   */
  lemma {:induction false} SortedPermutationsEqual(t: seq<string>, u: seq<string>)
    requires Sorted(t) && Sorted(u)
    requires multiset(t) == multiset(u)
    ensures t == u
    decreases |t|
  {
    assert |t| == |multiset(t)| == |u|;
    if t != [] {
      assert t[0] in multiset(t) && u[0] in multiset(u);
      FirstIsLeast(u, t[0]);
      FirstIsLeast(t, u[0]);
      LexLeAntisymmetric(t[0], u[0]);
      TailsAgree(t, u);
      SortedPermutationsEqual(t[1..], u[1..]);
      assert t == [t[0]] + t[1..] && u == [u[0]] + u[1..];
    }
  }

  lemma SortDependsOnlyOnMultiset(s: seq<string>, s': seq<string>)
    requires multiset(s) == multiset(s')
    ensures Sort(s) == Sort(s')
  {
    SortSorted(s);
    SortSorted(s');
    SortedPermutationsEqual(Sort(s), Sort(s'));
  }

  // ---------------------------------------------------------------------------
  // Decimal numerals
  // ---------------------------------------------------------------------------

  predicate IsDigit(c: char)
  {
    '0' <= c <= '9'
  }

  function DigitChar(d: nat): (c: char)
    requires d < 10
    ensures IsDigit(c)
  {
    ('0' as int + d) as char
  }

  function DigitValue(c: char): (d: nat)
    requires IsDigit(c)
    ensures d < 10
  {
    c as int - '0' as int
  }

  /** `Integer.toString(n)` for a non-negative `n`: digits only, no leading zero. */
  function Decimal(n: nat): (s: string)
    ensures 1 <= |s|
    ensures forall i :: 0 <= i < |s| ==> IsDigit(s[i])
    ensures |s| > 1 ==> s[0] != '0'
  {
    if n < 10 then [DigitChar(n)] else Decimal(n / 10) + [DigitChar(n % 10)]
  }

  /** Reads a string of digits back as a number (`Integer.parseInt` on digits). */
  function ParseDecimal(s: string): nat
    requires forall i :: 0 <= i < |s| ==> IsDigit(s[i])
  {
    if s == [] then 0 else ParseDecimal(s[..|s| - 1]) * 10 + DigitValue(s[|s| - 1])
  }

  lemma {:induction false} DecimalRoundTrip(n: nat)
    ensures ParseDecimal(Decimal(n)) == n
  {
    if n >= 10 {
      DecimalRoundTrip(n / 10);
      var s := Decimal(n);
      assert s[..|s| - 1] == Decimal(n / 10);
    }
  }
}
