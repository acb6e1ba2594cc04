/**
 * The collation store as values: `temp` maps a key "<name>-<line>" to the
 * translated text and `forCounter` maps a line number to the number of files
 * that have delivered that line.  The class in module Application holds these
 * maps in fields; the functions here say what its methods compute, and the
 * lemmas state the invariants and the shape of the batch output.
 */
module Collation {
  import opened Text
  import opened Names

  datatype Store = Store(temp: map<string, string>, forCounter: map<int, int>)

  // ---------------------------------------------------------------------------
  // The record step of a worker
  // ---------------------------------------------------------------------------

  /** `forCounter` after one more arrival for `line`: old count + 1, or 1 if absent. */
  function Bump(fc: map<int, int>, line: int): (r: map<int, int>)
    ensures r.Keys == fc.Keys + {line}
    ensures r[line] == (if line in fc then fc[line] + 1 else 1)
    ensures forall n :: n in fc && n != line ==> r[n] == fc[n]
  {
    if line in fc then fc[line := fc[line] + 1] else fc[line := 1]
  }

  /** One successful line: store the text under its key and count the arrival. */
  function Record(st: Store, name: string, line: nat, text: string): Store
  {
    Store(st.temp[Key(name, line) := text], Bump(st.forCounter, line))
  }

  /** One worker's successful lines: `texts[i]` is line i + 1 of `name`. */
  function RecordLines(st: Store, name: string, texts: seq<string>): Store
    decreases |texts|
  {
    if texts == [] then st
    else Record(RecordLines(st, name, texts[..|texts| - 1]), name, |texts|, texts[|texts| - 1])
  }

  lemma BumpCommutes(fc: map<int, int>, m: int, n: int)
    ensures Bump(Bump(fc, m), n) == Bump(Bump(fc, n), m)
  {
    var a, b := Bump(Bump(fc, m), n), Bump(Bump(fc, n), m);
    assert a.Keys == b.Keys;
    forall k | k in a ensures a[k] == b[k] {
    }
  }

  /**
   * Record steps of different (file, line) pairs commute, so the maps that
   * concurrent workers leave behind do not depend on how their steps interleave.
   */
  lemma RecordCommutes(st: Store, a: string, m: nat, x: string, b: string, n: nat, y: string)
    requires a != b || m != n
    ensures Record(Record(st, a, m, x), b, n, y) == Record(Record(st, b, n, y), a, m, x)
  {
    if Key(a, m) == Key(b, n) {
      KeyInjective(a, m, b, n);
    }
    BumpCommutes(st.forCounter, m, n);
    var t := st.temp;
    assert t[Key(a, m) := x][Key(b, n) := y] == t[Key(b, n) := y][Key(a, m) := x];
  }

  /** Adding a key that `k` is not leaves the entry for `k` as it was. */
  lemma OtherKeyUnchanged(temp: map<string, string>, k: string, k': string, x: string)
    requires k' != k
    ensures (k' in temp[k := x]) == (k' in temp)
    ensures k' in temp ==> temp[k := x][k'] == temp[k']
  {
  }

  /**
   * A worker that translated |texts| lines of a file not seen before adds
   * exactly the keys name-1 .. name-|texts|, holding those texts, and changes
   * no existing entry.
   */
  lemma {:induction false} RecordLinesTemp(st: Store, name: string, texts: seq<string>)
    requires forall n: nat :: Key(name, n) !in st.temp
    ensures var r := RecordLines(st, name, texts);
      && (forall n: nat :: Key(name, n) in r.temp <==> 1 <= n <= |texts|)
      && (forall n: nat :: 1 <= n <= |texts| ==> r.temp[Key(name, n)] == texts[n - 1])
      && (forall k :: k in st.temp ==> k in r.temp && r.temp[k] == st.temp[k])
      && (forall k :: k in r.temp && k !in st.temp ==> exists n: nat :: 1 <= n <= |texts| && k == Key(name, n))
  {
    if texts != [] {
      var k := |texts|;
      var prefix := texts[..k - 1];
      RecordLinesTemp(st, name, prefix);
      var p := RecordLines(st, name, prefix);
      var r := RecordLines(st, name, texts);
      assert r.temp == p.temp[Key(name, k) := texts[k - 1]];
      forall n: nat
        ensures Key(name, n) in r.temp <==> 1 <= n <= k
      {
        if Key(name, n) == Key(name, k) { KeyInjective(name, n, name, k); }
      }
      forall n: nat | 1 <= n <= k
        ensures r.temp[Key(name, n)] == texts[n - 1]
      {
        if n < k {
          if Key(name, n) == Key(name, k) { KeyInjective(name, n, name, k); }
          assert prefix[n - 1] == texts[n - 1];
        }
      }
      assert Key(name, k) !in p.temp;
    }
  }

  /** The worker counts one arrival for each of the lines 1 .. |texts| and no other. */
  lemma {:induction false} RecordLinesCounter(st: Store, name: string, texts: seq<string>)
    ensures var r := RecordLines(st, name, texts);
      && (forall n :: n in r.forCounter <==> n in st.forCounter || 1 <= n <= |texts|)
      && (forall n :: n in r.forCounter ==>
            r.forCounter[n] == (if n in st.forCounter then st.forCounter[n] else 0)
                               + (if 1 <= n <= |texts| then 1 else 0))
  {
    if texts != [] {
      RecordLinesCounter(st, name, texts[..|texts| - 1]);
    }
  }

  // ---------------------------------------------------------------------------
  // Buckets and batches
  // ---------------------------------------------------------------------------

  /**
   * The texts stored for line `line` over the file names, in the order of
   * the names, skipping names with no entry for that line.
   */
  function Bucket(temp: map<string, string>, names: seq<string>, line: nat): seq<string>
  {
    if names == [] then []
    else
      var k := Key(names[|names| - 1], line);
      Bucket(temp, names[..|names| - 1], line) + (if k in temp then [temp[k]] else [])
  }

  /** A bucket holds at most one text per name, and is full exactly when every name has one. */
  lemma {:induction false} BucketSize(temp: map<string, string>, names: seq<string>, line: nat)
    ensures |Bucket(temp, names, line)| <= |names|
    ensures |Bucket(temp, names, line)| == |names| <==>
      forall i :: 0 <= i < |names| ==> Key(names[i], line) in temp
  {
    if names != [] {
      var init := names[..|names| - 1];
      BucketSize(temp, init, line);
      assert forall i :: 0 <= i < |init| ==> names[i] == init[i];
    }
  }

  /** Every text stored under one of the names for the line is in its bucket. */
  lemma {:induction false} BucketHas(temp: map<string, string>, names: seq<string>, line: nat, i: nat)
    requires i < |names| && Key(names[i], line) in temp
    ensures temp[Key(names[i], line)] in Bucket(temp, names, line)
  {
    if i < |names| - 1 {
      BucketHas(temp, names[..|names| - 1], line, i);
    }
  }

  /** Every text in a bucket is stored under one of the names for that line. */
  lemma {:induction false} BucketFrom(temp: map<string, string>, names: seq<string>, line: nat, x: string)
    requires x in Bucket(temp, names, line)
    ensures exists i :: 0 <= i < |names| && Key(names[i], line) in temp && temp[Key(names[i], line)] == x
  {
    var init := names[..|names| - 1];
    var k := Key(names[|names| - 1], line);
    if !(k in temp && temp[k] == x) {
      BucketFrom(temp, init, line, x);
      var i :| 0 <= i < |init| && Key(init[i], line) in temp && temp[Key(init[i], line)] == x;
      assert names[i] == init[i];
    }
  }

  /** A bucket is empty exactly when no name has an entry for the line. */
  lemma BucketEmpty(temp: map<string, string>, names: seq<string>, line: nat)
    ensures Bucket(temp, names, line) == [] <==>
      forall i :: 0 <= i < |names| ==> Key(names[i], line) !in temp
  {
    if Bucket(temp, names, line) != [] {
      BucketFrom(temp, names, line, Bucket(temp, names, line)[0]);
    }
    forall i | 0 <= i < |names| && Key(names[i], line) in temp
      ensures Bucket(temp, names, line) != []
    {
      BucketHas(temp, names, line, i);
    }
  }

  /** The bucket only looks at the keys of its names for its line. */
  lemma {:induction false} BucketFrame(t: map<string, string>, t': map<string, string>, names: seq<string>, line: nat)
    requires forall i :: 0 <= i < |names| ==>
      (Key(names[i], line) in t <==> Key(names[i], line) in t') &&
      (Key(names[i], line) in t ==> t[Key(names[i], line)] == t'[Key(names[i], line)])
    ensures Bucket(t, names, line) == Bucket(t', names, line)
  {
    if names != [] {
      BucketFrame(t, t', names[..|names| - 1], line);
    }
  }

  /** Extending the names by one appends that name's entry, if any. */
  lemma BucketSnoc(temp: map<string, string>, names: seq<string>, name: string, line: nat)
    ensures Bucket(temp, names + [name], line) ==
      Bucket(temp, names, line) + (if Key(name, line) in temp then [temp[Key(name, line)]] else [])
  {
    assert (names + [name])[..|names|] == names;
  }

  /**
   * Storing a new key of one of (distinct) names for this line adds exactly
   * one text to the bucket.
   */
  lemma {:induction false} BucketGrows(temp: map<string, string>, names: seq<string>, p: nat, line: nat, x: string)
    requires p < |names|
    requires forall i, j :: 0 <= i < j < |names| ==> names[i] != names[j]
    requires Key(names[p], line) !in temp
    ensures multiset(Bucket(temp[Key(names[p], line) := x], names, line))
         == multiset(Bucket(temp, names, line)) + multiset{x}
  {
    var k := Key(names[p], line);
    var t' := temp[k := x];
    var init := names[..|names| - 1];
    var kl := Key(names[|names| - 1], line);
    var b, b' := Bucket(temp, init, line), Bucket(t', init, line);
    var e, e' := (if kl in temp then [temp[kl]] else []), (if kl in t' then [t'[kl]] else []);
    assert Bucket(temp, names, line) == b + e;
    assert Bucket(t', names, line) == b' + e';
    if p == |names| - 1 {
      forall i | 0 <= i < |init|
        ensures (Key(init[i], line) in temp <==> Key(init[i], line) in t')
        ensures Key(init[i], line) in temp ==> temp[Key(init[i], line)] == t'[Key(init[i], line)]
      {
        if Key(init[i], line) == k { KeyInjective(init[i], line, names[p], line); }
      }
      BucketFrame(temp, t', init, line);
      assert b' + e' == b + [x] && b + e == b;
    } else {
      BucketGrows(temp, init, p, line, x);
      if kl == k { KeyInjective(names[|names| - 1], line, names[p], line); }
      assert e' == e;
      MultisetSwap(multiset(b), multiset(e), multiset{x});
    }
  }

  lemma MultisetSwap(a: multiset<string>, b: multiset<string>, c: multiset<string>)
    ensures a + c + b == a + b + c
  {
  }

  /**
   * What an emitter writes for the lines 1 .. last: for each line in
   * increasing order, that line's bucket sorted lexicographically.
   */
  function Batches(temp: map<string, string>, names: seq<string>, last: nat): seq<string>
  {
    if last == 0 then [] else Batches(temp, names, last - 1) + Sort(Bucket(temp, names, last))
  }

  /** Emitting the batch of the next line extends the output by that line's sorted bucket. */
  lemma NextBatch(prior: seq<string>, temp: map<string, string>, names: seq<string>, line: nat)
    requires line >= 1
    ensures prior + Batches(temp, names, line - 1) + Sort(Bucket(temp, names, line))
         == prior + Batches(temp, names, line)
  {
  }

  /** When every name holds every line 1 .. last, the output has one text per name per line. */
  lemma {:induction false} BatchesFullLength(temp: map<string, string>, names: seq<string>, last: nat)
    requires forall n: nat, i :: 1 <= n <= last && 0 <= i < |names| ==> Key(names[i], n) in temp
    ensures |Batches(temp, names, last)| == last * |names|
  {
    if last > 0 {
      var before := |Batches(temp, names, last - 1)|;
      assert before == (last - 1) * |names| by {
        BatchesFullLength(temp, names, last - 1);
      }
      assert |Batches(temp, names, last)| == before + |names| by {
        BucketSize(temp, names, last);
        SortSorted(Bucket(temp, names, last));
      }
      assert (last - 1) * |names| + |names| == last * |names|;
    }
  }

  lemma {:induction false} BatchesPrefix(temp: map<string, string>, names: seq<string>, m: nat, last: nat)
    requires m <= last
    ensures |Batches(temp, names, m)| <= |Batches(temp, names, last)|
    ensures Batches(temp, names, m) == Batches(temp, names, last)[..|Batches(temp, names, m)|]
    decreases last
  {
    if m < last {
      BatchesPrefix(temp, names, m, last - 1);
      var a, b := Batches(temp, names, m), Batches(temp, names, last - 1);
      var c := Batches(temp, names, last);
      assert c == b + Sort(Bucket(temp, names, last));
      assert c[..|b|] == b;
      assert c[..|a|] == b[..|a|];
    }
  }

  /**
   * The batch output is laid out bucket by bucket: the segment for line `n`
   * follows the segments for all smaller lines and holds the texts of line
   * `n`, sorted.
   */
  lemma BatchesLayout(temp: map<string, string>, names: seq<string>, last: nat, n: nat)
    requires 1 <= n <= last
    ensures |Batches(temp, names, n - 1)| <= |Batches(temp, names, n)| <= |Batches(temp, names, last)|
    ensures Batches(temp, names, last)[|Batches(temp, names, n - 1)|..|Batches(temp, names, n)|]
         == Sort(Bucket(temp, names, n))
    ensures Sorted(Sort(Bucket(temp, names, n)))
    ensures multiset(Sort(Bucket(temp, names, n))) == multiset(Bucket(temp, names, n))
  {
    BatchesPrefix(temp, names, n, last);
    SortSorted(Bucket(temp, names, n));
    var whole := Batches(temp, names, last);
    var upTo := Batches(temp, names, n);
    assert upTo == Batches(temp, names, n - 1) + Sort(Bucket(temp, names, n));
    assert whole[..|upTo|] == upTo;
  }

  /**
   * Nothing lost: every text stored under one of the names for one of the
   * lines 1 .. last appears in the batch output.
   */
  lemma {:induction false} BatchesHave(temp: map<string, string>, names: seq<string>, last: nat, i: nat, n: nat)
    requires i < |names| && 1 <= n <= last && Key(names[i], n) in temp
    ensures temp[Key(names[i], n)] in Batches(temp, names, last)
  {
    var x := temp[Key(names[i], n)];
    var b := Bucket(temp, names, last);
    var before := Batches(temp, names, last - 1);
    assert Batches(temp, names, last) == before + Sort(b);
    if n < last {
      BatchesHave(temp, names, last - 1, i, n);
      assert x in before;
    } else {
      BucketHas(temp, names, n, i);
      SortSameElements(b, x);
    }
  }

  /**
   * Nothing spurious: every text in the batch output for lines 1 .. last is
   * stored under one of the names for one of those lines.
   */
  lemma {:induction false} BatchesFrom(temp: map<string, string>, names: seq<string>, last: nat, x: string)
    requires x in Batches(temp, names, last)
    ensures exists i, n: nat ::
      0 <= i < |names| && 1 <= n <= last && Key(names[i], n) in temp && temp[Key(names[i], n)] == x
  {
    var b := Bucket(temp, names, last);
    var before := Batches(temp, names, last - 1);
    assert Batches(temp, names, last) == before + Sort(b);
    if x in before {
      BatchesFrom(temp, names, last - 1, x);
    } else {
      SortSameElements(b, x);
      BucketFrom(temp, names, last, x);
    }
  }

  // ---------------------------------------------------------------------------
  // The store invariant
  // ---------------------------------------------------------------------------

  ghost predicate Distinct(names: seq<string>)
  {
    forall i, j :: 0 <= i < j < |names| ==> names[i] != names[j]
  }

  /** Every key is a key of one of the names for a line from 1 up. */
  ghost predicate KeysOwned(st: Store, names: seq<string>)
  {
    forall nm, n: nat :: Key(nm, n) in st.temp ==> nm in names && n >= 1
  }

  /** A name that holds line n + 1 (n >= 1) holds line n as well. */
  ghost predicate LinesContiguous(st: Store)
  {
    forall nm, n: nat :: Key(nm, n + 1) in st.temp && n >= 1 ==> Key(nm, n) in st.temp
  }

  /** Every line some name holds is counted. */
  ghost predicate LinesCounted(st: Store, names: seq<string>)
  {
    forall nm, n: nat :: nm in names && Key(nm, n) in st.temp ==> n in st.forCounter
  }

  /** Each counted line is at least 1 and its count is the size of its bucket, at least 1. */
  ghost predicate CountsMatch(st: Store, names: seq<string>)
  {
    && (forall n :: n in st.forCounter ==> n >= 1)
    && (forall n: nat :: n in st.forCounter ==>
          st.forCounter[n] >= 1 && st.forCounter[n] == |Bucket(st.temp, names, n)|)
  }

  /**
   * The store after whole worker runs over the (cleaned) file names `names`:
   * keys belong to those names and start at line 1; each name holds a
   * contiguous run of lines; a line is counted exactly when some name holds
   * it, and its count is the number of names that do (the bucket size).
   */
  ghost predicate Consistent(st: Store, names: seq<string>)
  {
    KeysOwned(st, names) && LinesContiguous(st) && LinesCounted(st, names) && CountsMatch(st, names)
  }

  lemma EmptyConsistent(names: seq<string>)
    ensures Consistent(Store(map[], map[]), names)
  {
  }

  /** A name that holds line n holds every line 1 .. n. */
  lemma {:induction false} HoldsAllBelow(st: Store, names: seq<string>, nm: string, n: nat, m: nat)
    requires Consistent(st, names)
    requires Key(nm, n) in st.temp && 1 <= m <= n
    ensures Key(nm, m) in st.temp
    decreases n
  {
    if m < n {
      assert Key(nm, (n - 1) + 1) in st.temp;
      HoldsAllBelow(st, names, nm, n - 1, m);
    }
  }

  /** Every count lies between 1 and the number of files. */
  lemma CountsBounded(st: Store, names: seq<string>)
    requires Consistent(st, names)
    ensures forall n :: n in st.forCounter ==> 1 <= st.forCounter[n] <= |names|
  {
    forall n | n in st.forCounter {
      CountBounded(st, names, n);
    }
  }

  lemma CountBounded(st: Store, names: seq<string>, n: int)
    requires Consistent(st, names) && n in st.forCounter
    ensures 1 <= st.forCounter[n] <= |names|
  {
    BucketSize(st.temp, names, n);
  }

  /** The counted lines are 1 .. max, with no gap. */
  lemma CountsContiguous(st: Store, names: seq<string>)
    requires Consistent(st, names)
    ensures forall n, m :: n in st.forCounter && 1 <= m <= n ==> m in st.forCounter
  {
    forall n, m | n in st.forCounter && 1 <= m <= n ensures m in st.forCounter {
      var b := Bucket(st.temp, names, n);
      BucketFrom(st.temp, names, n, b[0]);
      var i :| 0 <= i < |names| && Key(names[i], n) in st.temp && st.temp[Key(names[i], n)] == b[0];
      HoldsAllBelow(st, names, names[i], n, m);
    }
  }

  /** A name that has not run yet can join the names without breaking the invariant. */
  lemma ConsistentAddName(st: Store, names: seq<string>, name: string)
    requires Consistent(st, names) && name !in names
    ensures Consistent(st, names + [name])
    ensures forall n: nat :: Key(name, n) !in st.temp
  {
    forall n: nat ensures Bucket(st.temp, names + [name], n) == Bucket(st.temp, names, n) {
      BucketSnoc(st.temp, names, name, n);
    }
  }

  /** The record step touches only the bucket of its own line. */
  lemma RecordOtherLine(st: Store, names: seq<string>, name: string, line: nat, x: string, n: nat)
    requires n != line
    ensures Bucket(Record(st, name, line, x).temp, names, n) == Bucket(st.temp, names, n)
  {
    var k := Key(name, line);
    var t' := Record(st, name, line, x).temp;
    forall i | 0 <= i < |names|
      ensures (Key(names[i], n) in st.temp <==> Key(names[i], n) in t')
      ensures Key(names[i], n) in st.temp ==> st.temp[Key(names[i], n)] == t'[Key(names[i], n)]
    {
      if Key(names[i], n) == k { KeyInjective(names[i], n, name, line); }
      OtherKeyUnchanged(st.temp, k, Key(names[i], n), x);
    }
    BucketFrame(st.temp, t', names, n);
  }

  /** Recording the next line of one of the names keeps the key-shape parts of the invariant. */
  lemma RecordKeepsKeyShape(st: Store, names: seq<string>, p: nat, j: nat, x: string)
    requires Consistent(st, names) && p < |names|
    requires forall n: nat :: Key(names[p], n) in st.temp <==> 1 <= n <= j
    ensures var r := Record(st, names[p], j + 1, x);
      KeysOwned(r, names) && LinesContiguous(r) && LinesCounted(r, names)
  {
    var name := names[p];
    var k := Key(name, j + 1);
    forall nm, n: nat | Key(nm, n) == k ensures nm == name && n == j + 1 {
      KeyInjective(nm, n, name, j + 1);
    }
  }

  /** Recording a new key of one of the names keeps every count equal to its bucket size. */
  lemma RecordKeepsCounts(st: Store, names: seq<string>, p: nat, line: nat, x: string)
    requires CountsMatch(st, names) && Distinct(names) && p < |names| && line >= 1
    requires Key(names[p], line) !in st.temp
    requires line !in st.forCounter ==> Bucket(st.temp, names, line) == []
    ensures CountsMatch(Record(st, names[p], line, x), names)
  {
    var r := Record(st, names[p], line, x);
    var before := Bucket(st.temp, names, line);
    var grown := Bucket(r.temp, names, line);
    BucketGrows(st.temp, names, p, line, x);
    assert |grown| == |multiset(grown)| == |multiset(before)| + 1 == |before| + 1;
    assert r.forCounter[line] == |grown|;
    forall n | n in r.forCounter
      ensures n >= 1 && r.forCounter[n] >= 1 && r.forCounter[n] == |Bucket(r.temp, names, n)|
    {
      if n != line {
        RecordOtherLine(st, names, names[p], line, x, n);
      }
    }
  }

  /** Recording the next line of one of the names keeps the invariant. */
  lemma ConsistentRecord(st: Store, names: seq<string>, p: nat, j: nat, x: string)
    requires Consistent(st, names) && Distinct(names) && p < |names|
    requires forall n: nat :: Key(names[p], n) in st.temp <==> 1 <= n <= j
    ensures Consistent(Record(st, names[p], j + 1, x), names)
  {
    RecordKeepsKeyShape(st, names, p, j, x);
    if j + 1 !in st.forCounter {
      BucketEmpty(st.temp, names, j + 1);
    }
    RecordKeepsCounts(st, names, p, j + 1, x);
  }

  /** A whole worker run over a new name keeps the invariant for the extended names. */
  lemma {:induction false} ConsistentRecordLines(st: Store, names: seq<string>, name: string, texts: seq<string>)
    requires Consistent(st, names) && Distinct(names) && name !in names
    ensures Consistent(RecordLines(st, name, texts), names + [name])
    ensures Distinct(names + [name])
    decreases |texts|
  {
    var names' := names + [name];
    ConsistentAddName(st, names, name);
    if texts != [] {
      var k := |texts|;
      var prefix := texts[..k - 1];
      ConsistentRecordLines(st, names, name, prefix);
      RecordLinesTemp(st, name, prefix);
      var p := RecordLines(st, name, prefix);
      assert names'[|names|] == name;
      ConsistentRecord(p, names', |names|, k - 1, texts[k - 1]);
    }
  }

  // ---------------------------------------------------------------------------
  // The highest counted line
  // ---------------------------------------------------------------------------

  /** The largest line number in `forCounter` (0 when it is empty). */
  ghost function Top(fc: map<int, int>): (t: nat)
    ensures forall n :: n in fc ==> n <= t
    ensures t == 0 || t in fc
  {
    MaxOrZero(fc.Keys)
  }

  ghost function MaxOrZero(s: set<int>): (t: nat)
    ensures forall n :: n in s ==> n <= t
    ensures t == 0 || t in s
    decreases |s|
  {
    if s == {} then 0
    else
      NonEmptyHasElement(s);
      var x :| x in s;
      var rest := MaxOrZero(s - {x});
      assert forall n :: n in s ==> n == x || n in s - {x};
      if x > rest then x else rest
  }

  lemma NonEmptyMapHasKey(fc: map<int, int>)
    requires |fc| != 0
    ensures exists n :: n in fc
  {
    NonEmptyHasElement(fc.Keys);
  }

  /** The lines still counted in `fc` are exactly the lines of `fc0` from `counter` up. */
  ghost predicate Pending(fc: map<int, int>, fc0: map<int, int>, counter: int)
  {
    forall n :: n in fc <==> n in fc0 && n >= counter
  }

  /**
   * While lines are pending, the next one is at most the highest line of
   * `fc0`; retiring it leaves the lines above it pending; and when the lines
   * of `fc0` run from 1 without a gap, the next line is itself counted.
   */
  lemma PendingRetire(fc: map<int, int>, fc0: map<int, int>, counter: int)
    requires Pending(fc, fc0, counter) && |fc| != 0
    ensures counter <= Top(fc0)
    ensures Pending(fc - {counter}, fc0, counter + 1)
    ensures (forall n, m :: n in fc0 && 1 <= m <= n ==> m in fc0) && counter >= 1 ==> counter in fc
  {
    NonEmptyMapHasKey(fc);
    var some :| some in fc;
    assert some in fc0 && some >= counter;
  }

  /** Once no line is pending, the loop has passed the highest line of `fc0`. */
  lemma PendingDone(fc: map<int, int>, fc0: map<int, int>, counter: int)
    requires Pending(fc, fc0, counter) && |fc| == 0
    requires 1 <= counter <= Top(fc0) + 1
    ensures counter == Top(fc0) + 1
  {
    if Top(fc0) in fc0 {
      assert Top(fc0) !in fc;
    }
  }

  lemma NonEmptyHasElement(s: set<int>)
    requires s != {}
    ensures exists x :: x in s
  {
    if forall x :: x !in s {
      assert false;
    }
  }

  /** Batches stop growing once every further bucket is empty. */
  lemma {:induction false} BatchesStop(temp: map<string, string>, names: seq<string>, t: nat, last: nat)
    requires t <= last
    requires forall n: nat :: t < n <= last ==> Bucket(temp, names, n) == []
    ensures Batches(temp, names, last) == Batches(temp, names, t)
    decreases last
  {
    if last > t {
      BatchesStop(temp, names, t, last - 1);
      var b := Bucket(temp, names, last);
      assert b == [];
      assert |Sort(b)| == 0;
      assert Batches(temp, names, last) == Batches(temp, names, last - 1) + Sort(b);
    }
  }

  /** Beyond the highest counted line every bucket is empty, so batches stop growing. */
  lemma BatchesBeyondTop(st: Store, names: seq<string>, last: nat)
    requires Consistent(st, names) && last >= Top(st.forCounter)
    ensures Batches(st.temp, names, last) == Batches(st.temp, names, Top(st.forCounter))
  {
    var t := Top(st.forCounter);
    forall n: nat | t < n <= last ensures Bucket(st.temp, names, n) == [] {
      assert n !in st.forCounter;
      BucketEmpty(st.temp, names, n);
    }
    BatchesStop(st.temp, names, t, last);
  }
}
