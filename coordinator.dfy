/**
 * The tail of `Application.main`: one worker per argument, then the input
 * names are cleaned, and once every worker has ended one of the two
 * emitters writes Batched.txt.  The workers run one after another here; the
 * record steps of different workers commute (`Collation.RecordCommutes`),
 * which is what makes the order of their interleaving irrelevant to the
 * maps they build.
 */
module Coordinator {
  import opened Text
  import opened Names
  import opened Collation
  import opened App
  import opened ProcessThreads

  /** What the worker phase leaves behind: the two maps, AsYouGo.txt, and the offline flag. */
  datatype Effect = Effect(store: Store, asYouGo: seq<string>, offline: bool)

  /** Every argument can be cleaned into a name. */
  predicate AllValid(args: seq<string>)
  {
    forall i :: 0 <= i < |args| ==> ValidName(args[i])
  }

  /**
   * The worker phase: worker `j` reads `contents[j]` (the lines of file
   * `args[j]`) and asks `trs[j]` for translations.  Each worker records its
   * lines under its cleaned name, appends them to AsYouGo.txt, and may set
   * the offline flag.
   */
  ghost function Workers(args: seq<string>, contents: seq<seq<string>>, trs: seq<string -> Reply>): Effect
    requires |contents| == |args| && |trs| == |args|
    decreases |args|
  {
    if args == [] then Effect(Store(map[], map[]), [], false)
    else
      var k := |args| - 1;
      var e := Workers(args[..k], contents[..k], trs[..k]);
      var o := Worker(args[k], contents[k], trs[k]);
      Effect(if ValidName(args[k]) then RecordLines(e.store, CleanName(args[k]), o.texts) else e.store,
             e.asYouGo + o.texts,
             e.offline || o.offline)
  }

  /** The phase with one more worker is the phase with that worker run last. */
  lemma WorkersNext(args: seq<string>, contents: seq<seq<string>>, trs: seq<string -> Reply>, j: nat)
    requires |contents| == |args| && |trs| == |args| && j < |args|
    ensures var e := Workers(args[..j], contents[..j], trs[..j]);
      var o := Worker(args[j], contents[j], trs[j]);
      Workers(args[..j + 1], contents[..j + 1], trs[..j + 1])
      == Effect(if ValidName(args[j]) then RecordLines(e.store, CleanName(args[j]), o.texts) else e.store,
                e.asYouGo + o.texts,
                e.offline || o.offline)
  {
    assert args[..j + 1][..j] == args[..j];
    assert contents[..j + 1][..j] == contents[..j];
    assert trs[..j + 1][..j] == trs[..j];
  }

  /** The flag is set exactly when some worker met an empty translation. */
  lemma {:induction false} WorkersOffline(args: seq<string>, contents: seq<seq<string>>, trs: seq<string -> Reply>)
    requires |contents| == |args| && |trs| == |args|
    ensures Workers(args, contents, trs).offline <==>
      exists j :: 0 <= j < |args| && Worker(args[j], contents[j], trs[j]).offline
    decreases |args|
  {
    if args != [] {
      var k := |args| - 1;
      var pa, pc, pt := args[..k], contents[..k], trs[..k];
      WorkersOffline(pa, pc, pt);
      var e := Workers(pa, pc, pt);
      var o := Worker(args[k], contents[k], trs[k]);
      assert Workers(args, contents, trs).offline == (e.offline || o.offline);
      if e.offline {
        var j :| 0 <= j < k && Worker(pa[j], pc[j], pt[j]).offline;
        assert pa[j] == args[j] && pc[j] == contents[j] && pt[j] == trs[j];
        assert Worker(args[j], contents[j], trs[j]).offline;
      } else if o.offline {
        assert Worker(args[k], contents[k], trs[k]).offline;
      }
      forall j | 0 <= j < |args| && Worker(args[j], contents[j], trs[j]).offline
        ensures Workers(args, contents, trs).offline
      {
        if j < k {
          assert pa[j] == args[j] && pc[j] == contents[j] && pt[j] == trs[j];
          assert Worker(pa[j], pc[j], pt[j]).offline;
          assert e.offline;
        } else {
          assert j == k;
        }
      }
    }
  }

  /** Every counted line number is at least 1. */
  lemma {:induction false} WorkersLinesPositive(args: seq<string>, contents: seq<seq<string>>, trs: seq<string -> Reply>)
    requires |contents| == |args| && |trs| == |args|
    ensures forall n :: n in Workers(args, contents, trs).store.forCounter ==> n >= 1
    decreases |args|
  {
    if args != [] {
      var k := |args| - 1;
      WorkersLinesPositive(args[..k], contents[..k], trs[..k]);
      var e := Workers(args[..k], contents[..k], trs[..k]);
      var o := Worker(args[k], contents[k], trs[k]);
      if ValidName(args[k]) {
        assert Workers(args, contents, trs).store == RecordLines(e.store, CleanName(args[k]), o.texts);
        RecordLinesCounter(e.store, CleanName(args[k]), o.texts);
      } else {
        assert Workers(args, contents, trs).store == e.store;
      }
    }
  }

  /** The number of lines each worker recorded, in argument order. */
  ghost function Lengths(args: seq<string>, contents: seq<seq<string>>, trs: seq<string -> Reply>): (ls: seq<nat>)
    requires |contents| == |args| && |trs| == |args|
    ensures |ls| == |args|
    ensures forall j :: 0 <= j < |args| ==> ls[j] == |Worker(args[j], contents[j], trs[j]).texts|
    decreases |args|
  {
    if args == [] then []
    else
      var k := |args| - 1;
      var init := Lengths(args[..k], contents[..k], trs[..k]);
      assert forall j :: 0 <= j < k ==> args[..k][j] == args[j] && contents[..k][j] == contents[j] && trs[..k][j] == trs[j];
      init + [|Worker(args[k], contents[k], trs[k]).texts|]
  }

  /** How many of the lengths reach line `n`, that is, how many files recorded line `n`. */
  function Reaching(ls: seq<nat>, n: int): (c: nat)
    ensures c <= |ls|
  {
    if ls == [] then 0
    else Reaching(ls[..|ls| - 1], n) + (if 1 <= n <= ls[|ls| - 1] then 1 else 0)
  }

  /**
   * At least one file recorded line `n` exactly when some length reaches
   * it; all of them did exactly when every length reaches it.
   */
  lemma {:induction false} ReachingRange(ls: seq<nat>, n: int)
    ensures Reaching(ls, n) >= 1 <==> exists j :: 0 <= j < |ls| && 1 <= n <= ls[j]
    ensures Reaching(ls, n) == |ls| <==> forall j :: 0 <= j < |ls| ==> 1 <= n <= ls[j]
  {
    if ls != [] {
      var k := |ls| - 1;
      var init := ls[..k];
      ReachingRange(init, n);
      assert forall j :: 0 <= j < k ==> init[j] == ls[j];
      if forall j :: 0 <= j < |ls| ==> 1 <= n <= ls[j] {
        assert Reaching(init, n) == k;
      }
      if exists j :: 0 <= j < |ls| && 1 <= n <= ls[j] {
        var j :| 0 <= j < |ls| && 1 <= n <= ls[j];
        if j < k {
          assert 1 <= n <= init[j];
        }
      }
    }
  }

  /**
   * After the workers, a line is counted exactly when some worker recorded
   * it, and its count is the number of workers that did.
   */
  lemma {:induction false} WorkersCounts(args: seq<string>, contents: seq<seq<string>>, trs: seq<string -> Reply>)
    requires |contents| == |args| && |trs| == |args|
    ensures var fc := Workers(args, contents, trs).store.forCounter;
      var ls := Lengths(args, contents, trs);
      forall n :: (n in fc <==> Reaching(ls, n) >= 1) && (n in fc ==> fc[n] == Reaching(ls, n))
    decreases |args|
  {
    if args != [] {
      var k := |args| - 1;
      WorkersCounts(args[..k], contents[..k], trs[..k]);
      var e := Workers(args[..k], contents[..k], trs[..k]);
      var o := Worker(args[k], contents[k], trs[k]);
      var ls := Lengths(args, contents, trs);
      assert ls[..k] == Lengths(args[..k], contents[..k], trs[..k]);
      assert ls[k] == |o.texts|;
      if ValidName(args[k]) {
        assert Workers(args, contents, trs).store == RecordLines(e.store, CleanName(args[k]), o.texts);
        RecordLinesCounter(e.store, CleanName(args[k]), o.texts);
      } else {
        assert Workers(args, contents, trs).store == e.store;
      }
    }
  }

  /**
   * N files whose workers all recorded M lines: lines 1 .. M are counted,
   * each by all N files, and no other line is.
   */
  lemma AllRecorded(args: seq<string>, contents: seq<seq<string>>, trs: seq<string -> Reply>, M: nat)
    requires |contents| == |args| && |trs| == |args| && |args| >= 1
    requires forall j :: 0 <= j < |args| ==> |Worker(args[j], contents[j], trs[j]).texts| == M
    ensures var fc := Workers(args, contents, trs).store.forCounter;
      (forall n :: n in fc <==> 1 <= n <= M) && (forall n :: n in fc ==> fc[n] == |args|)
  {
    var ls := Lengths(args, contents, trs);
    WorkersCounts(args, contents, trs);
    forall n ensures Reaching(ls, n) == (if 1 <= n <= M then |args| else 0) {
      ReachingRange(ls, n);
      assert ls[0] == M;
    }
  }

  /** Cleaning one more argument appends its name. */
  lemma CleanNext(args: seq<string>, k: nat)
    requires AllValid(args) && k < |args|
    ensures CleanTheInputs(args[..k + 1]) == CleanTheInputs(args[..k]) + [CleanName(args[k])]
  {
    assert args[..k + 1][..k] == args[..k];
  }

  /**
   * With valid arguments that clean to distinct names, the maps the workers
   * leave satisfy the store invariant over the cleaned names.
   */
  lemma {:induction false} WorkersConsistent(args: seq<string>, contents: seq<seq<string>>, trs: seq<string -> Reply>)
    requires |contents| == |args| && |trs| == |args|
    requires AllValid(args) && Distinct(CleanTheInputs(args))
    ensures Consistent(Workers(args, contents, trs).store, CleanTheInputs(args))
    decreases |args|
  {
    if args == [] {
      EmptyConsistent([]);
    } else {
      var k := |args| - 1;
      var pa, pc, pt := args[..k], contents[..k], trs[..k];
      var name := CleanName(args[k]);
      var prev := CleanTheInputs(pa);
      assert AllValid(pa);
      CleanNext(args, k);
      assert args[..k + 1] == args;
      assert CleanTheInputs(args) == prev + [name];
      PrefixDistinct(prev, name);
      WorkersConsistent(pa, pc, pt);
      var e := Workers(pa, pc, pt);
      var o := Worker(args[k], contents[k], trs[k]);
      assert Workers(args, contents, trs).store == RecordLines(e.store, name, o.texts);
      ConsistentRecordLines(e.store, prev, name, o.texts);
    }
  }

  /** Dropping the last of distinct names leaves distinct names, none equal to it. */
  lemma PrefixDistinct(prev: seq<string>, name: string)
    requires Distinct(prev + [name])
    ensures Distinct(prev) && name !in prev
  {
    var names := prev + [name];
    forall i, j | 0 <= i < j < |prev| ensures prev[i] != prev[j] {
      assert prev[i] == names[i] && prev[j] == names[j];
    }
    forall i | 0 <= i < |prev| ensures prev[i] != name {
      assert prev[i] == names[i] && names[|prev|] == name;
    }
  }

  /** The first `L` texts of a worker (all of them when it recorded fewer). */
  function Upto(texts: seq<string>, L: nat): (p: seq<string>)
    ensures |p| <= L
    ensures |texts| <= L ==> p == texts
  {
    if L < |texts| then texts[..L] else texts
  }

  /**
   * `t'` is `t` with the entries "<name>-1" .. "<name>-|texts|" added,
   * holding `texts` in order, and nothing else changed: what one worker's
   * record steps do to the text map (`Collation.RecordLinesTemp`).
   */
  ghost predicate Adds(t: map<string, string>, t': map<string, string>, name: string, texts: seq<string>)
  {
    && (forall n: nat :: Key(name, n) in t' <==> 1 <= n <= |texts|)
    && (forall n: nat :: 1 <= n <= |texts| ==> t'[Key(name, n)] == texts[n - 1])
    && (forall k :: k in t ==> k in t' && t'[k] == t[k])
    && (forall k :: k in t' && k !in t ==> exists n: nat :: 1 <= n <= |texts| && k == Key(name, n))
  }

  /**
   * Adding a new name whose worker recorded `texts` adds, to the bucket of
   * line `n`, that worker's text for line `n` if it has one, and changes
   * nothing else in the bucket.
   */
  lemma BucketAddName(t: map<string, string>, t': map<string, string>, names: seq<string>,
                      name: string, texts: seq<string>, n: nat)
    requires name !in names && Adds(t, t', name, texts)
    ensures multiset(Bucket(t', names + [name], n))
         == multiset(Bucket(t, names, n)) + (if 1 <= n <= |texts| then multiset{texts[n - 1]} else multiset{})
  {
    BucketSnoc(t', names, name, n);
    forall i | 0 <= i < |names|
      ensures Key(names[i], n) in t <==> Key(names[i], n) in t'
      ensures Key(names[i], n) in t ==> t[Key(names[i], n)] == t'[Key(names[i], n)]
    {
      if Key(names[i], n) in t' && Key(names[i], n) !in t {
        var m: nat :| 1 <= m <= |texts| && Key(names[i], n) == Key(name, m);
        KeyInjective(names[i], n, name, m);
        assert false;
      }
    }
    BucketFrame(t, t', names, n);
  }

  /**
   * Adding a new name adds exactly its first `L` texts to what an emitter
   * writes for lines 1 .. L.
   */
  lemma {:induction false} BatchesAddName(t: map<string, string>, t': map<string, string>, names: seq<string>,
                                          name: string, texts: seq<string>, L: nat)
    requires name !in names && Adds(t, t', name, texts)
    ensures multiset(Batches(t', names + [name], L)) == multiset(Batches(t, names, L)) + multiset(Upto(texts, L))
    decreases L
  {
    if L > 0 {
      var k: nat := L - 1;
      var before, before' := Batches(t, names, k), Batches(t', names + [name], k);
      var b, b' := Bucket(t, names, L), Bucket(t', names + [name], L);
      assert Batches(t', names + [name], L) == before' + Sort(b');
      assert Batches(t, names, L) == before + Sort(b);
      var extra := if 1 <= L <= |texts| then multiset{texts[k]} else multiset{};
      BatchesAddName(t, t', names, name, texts, k);
      BucketAddName(t, t', names, name, texts, L);
      UptoNext(texts, L);
      SortSorted(b);
      SortSorted(b');
      MultisetShuffle(multiset(before), multiset(Upto(texts, k)), multiset(b), extra);
    }
  }

  lemma MultisetShuffle(a: multiset<string>, b: multiset<string>, c: multiset<string>, d: multiset<string>)
    ensures (a + b) + (c + d) == (a + c) + (b + d)
  {
  }

  lemma UptoNext(texts: seq<string>, L: nat)
    requires L >= 1
    ensures var k: nat := L - 1;
      multiset(Upto(texts, L)) == multiset(Upto(texts, k)) + (if 1 <= L <= |texts| then multiset{texts[k]} else multiset{})
  {
    if L <= |texts| {
      assert Upto(texts, L) == texts[..L - 1] + [texts[L - 1]];
    } else {
      assert Upto(texts, L) == Upto(texts, L - 1);
    }
  }

  /**
   * Everything that reached AsYouGo.txt is in the batch output for lines
   * 1 .. L, and nothing else is, once L is at least the number of lines in
   * AsYouGo.txt (so that it covers every worker's lines).
   */
  lemma {:induction false} WorkersCollected(args: seq<string>, contents: seq<seq<string>>, trs: seq<string -> Reply>, L: nat)
    requires |contents| == |args| && |trs| == |args|
    requires AllValid(args) && Distinct(CleanTheInputs(args))
    requires |Workers(args, contents, trs).asYouGo| <= L
    ensures var e := Workers(args, contents, trs);
      multiset(Batches(e.store.temp, CleanTheInputs(args), L)) == multiset(e.asYouGo)
    decreases |args|
  {
    if args == [] {
      BatchesEmptyNames(L);
    } else {
      var k := |args| - 1;
      var pa, pc, pt := args[..k], contents[..k], trs[..k];
      var name := CleanName(args[k]);
      var prev := CleanTheInputs(pa);
      var e := Workers(pa, pc, pt);
      var o := Worker(args[k], contents[k], trs[k]);
      var t' := RecordLines(e.store, name, o.texts).temp;
      assert Workers(args, contents, trs) == Effect(RecordLines(e.store, name, o.texts), e.asYouGo + o.texts, e.offline || o.offline);
      assert AllValid(pa);
      CleanNext(args, k);
      assert args[..k + 1] == args;
      assert CleanTheInputs(args) == prev + [name];
      PrefixDistinct(prev, name);
      assert Upto(o.texts, L) == o.texts;
      WorkersCollected(pa, pc, pt, L);
      WorkersConsistent(pa, pc, pt);
      ConsistentAddName(e.store, prev, name);
      RecordLinesTemp(e.store, name, o.texts);
      BatchesAddName(e.store.temp, t', prev, name, o.texts, L);
    }
  }

  /** With no names every bucket, and so every batch, is empty. */
  lemma {:induction false} BatchesEmptyNames(L: nat)
    ensures Batches(map[], [], L) == []
    decreases L
  {
    if L > 0 {
      BatchesEmptyNames(L - 1);
      assert Bucket(map[], [], L) == [];
      assert Sort([]) == [];
    }
  }

  /**
   * With valid arguments that clean to distinct names, the emitters' output
   * for lines 1 .. Top (the highest counted line) holds exactly the texts
   * written to AsYouGo.txt, each as often.
   */
  lemma Collected(args: seq<string>, contents: seq<seq<string>>, trs: seq<string -> Reply>)
    requires |contents| == |args| && |trs| == |args|
    requires AllValid(args) && Distinct(CleanTheInputs(args))
    ensures var e := Workers(args, contents, trs);
      multiset(Batches(e.store.temp, CleanTheInputs(args), Top(e.store.forCounter))) == multiset(e.asYouGo)
  {
    var e := Workers(args, contents, trs);
    var L := Top(e.store.forCounter) + |e.asYouGo|;
    WorkersCollected(args, contents, trs, L);
    WorkersConsistent(args, contents, trs);
    BatchesBeyondTop(e.store, CleanTheInputs(args), L);
  }

  // ---------------------------------------------------------------------------
  // Choosing the emitter
  // ---------------------------------------------------------------------------

  /**
   * What `BatchedTxt` needs in order to finish: the counted lines run from 1
   * without a gap, each counted by every file, and every file holds every
   * counted line.
   */
  predicate Complete(st: Store, names: seq<string>)
  {
    && (forall n :: n in st.forCounter ==> st.forCounter[n] == |names|)
    && (forall n, m :: n in st.forCounter && 1 <= m <= n ==> m in st.forCounter)
    && (forall n: nat, i :: n in st.forCounter && 0 <= i < |names| ==> Key(names[i], n) in st.temp)
  }

  /** Under the store invariant, completeness is just every count equalling the number of files. */
  lemma CompleteIff(st: Store, names: seq<string>)
    requires Consistent(st, names)
    ensures Complete(st, names) <==> forall n :: n in st.forCounter ==> st.forCounter[n] == |names|
  {
    if forall n :: n in st.forCounter ==> st.forCounter[n] == |names| {
      CountsContiguous(st, names);
      forall n: nat, i | n in st.forCounter && 0 <= i < |names| ensures Key(names[i], n) in st.temp {
        BucketSize(st.temp, names, n);
      }
    }
  }

  /**
   * The worker phase of `main` without the threads: one worker per argument,
   * run one after another.
   */
  method RunWorkers(app: Application, args: seq<string>, contents: seq<seq<string>>, trs: seq<string -> Reply>)
    requires |contents| == |args| && |trs| == |args|
    requires app.temp == map[] && app.forCounter == map[] && app.asYouGo == [] && !app.isApiOffline
    modifies app`temp, app`forCounter, app`isApiOffline, app`asYouGo
    ensures var e := Workers(args, contents, trs);
      app.State() == e.store && app.asYouGo == e.asYouGo && app.isApiOffline == e.offline
  {
    var j := 0;
    while j < |args|
      invariant 0 <= j <= |args|
      invariant var e := Workers(args[..j], contents[..j], trs[..j]);
        app.State() == e.store && app.asYouGo == e.asYouGo && app.isApiOffline == e.offline
    {
      WorkersNext(args, contents, trs, j);
      Run(app, args[j], contents[j], trs[j]);
      j := j + 1;
    }
    assert args[..j] == args && contents[..j] == contents && trs[..j] == trs;
  }

  /**
   * The end of `main`: the offline emitter when the flag is set, as in the
   * source; otherwise `BatchedTxt` only when it can finish, and the offline
   * emitter (which writes the same output in that case) for the rest.
   */
  method WriteBatched(app: Application)
    requires forall n :: n in app.forCounter ==> n >= 1
    modifies app`forCounter, app`batched
    ensures app.forCounter == map[]
    ensures app.batched == old(app.batched) + Batches(app.temp, app.input, Top(old(app.forCounter)))
  {
    var offline := app.GetApiOffline();
    if offline {
      app.BatchedIncomplete();
    } else if Complete(app.State(), app.input) {
      app.BatchedTxt();
    } else {
      app.BatchedIncomplete();
    }
  }

  /**
   * `main` after the workers, when every argument can be cleaned: the input
   * names become the cleaned names, then one emitter writes Batched.txt.
   */
  method Finish(app: Application, args: seq<string>, ghost contents: seq<seq<string>>, ghost trs: seq<string -> Reply>)
    requires |contents| == |args| && |trs| == |args| && AllValid(args)
    requires app.State() == Workers(args, contents, trs).store
    modifies app`input, app`forCounter, app`batched
    ensures app.input == CleanTheInputs(args) && app.forCounter == map[]
    ensures app.batched == old(app.batched) + Batches(app.temp, app.input, Top(old(app.forCounter)))
  {
    app.input := CleanTheInputs(args);
    WorkersLinesPositive(args, contents, trs);
    WriteBatched(app);
  }

  /**
   * `main` without the threads: the workers, then the cleaning of the
   * arguments (an argument that cannot be cleaned ends `main` before
   * Batched.txt is written), then one emitter.
   */
  method Execute(args: seq<string>, contents: seq<seq<string>>, trs: seq<string -> Reply>) returns (app: Application)
    requires |contents| == |args| && |trs| == |args|
    ensures fresh(app)
    ensures var e := Workers(args, contents, trs);
      app.temp == e.store.temp && app.asYouGo == e.asYouGo && app.isApiOffline == e.offline
    ensures !AllValid(args) ==>
      app.forCounter == Workers(args, contents, trs).store.forCounter && app.input == args && app.batched == []
    ensures AllValid(args) ==>
      var e := Workers(args, contents, trs);
      && app.input == CleanTheInputs(args) && app.forCounter == map[]
      && app.batched == Batches(e.store.temp, app.input, Top(e.store.forCounter))
  {
    app := new Application(args);
    RunWorkers(app, args, contents, trs);
    if AllValid(args) {
      Finish(app, args, contents, trs);
    }
  }

  // ---------------------------------------------------------------------------
  // The complete emitter as written
  // ---------------------------------------------------------------------------

  /** Where the outer loop of `BatchedTxt` stands: still looping, left the loop, or thrown. */
  datatype TxtState = Looping(fc: map<int, int>, counter: int) | Finished | Failed

  /**
   * One pass of the outer loop of `BatchedTxt` as written, on the line counts
   * alone: a line counted by every file is written and retired; a line
   * counted by fewer files makes the pass `continue` with nothing changed; a
   * line missing from the counts throws (unboxing the null that
   * `forCounter.get` returns).  The loop is left once no line remains.
   */
  function TxtPass(s: TxtState, files: int): TxtState
  {
    match s
    case Looping(fc, counter) =>
      if |fc| == 0 then Finished
      else if counter !in fc then Failed
      else if fc[counter] != files then s
      else if |fc - {counter}| == 0 then Finished
      else Looping(fc - {counter}, counter + 1)
    case _ => s
  }

  /** The state after `k` passes. */
  function TxtRun(s: TxtState, files: int, k: nat): TxtState
    decreases k
  {
    if k == 0 then s else TxtRun(TxtPass(s, files), files, k - 1)
  }

  /** A line counted by fewer files than there are is never passed: the loop never ends. */
  lemma {:induction false} TxtSpins(fc: map<int, int>, counter: int, files: int, k: nat)
    requires counter in fc && fc[counter] != files
    ensures TxtRun(Looping(fc, counter), files, k) == Looping(fc, counter)
  {
    if k > 0 {
      assert fc != map[] by { assert counter in fc; }
      TxtSpins(fc, counter, files, k - 1);
    }
  }

  /** A service that answers every line with the same text. */
  function Always(t: string): string -> Reply
  {
    q => Translated(t)
  }

  /** A worker whose service always answers with a non-empty text records every line. */
  lemma WorkerRecordsAll(fileName: string, lines: seq<string>, t: string)
    requires ValidName(fileName) && t != ""
    ensures Worker(fileName, lines, Always(t)) == Outcome(seq(|lines|, _ => t), false)
  {
    var o := Worker(fileName, lines, Always(t));
    assert |o.texts| == |lines|;
  }

  /** The worker phase with two files whose service always answers `t`. */
  lemma TwoWorkers(a: string, b: string, la: seq<string>, lb: seq<string>, t: string)
    requires ValidName(a) && ValidName(b) && t != ""
    ensures Workers([a, b], [la, lb], [Always(t), Always(t)])
         == Effect(RecordLines(RecordLines(Store(map[], map[]), CleanName(a), seq(|la|, _ => t)),
                               CleanName(b), seq(|lb|, _ => t)),
                   seq(|la|, _ => t) + seq(|lb|, _ => t), false)
  {
    var args, contents, trs := [a, b], [la, lb], [Always(t), Always(t)];
    WorkerRecordsAll(a, la, t);
    WorkerRecordsAll(b, lb, t);
    assert args[..1] == [a] && contents[..1] == [la] && trs[..1] == [Always(t)];
    assert args[..1][..0] == [] && contents[..1][..0] == [] && trs[..1][..0] == [];
    assert Workers(args[..1], contents[..1], trs[..1])
        == Effect(RecordLines(Store(map[], map[]), CleanName(a), seq(|la|, _ => t)), seq(|la|, _ => t), false);
  }

  /** The line counts when one file delivers two lines and the other one. */
  lemma UnevenCounts(na: string, nb: string, t: string)
    ensures RecordLines(RecordLines(Store(map[], map[]), na, [t, t]), nb, [t]).forCounter
         == map[1 := 2, 2 := 1]
  {
    var st1 := RecordLines(Store(map[], map[]), na, [t, t]);
    RecordLinesCounter(Store(map[], map[]), na, [t, t]);
    RecordLinesCounter(st1, nb, [t]);
    assert st1.forCounter.Keys == {1, 2} by {
      forall n ensures n in st1.forCounter <==> n == 1 || n == 2 {
        assert n in st1.forCounter <==> 1 <= n <= |[t, t]|;
      }
    }
    var st0 := Store(map[], map[]);
    assert 1 !in st0.forCounter && 2 !in st0.forCounter;
    assert 1 in st1.forCounter && 2 in st1.forCounter;
    assert st1.forCounter[1] == 1 && st1.forCounter[2] == 1;
    var fc := RecordLines(st1, nb, [t]).forCounter;
    assert fc.Keys == {1, 2} by {
      forall n ensures n in fc <==> n == 1 || n == 2 {
        assert n in fc <==> n in st1.forCounter || 1 <= n <= |[t]|;
      }
    }
  }

  /** The worker phase with a two-line and a one-line file and an online service. */
  lemma UnevenWorkers(a: string, b: string, x: string, y: string, z: string, t: string)
    requires ValidName(a) && ValidName(b) && t != ""
    ensures var e := Workers([a, b], [[x, y], [z]], [Always(t), Always(t)]);
      !e.offline && e.store.forCounter == map[1 := 2, 2 := 1]
  {
    TwoWorkers(a, b, [x, y], [z], t);
    Repeat(t);
    UnevenCounts(CleanName(a), CleanName(b), t);
  }

  /**
   * Two files of different lengths (for instance "./a.txt" with two lines
   * and "./b.txt" with one), the service always online: line 2 is counted by
   * one file only, so `main` as written picks `BatchedTxt` (the flag is
   * false), whose first pass retires line 1 and whose loop then stays on
   * line 2 for ever; the emitter chosen by `WriteBatched` is the offline one.
   */
  lemma UnevenFilesSpin(a: string, b: string, x: string, y: string, z: string, t: string, k: nat)
    requires ValidName(a) && ValidName(b) && t != ""
    ensures var args := [a, b];
      var e := Workers(args, [[x, y], [z]], [Always(t), Always(t)]);
      && AllValid(args) && !e.offline
      && e.store.forCounter == map[1 := 2, 2 := 1]
      && TxtPass(Looping(e.store.forCounter, 1), |args|) == Looping(map[2 := 1], 2)
      && TxtRun(Looping(map[2 := 1], 2), |args|, k) == Looping(map[2 := 1], 2)
      && !Complete(e.store, CleanTheInputs(args))
  {
    assert AllValid([a, b]) by {
      forall i | 0 <= i < 2 ensures ValidName([a, b][i]) {
        if i == 1 {
          assert [a, b][i] == b;
        }
      }
    }
    UnevenWorkers(a, b, x, y, z, t);
    RetireFirst();
    TxtSpins(map[2 := 1], 2, 2, k);
  }

  /** A text repeated twice, and once. */
  lemma Repeat(t: string)
    ensures seq(2, _ => t) == [t, t] && seq(1, _ => t) == [t]
  {
  }

  /** Line 1 retired from the counts of the example. */
  lemma RetireFirst()
    ensures map[1 := 2, 2 := 1] - {1} == map[2 := 1]
  {
  }

  /** The file names of the example: "./a.txt" and "./b.txt" can be cleaned. */
  lemma ExampleNames()
    ensures ValidName("./a.txt") && ValidName("./b.txt")
  {
    assert "./a.txt" == "" + "." + "/a" + "." + "txt";
    assert "./b.txt" == "" + "." + "/b" + "." + "txt";
    CleanPath("", "/a", "txt");
    CleanPath("", "/b", "txt");
  }
}
