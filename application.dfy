/**
 * The static state of the `Application` class and the methods that update it:
 * the two collation maps, the cleaned input names, the offline flag, and the
 * two output files (AsYouGo.txt and Batched.txt), each modelled as the
 * sequence of lines written to it.
 */
module App {
  import opened Text
  import opened Names
  import opened Collation

  class Application {
    /** key "<name>-<line>" to translated text */
    var temp: map<string, string>
    /** line number to the number of files that delivered it */
    var forCounter: map<int, int>
    /** the input file names: the raw arguments, later their cleaned names */
    var input: seq<string>
    var isApiOffline: bool
    /** lines written to AsYouGo.txt */
    var asYouGo: seq<string>
    /** lines written to Batched.txt */
    var batched: seq<string>

    /** The two collation maps as one value. */
    function State(): Store
      reads this
    {
      Store(temp, forCounter)
    }

    /** `new Application(args)` together with the static initialisers. */
    constructor (args: seq<string>)
      ensures temp == map[] && forCounter == map[] && input == args
      ensures !isApiOffline && asYouGo == [] && batched == []
    {
      temp := map[];
      forCounter := map[];
      input := args;
      isApiOffline := false;
      asYouGo := [];
      batched := [];
    }

    method SetApiOffline(isApiOfflineNew: bool)
      modifies this`isApiOffline
      ensures isApiOffline == isApiOfflineNew
    {
      isApiOffline := isApiOfflineNew;
    }

    method GetApiOffline() returns (b: bool)
      ensures b == isApiOffline
    {
      b := isApiOffline;
    }

    /** Appends one line to AsYouGo.txt; nothing else changes. */
    method WriteToAsYouGoTxt(result: string)
      modifies this`asYouGo
      ensures asYouGo == old(asYouGo) + [result]
    {
      asYouGo := asYouGo + [result];
    }

    /** Writes the lines of one batch to Batched.txt, in order. */
    method WriteBatch(data: seq<string>)
      modifies this`batched
      ensures batched == old(batched) + data
    {
      var w := 0;
      while w < |data|
        invariant 0 <= w <= |data|
        invariant batched == old(batched) + data[..w]
      {
        batched := batched + [data[w]];
        w := w + 1;
      }
      assert data[..w] == data;
    }

    /** The texts stored for line `counter` under the input names, skipping missing ones. */
    method GatherPresent(counter: nat) returns (data: seq<string>)
      ensures data == Bucket(temp, input, counter)
    {
      data := [];
      var j := 0;
      while j < |input|
        invariant 0 <= j <= |input|
        invariant data == Bucket(temp, input[..j], counter)
      {
        var generatedKey := Key(input[j], counter);
        assert input[..j + 1][..j] == input[..j] && input[..j + 1][j] == input[j];
        if generatedKey in temp {
          data := data + [temp[generatedKey]];
        }
        j := j + 1;
      }
      assert input[..j] == input;
    }

    /**
     * The texts stored for line `counter` under every input name, which must
     * all be present: one text per name.
     */
    method GatherAll(counter: nat) returns (data: seq<string>)
      requires forall i :: 0 <= i < |input| ==> Key(input[i], counter) in temp
      ensures data == Bucket(temp, input, counter)
      ensures |data| == |input|
    {
      data := [];
      var j := 0;
      while j < |input|
        invariant 0 <= j <= |input|
        invariant data == Bucket(temp, input[..j], counter)
        invariant |data| == j
      {
        var generatedKey := Key(input[j], counter);
        assert input[..j + 1][..j] == input[..j] && input[..j + 1][j] == input[j];
        data := data + [temp[generatedKey]];
        j := j + 1;
      }
      assert input[..j] == input;
    }

    /**
     * One step of the offline emitter for line `counter`: the texts present
     * for that line, sorted, go to Batched.txt and the line is retired.
     * `prior` is what Batched.txt held before line 1.
     */
    method EmitPresent(counter: nat, ghost prior: seq<string>, ghost done: nat, ghost fc0: map<int, int>)
      requires counter == done + 1 && batched == prior + Batches(temp, input, done)
      requires Pending(forCounter, fc0, counter) && |forCounter| != 0
      modifies this`forCounter, this`batched
      ensures batched == prior + Batches(temp, input, counter)
      ensures forCounter == old(forCounter) - {counter}
      ensures counter <= Top(fc0) && Pending(forCounter, fc0, counter + 1)
    {
      PendingRetire(forCounter, fc0, counter);
      NextBatch(prior, temp, input, counter);
      var data := GatherPresent(counter);
      data := Sort(data);
      WriteBatch(data);
      forCounter := forCounter - {counter};
    }

    /**
     * One step of the complete emitter for line `counter`, every input name
     * holding that line: one text per name, sorted, then the line is retired.
     */
    method EmitAll(counter: nat, ghost prior: seq<string>, ghost done: nat, ghost fc0: map<int, int>)
      requires counter == done + 1 && batched == prior + Batches(temp, input, done)
      requires Pending(forCounter, fc0, counter) && counter in forCounter
      requires forall n :: n in forCounter ==> forCounter[n] == |input|
      requires forall i :: 0 <= i < |input| ==> Key(input[i], counter) in temp
      modifies this`forCounter, this`batched
      ensures batched == prior + Batches(temp, input, counter)
      ensures forCounter == old(forCounter) - {counter}
      ensures counter <= Top(fc0) && Pending(forCounter, fc0, counter + 1)
      ensures forall n :: n in forCounter ==> forCounter[n] == |input|
    {
      PendingRetire(forCounter, fc0, counter);
      NextBatch(prior, temp, input, counter);
      var data := GatherAll(counter);
      data := Sort(data);
      WriteBatch(data);
      forCounter := forCounter - {counter};
    }

    /**
     * The emitter used when the service went offline: for line 1, 2, ... up
     * to the highest counted line, the texts stored for that line under the
     * input names (missing ones skipped), sorted, then the line is retired.
     */
    method BatchedIncomplete()
      requires forall n :: n in forCounter ==> n >= 1
      modifies this`forCounter, this`batched
      ensures forCounter == map[]
      ensures batched == old(batched) + Batches(temp, input, Top(old(forCounter)))
    {
      ghost var top := Top(forCounter);
      ghost var fc0, prior := forCounter, batched;
      var counter: nat := 1;
      ghost var done: nat := 0;
      while true
        invariant counter == done + 1 && done <= top
        invariant Pending(forCounter, fc0, counter)
        invariant batched == prior + Batches(temp, input, done)
        decreases top - done
      {
        if |forCounter| != 0 {
          EmitPresent(counter, prior, done, fc0);
          counter := counter + 1;
          done := done + 1;
        }
        if |forCounter| == 0 {
          break;
        }
      }
      PendingDone(forCounter, fc0, counter);
    }

    /**
     * The emitter used when every worker finished online. It demands that the
     * counted lines run from 1 without a gap, that every count equals the
     * number of input names, and that every input name holds every counted
     * line: otherwise the source spins on an incomplete line or fails on a
     * missing entry. Each line's batch then holds one text per input name.
     */
    method BatchedTxt()
      requires forall n :: n in forCounter ==> n >= 1
      requires forall n, m :: n in forCounter && 1 <= m <= n ==> m in forCounter
      requires forall n :: n in forCounter ==> forCounter[n] == |input|
      requires forall n: nat, i :: n in forCounter && 0 <= i < |input| ==> Key(input[i], n) in temp
      modifies this`forCounter, this`batched
      ensures forCounter == map[]
      ensures batched == old(batched) + Batches(temp, input, Top(old(forCounter)))
      ensures |batched| == |old(batched)| + Top(old(forCounter)) * |input|
    {
      ghost var top := Top(forCounter);
      ghost var fc0, prior := forCounter, batched;
      var counter: nat := 1;
      ghost var done: nat := 0;
      while true
        invariant counter == done + 1 && done <= top
        invariant Pending(forCounter, fc0, counter)
        invariant forall n :: n in forCounter ==> forCounter[n] == |input|
        invariant batched == prior + Batches(temp, input, done)
        decreases top - done
      {
        if |forCounter| != 0 {
          PendingRetire(forCounter, fc0, counter);
          if forCounter[counter] != |input| {
            assert false;
          } else {
            assert counter in fc0;
            EmitAll(counter, prior, done, fc0);
            counter := counter + 1;
            done := done + 1;
          }
        }
        if |forCounter| == 0 {
          break;
        }
      }
      PendingDone(forCounter, fc0, counter);
      ghost var full := Batches(temp, input, top);
      assert |full| == top * |input| by {
        forall n: nat, i | 1 <= n <= top && 0 <= i < |input| ensures Key(input[i], n) in temp {
          assert top in fc0 && n in fc0;
        }
        BatchesFullLength(temp, input, top);
      }
      assert done == top;
      assert |batched| == |prior| + |full|;
    }
  }
}
