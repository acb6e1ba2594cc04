# Translation collation engine, modelled in Dafny

The program takes a list of text files on the command line. It starts one
worker thread per file. Each worker reads its file line by line and sends
every line to a translation service. It records each translation in two
shared maps:

- `temp`: key `"<name>-<line>"` to the translated text;
- `forCounter`: line number to the number of files that delivered that line.

It also appends each translation to `AsYouGo.txt`. A worker stops early when
the service answers with the empty string. That answer means the service is
offline, and the worker raises a shared flag. A worker also stops when an
exception escapes.

While the workers run, `main` turns each argument (for instance
`./file1.txt`) into its cleaned name (`file1`). Workers never read those
names, so the model cleans them after the workers, which changes nothing.
When every worker has ended, `main` picks one of two emitters. An emitter walks the line numbers 1, 2, ... and writes to
`Batched.txt` one batch per line: the texts every file holds for that line,
sorted.

- `BatchedIncomplete` runs when the flag is set. It skips missing entries.
- `BatchedTxt` runs when the flag is clear. It expects every file to hold
  every line.

The model has six modules:

- `Text`: the order of `String.compareTo` and the sort it induces. `Sort` is
  an insertion sort proved sorted and a permutation. Any sorted permutation
  equals it, so it stands for `Collections.sort`. The module also holds
  `Integer.toString` and its inverse.
- `Names`: Java's `split("\\.")`, `cleanTheInputs`, and the collation key
  with its parser.
- `Collation`: the store as values. It holds the record step (`Record`,
  `RecordLines`), the batch layout (`Bucket`, `Batches`), and the store
  invariant `Consistent`. That invariant says each count is the number of
  files holding the line, and the counted lines run from 1 without a gap.
- `App`: the class `Application`. Its fields are `temp`, `forCounter`,
  `input` and `isApiOffline`, plus the two output files, each modelled as
  the sequence of lines written to it. Its methods are the setters, the
  append to AsYouGo.txt and the two emitters. Each method is proved against
  the functions of `Collation`.
- `ProcessThreads`: the worker's read loop, proved against the pure
  specification `Worker`.
- `Coordinator`: `main` with the workers run one after another. It also
  holds the choice of emitter and the finding below.

## Model

| member | source | states |
|---|---|---|
| Text.LexLe | src/com/translate/Application.java:170 | definition: `compareTo` order on strings, character by character with a proper prefix first; `LexLeTotal`, `LexLeTransitive` and `LexLeAntisymmetric` make it a total order |
| Text.Sort | src/com/translate/Application.java:170 | definition: `Collections.sort` (here and at line 229) as insertion sort; `SortSorted` proves it sorted and a permutation, `SortedPermutationsEqual` that any sort gives the same list |
| Text.SortSorted | src/com/translate/Application.java:170 | the sorted batch is in non-decreasing `compareTo` order and is a permutation (same multiset, same length) of the gathered texts |
| Text.SortDependsOnlyOnMultiset | src/com/translate/Application.java:229 | two lists with the same elements sort to the same list, so a batch does not depend on the order in which texts were gathered |
| Text.SortSameElements | src/com/translate/Application.java:170 | sorting keeps exactly the elements it was given |
| Text.SortedPermutationsEqual | src/com/translate/Application.java:229 | there is only one sorted arrangement of a multiset of strings, so any correct sort gives the modelled one |
| Text.InsertSorted | src/com/translate/Application.java:170 | inserting into a sorted list keeps it sorted and adds exactly one element |
| Text.LexLeTotal | src/com/translate/Application.java:170 | any two strings are comparable under `compareTo` order |
| Text.LexLeTransitive | src/com/translate/Application.java:170 | `compareTo` order is transitive |
| Text.LexLeAntisymmetric | src/com/translate/Application.java:170 | two strings each at most the other are equal |
| Text.Decimal | src/com/translate/ProcessThreads.java:68 | `Integer.toString` of a line number is a non-empty run of digits without a leading zero |
| Text.DecimalRoundTrip | src/com/translate/ProcessThreads.java:68 | parsing the decimal text of a line number gives the number back |
| Names.JavaSplit | src/com/translate/Application.java:264 | definition: `split("\\.")`: the dot-separated fields with trailing empty fields dropped, the whole string when it has no dot; `FieldsRoundTrip`, `NoDotOneField` and `SplitNameIff` state its properties |
| Names.CleanName | src/com/translate/Application.java:264-265 | definition: `str[1].substring(1)`, for a name `ValidName` accepts; `SplitNameIff` ties both to `JavaSplit` and `CleanPath` gives its value on a path |
| Names.FieldsRoundTrip | src/com/translate/Application.java:264 | the dot-separated fields of a string, joined with dots, give the string back |
| Names.NoDotOneField | src/com/translate/Application.java:264 | a string with no dot is a single field |
| Names.SplitNameIff | src/com/translate/Application.java:264-265 | `cleanTheInputs` can take an argument exactly when `split("\\.")` yields a non-empty second field; the cleaned name is that field without its first character |
| Names.CleanPath | src/com/translate/Application.java:264-265 | a path `<dir>.<p>.<ext>` with no other dots can be cleaned, and its name is `p` without its first character |
| Names.CleanFileOne | src/com/translate/Application.java:260-269 | `"./file1.txt"` is cleaned to `"file1"` |
| Names.CleanTheInputs | src/com/translate/Application.java:260-269 | the cleaned list is as long as the argument list |
| Names.CleanTheInputsAt | src/com/translate/Application.java:260-269 | element i of the cleaned list is the cleaned name of argument i |
| Names.Key | src/com/translate/ProcessThreads.java:68 | definition: the key `"<name>-<line>"`; `KeyRoundTrip` and `KeyInjective` state that it determines the name and the line |
| Names.KeyRoundTrip | src/com/translate/ProcessThreads.java:68 | a key `"<name>-<line>"` split at its last '-' gives back the name and the line number |
| Names.KeyInjective | src/com/translate/ProcessThreads.java:68 | distinct (name, line) pairs give distinct keys |
| Collation.Record | src/com/translate/ProcessThreads.java:67-76 | definition: one record step, the `put` under the key and then the count bump; `OtherKeyUnchanged`, `BumpCommutes` and `RecordCommutes` state how steps combine |
| Collation.RecordLines | src/com/translate/ProcessThreads.java:49-79 | definition: a worker's record steps at lines 1 .. k; `RecordLinesTemp`, `RecordLinesCounter` and `ConsistentRecordLines` state what they leave |
| Collation.Bump | src/com/translate/ProcessThreads.java:71-76 | the count of the line becomes its old count + 1, or 1 if it was absent; every other count is unchanged; only that line is added |
| Collation.BumpCommutes | src/com/translate/ProcessThreads.java:71-76 | two count bumps give the same map in either order |
| Collation.RecordCommutes | src/com/translate/ProcessThreads.java:67-76 | record steps of different (file, line) pairs commute, so interleaving the workers does not change the maps |
| Collation.OtherKeyUnchanged | src/com/translate/ProcessThreads.java:67-69 | storing a key leaves every other key's entry as it was |
| Collation.RecordLinesTemp | src/com/translate/ProcessThreads.java:49-79 | a worker that recorded k texts of a new file adds exactly the keys `name-1` .. `name-k`, holding those texts in line order, and changes no existing entry |
| Collation.RecordLinesCounter | src/com/translate/ProcessThreads.java:71-79 | a worker that recorded k texts adds one arrival to each of lines 1 .. k and to no other line |
| Collation.Bucket | src/com/translate/Application.java:161-169 | definition: the texts stored for a line under the names, in name order, absent keys skipped; `BucketSize`, `BucketHas`, `BucketFrom` and `BucketEmpty` state its contents |
| Collation.BucketSize | src/com/translate/Application.java:161-169 | a line's bucket holds at most one text per name, and is full exactly when every name has an entry for the line |
| Collation.BucketHas | src/com/translate/Application.java:161-169 | every text stored under one of the names for the line is in the bucket |
| Collation.BucketFrom | src/com/translate/Application.java:161-169 | every text in the bucket is stored under one of the names for that line |
| Collation.BucketEmpty | src/com/translate/Application.java:161-169 | a bucket is empty exactly when no name has an entry for the line |
| Collation.BucketFrame | src/com/translate/Application.java:161-169 | a bucket reads only its own line's keys of the names |
| Collation.BucketGrows | src/com/translate/ProcessThreads.java:67-69 | storing a new key of one of the names adds exactly that text to the line's bucket |
| Collation.Batches | src/com/translate/Application.java:156-189 | definition: the sorted buckets of lines 1 .. last, one after another; `BatchesLayout`, `BatchesHave`, `BatchesFrom` and `BatchesFullLength` state what the emitters write |
| Collation.BatchesLayout | src/com/translate/Application.java:156-189 | the emitter's output is laid out by line in increasing order; the segment for line n is that line's bucket, sorted |
| Collation.BatchesPrefix | src/com/translate/Application.java:156-189 | the output for lines 1 .. m is a prefix of the output for lines 1 .. last |
| Collation.BatchesHave | src/com/translate/Application.java:161-180 | every text stored under a name for a line up to the last one is written |
| Collation.BatchesFrom | src/com/translate/Application.java:161-180 | every written text is stored under one of the names for one of those lines |
| Collation.BatchesFullLength | src/com/translate/Application.java:224-240 | when every name holds every line, the output has exactly one text per name per line |
| Collation.HoldsAllBelow | src/com/translate/ProcessThreads.java:49-79 | under the store invariant, a file that holds line n holds every line 1 .. n |
| Collation.CountsBounded | src/com/translate/ProcessThreads.java:71-76 | under the store invariant, every count is between 1 and the number of files |
| Collation.CountsContiguous | src/com/translate/ProcessThreads.java:71-79 | under the store invariant, the counted lines are 1 .. max with no gap |
| Collation.ConsistentRecord | src/com/translate/ProcessThreads.java:67-79 | recording the next line of one of the files keeps the store invariant |
| Collation.ConsistentRecordLines | src/com/translate/ProcessThreads.java:54-80 | a whole worker run over a new file keeps the store invariant for the extended names |
| Collation.PendingRetire | src/com/translate/Application.java:181-182 | while lines are pending, the emitter's counter is at most the highest line; retiring it leaves the higher lines pending; with contiguous lines the counter's line is itself counted |
| Collation.PendingDone | src/com/translate/Application.java:186-187 | once no line is pending, the counter has passed the highest line |
| Collation.BatchesBeyondTop | src/com/translate/Application.java:156-189 | beyond the highest counted line every bucket is empty, so the output stops growing |
| App.Application.constructor | src/com/translate/Application.java:83-97 | empty maps, no output, the flag clear, `input` the arguments |
| App.Application.SetApiOffline | src/com/translate/Application.java:288-290 | the flag takes the given value |
| App.Application.GetApiOffline | src/com/translate/Application.java:295-297 | the flag reads back as last set |
| App.Application.WriteToAsYouGoTxt | src/com/translate/Application.java:200-205 | exactly one line, the text, is appended to AsYouGo.txt, and nothing else changes |
| App.Application.WriteBatch | src/com/translate/Application.java:172-180 | the batch is appended to Batched.txt in order |
| App.Application.GatherPresent | src/com/translate/Application.java:161-169 | the texts gathered for a line are the line's bucket: the present entries of the names, in name order |
| App.Application.GatherAll | src/com/translate/Application.java:224-228 | when every name holds the line, the gathered texts are the bucket, one per name |
| App.Application.EmitPresent | src/com/translate/Application.java:157-183 | one pass writes the sorted bucket of the counter's line and retires that line; the lines above stay pending |
| App.Application.EmitAll | src/com/translate/Application.java:216-243 | the same pass for a complete line |
| App.Application.BatchedIncomplete | src/com/translate/Application.java:149-190 | when all counted lines are at least 1, the loop ends with `forCounter` empty; Batched.txt gains the sorted buckets of lines 1 .. highest, in line order; `temp` and `input` are unchanged |
| App.Application.BatchedTxt | src/com/translate/Application.java:211-251 | on complete counts, the loop ends with `forCounter` empty; Batched.txt gains the sorted buckets of lines 1 .. highest, each holding exactly one text per input name |
| ProcessThreads.Worker | src/com/translate/ProcessThreads.java:54-83 | what one worker records: the non-empty translations of the longest prefix of the file before a stop; it stops at an exception, at an empty answer (then, and only then, offline) or at a name that cannot be cleaned |
| ProcessThreads.RecordLine | src/com/translate/ProcessThreads.java:67-76 | the text is stored under `"<name>-<line>"` and the line's count goes up by one |
| ProcessThreads.Deliver | src/com/translate/ProcessThreads.java:64-80 | recording and writing the next line extends the recorded prefix by that line |
| ProcessThreads.RecordNext | src/com/translate/ProcessThreads.java:67-79 | recording one more line extends the record of the prefix by one step at the next line number |
| ProcessThreads.ExplainsUnique | src/com/translate/ProcessThreads.java:54-83 | only one outcome fits a file and a service: the one `Worker` gives |
| ProcessThreads.ReadLoop | src/com/translate/ProcessThreads.java:49-83 | the loop records exactly the outcome's texts at lines 1, 2, ..., appends them to AsYouGo.txt in order, and raises the flag only at an empty answer |
| ProcessThreads.Run | src/com/translate/ProcessThreads.java:45-88 | `run()` leaves the maps as `Worker`'s texts recorded under the cleaned name (untouched if the name cannot be cleaned), appends those texts to AsYouGo.txt, and the flag is set iff it was set before or the worker met an empty answer |
| Coordinator.Workers | src/com/translate/Application.java:110-125 | definition: the workers run one after another, each on the maps, AsYouGo.txt and flag the previous ones left; `WorkersOffline`, `WorkersCounts`, `WorkersConsistent` and `WorkersCollected` state what they leave |
| Coordinator.WorkersNext | src/com/translate/Application.java:112-116 | one more worker is that worker run after the others |
| Coordinator.WorkersOffline | src/com/translate/ProcessThreads.java:58-59 | after the workers the flag is set exactly when some worker met an empty answer |
| Coordinator.WorkersLinesPositive | src/com/translate/ProcessThreads.java:49 | every counted line number is at least 1 |
| Coordinator.Lengths | src/com/translate/ProcessThreads.java:54-80 | one entry per worker: the number of lines it recorded |
| Coordinator.ReachingRange | src/com/translate/ProcessThreads.java:71-79 | at least one file reached line n exactly when some file recorded n or more lines; all files did exactly when every file recorded n or more (with `Reaching` at most the number of files, a line reached by some files but not all is counted 1 .. N-1 times) |
| Coordinator.WorkersCounts | src/com/translate/ProcessThreads.java:49-79 | after the workers, line n is in `forCounter` exactly when some worker recorded n or more lines, and its count is the number of workers that did, so lines up to the shortest file's count are full and there is no line beyond the longest file's count |
| Coordinator.AllRecorded | src/com/translate/ProcessThreads.java:49-79 | N files all recording M lines give counted lines exactly 1 .. M, each counted N times |
| Coordinator.CleanNext | src/com/translate/Application.java:263-267 | cleaning one more argument appends its name |
| Coordinator.WorkersConsistent | src/com/translate/ProcessThreads.java:49-80 | with distinct cleaned names, the maps after all workers satisfy the store invariant: the counts are the bucket sizes and the counted lines run from 1 |
| Coordinator.BucketAddName | src/com/translate/Application.java:161-169 | a new file adds to a line's bucket exactly its own text for that line, if it has one |
| Coordinator.BatchesAddName | src/com/translate/Application.java:156-189 | a new file adds exactly its first L texts to the output for lines 1 .. L |
| Coordinator.WorkersCollected | src/com/translate/Application.java:156-189 | the output for lines 1 .. L holds each text of AsYouGo.txt as often as AsYouGo.txt does, and nothing else |
| Coordinator.BatchesEmptyNames | src/com/translate/Application.java:161-169 | with no names every batch is empty |
| Coordinator.Collected | src/com/translate/Application.java:126-131 | with distinct cleaned names, what the emitters write to Batched.txt is a rearrangement of what the workers wrote to AsYouGo.txt |
| Coordinator.CompleteIff | src/com/translate/Application.java:218-226 | under the store invariant, `BatchedTxt`'s demands (no gap, every bucket full) hold exactly when every count equals the number of files |
| Coordinator.RunWorkers | src/com/translate/Application.java:108-125 | the worker phase leaves the maps, AsYouGo.txt and the flag as the workers run one after another |
| Coordinator.WriteBatched | src/com/translate/Application.java:126-131 | the chosen emitter empties `forCounter` and writes the sorted buckets of lines 1 .. highest (the corrected choice; see Findings) |
| Coordinator.Finish | src/com/translate/Application.java:118-131 | the input names become the cleaned names, then Batched.txt gets the batches, with the corrected emitter choice (see Findings) |
| Coordinator.Execute | src/com/translate/Application.java:106-135 | `main` with the corrected emitter choice (see Findings): the workers' maps, AsYouGo.txt and flag; with an uncleanable argument, no batch output and `input` left as the arguments; otherwise cleaned names, `forCounter` emptied, and the batches of lines 1 .. highest |
| Coordinator.TxtPass | src/com/translate/Application.java:215-248 | definition: one pass of `BatchedTxt`'s loop as written: finish on an empty `forCounter`, throw on a missing line, `continue` unchanged on a short-counted line, otherwise retire the line; `TxtSpins` and `UnevenFilesSpin` state the spin |
| Coordinator.TxtSpins | src/com/translate/Application.java:215-248 | one pass of `BatchedTxt` as written (`TxtPass`: retire a complete line, `continue` unchanged on a short-counted one, throw on a missing one) on a line counted by fewer files than there are keeps the loop where it is for any number of passes |
| Coordinator.WorkerRecordsAll | src/com/translate/ProcessThreads.java:54-80 | with a service that is always online, a worker records every line |
| Coordinator.TwoWorkers | src/com/translate/Application.java:112-116 | the maps after two such workers |
| Coordinator.UnevenCounts | src/com/translate/ProcessThreads.java:71-76 | a two-line and a one-line file count line 1 twice and line 2 once |
| Coordinator.UnevenWorkers | src/com/translate/Application.java:112-125 | with an online service and files of two and one lines, the flag stays clear and the counts are {1: 2, 2: 1} |
| Coordinator.UnevenFilesSpin | src/com/translate/Application.java:126-131 | in that case `main` as written picks `BatchedTxt`; after retiring line 1 it loops on line 2 for ever; the counts are not complete |
| Coordinator.ExampleNames | src/com/translate/Application.java:264-265 | `"./a.txt"` and `"./b.txt"` can be cleaned |

## Left out

- The translation service (`translateString`, the HTTP request in
  `Connection.java`, the JSON parsing) is a parameter `string -> Reply`.
  A reply is a text (`""` means offline) or `Raised`, for an exception that
  escapes it. Connection.java is not part of this model.
- Each worker's service answers as a function of the line's text alone, so
  a service that goes offline between two identical lines of one file is
  not expressible. No property proved here depends on this.
- Threads, the `CountDownLatch` and the `synchronized` blocks are left out.
  The workers run one after another. In the source a record step is two
  separately locked steps: the `put` into `temp`
  (src/com/translate/ProcessThreads.java:67-69) and the count bump (:71-76).
  `Collation.OtherKeyUnchanged` and `Collation.BumpCommutes` cover one half
  each, and `Collation.RecordCommutes` the whole step: for files with
  different cleaned names the maps do not depend on the interleaving. Two
  arguments that clean to the same name (`./a.txt` given twice) write the
  same keys; the last `put` wins, so there the maps do depend on the
  interleaving, and the model gives the outcome of sequential runs. The
  order of lines in AsYouGo.txt always depends on the interleaving; the
  model gives the order of sequential runs.
- Reading the input files: each file's contents are a parameter, a
  sequence of lines.
- The writers: append mode of the two files, `newLine`, `close`, and the
  `IOException` handlers around writes. Each output file is the sequence of
  lines written to it. An `IOException` from `writeToAsYouGoTxt` inside
  `run()` is not modelled.
- Console output (`System.out.println`) is not modelled.
- Java `int` overflow of the line counter and of the counts is not
  modelled. Both are unbounded integers here.
- Strings are sequences of Dafny `char` (Unicode scalar values).
  `compareTo` compares UTF-16 code units. The two orders differ only
  between a character above U+FFFF and one in U+E000..U+FFFF; the model
  uses the order of `char`.
- App.Application.BatchedTxt: requires the counts to be complete. Otherwise
  the source loops for ever (a line counted by fewer files) or throws (a
  gap, unboxing `null`). That behaviour is modelled on the counts alone by
  `Coordinator.TxtSpins` (on `Coordinator.TxtPass`).
- App.Application.BatchedIncomplete: requires every counted line to be at
  least 1, which every worker guarantees (`Coordinator.WorkersLinesPositive`).
- Coordinator.Execute: its contract gives the batch output as a function of
  the maps. That this output rearranges AsYouGo.txt is stated separately by
  `Coordinator.Collected`.
- Cleaning an argument that has no non-empty second dot-field throws in
  the source. Inside `run()` this ends the worker (`ProcessThreads.Worker`
  stops). In `main` it ends `main` before any batch is written
  (`Coordinator.Execute`). `Names.CleanName` itself requires
  `Names.ValidName`.

## Findings

| source | as written | input that shows it | evidently intended | confidence | as-written member | corrected member |
|---|---|---|---|---|---|---|
| src/com/translate/Application.java:126-131, 218-219 | `main` picks `BatchedTxt` whenever no worker met an empty answer. `BatchedTxt` then `continue`s without any change on a line counted by fewer files than there are. | arguments `./a.txt` (two lines) and `./b.txt` (one line), with a service that always answers the same non-empty text | write one batch per line, skipping missing entries, as `BatchedIncomplete` does | not executed | Coordinator.UnevenFilesSpin | Coordinator.WriteBatched |

The same spin follows when a worker ends early through an exception while
another file recorded more lines. That case leaves the flag clear and that
file's later lines uncounted, so a line counted by the longer file alone
never reaches `input.length`.
`Coordinator.WriteBatched` runs `BatchedTxt` only when the counts are
complete, and `BatchedIncomplete` otherwise. On complete counts both
emitters write the same output, so the corrected choice writes the sorted
buckets of lines 1 .. highest in every case.
