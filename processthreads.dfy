/**
 * One worker (`ProcessThreads.run`): it reads its file line by line, has each
 * line translated, and records every translation under "<name>-<line>" until
 * the file ends, the service answers with the empty string (offline), or an
 * exception ends it.  The translation service is a parameter.
 */
module ProcessThreads {
  import opened Names
  import opened Collation
  import opened App

  /**
   * What `translateString` does with one line: it returns a text ("" when
   * the service is unavailable) or throws.
   */
  datatype Reply = Translated(text: string) | Raised

  /** What a worker achieves: the lines it recorded, and whether it saw the service offline. */
  datatype Outcome = Outcome(texts: seq<string>, offline: bool)

  /** Whether the worker stops at a line with this reply instead of recording it. */
  predicate Stops(fileName: string, reply: Reply)
  {
    reply == Raised || reply == Translated("") || !ValidName(fileName)
  }

  /**
   * The specification of one worker: the longest prefix of the file whose
   * lines translate to non-empty texts (none if the name cannot be cleaned),
   * and whether the line after it came back empty.
   */
  function Worker(fileName: string, lines: seq<string>, translate: string -> Reply): (o: Outcome)
    ensures Explains(fileName, lines, translate, o.texts, o.offline)
  {
    if lines == [] then Outcome([], false)
    else
      match translate(lines[0])
      case Raised => Outcome([], false)
      case Translated(t) =>
        if t == "" then Outcome([], true)
        else if !ValidName(fileName) then Outcome([], false)
        else
          var rest := Worker(fileName, lines[1..], translate);
          assert forall i :: 1 <= i <= |rest.texts| ==> lines[i] == lines[1..][i - 1];
          Outcome([t] + rest.texts, rest.offline)
  }

  /** Recording one more line of a prefix extends the record of that prefix by one line. */
  lemma RecordNext(st: Store, name: string, texts: seq<string>, i: nat)
    requires i < |texts|
    ensures RecordLines(st, name, texts[..i + 1])
         == Record(RecordLines(st, name, texts[..i]), name, i + 1, texts[i])
  {
    assert texts[..i + 1][..i] == texts[..i];
  }

  /** Writing the next line of a prefix after what was written before. */
  lemma AppendNext(out: seq<string>, texts: seq<string>, i: nat)
    requires i < |texts|
    ensures out + texts[..i + 1] == out + texts[..i] + [texts[i]]
  {
    assert texts[..i + 1] == texts[..i] + [texts[i]];
  }

  /**
   * The record step for one line: the text goes under the key "<name>-<line>"
   * and the line's arrival count goes up by one (from 1 if the line was not
   * counted yet).
   */
  method RecordLine(app: Application, input: string, lineNumber: nat, result: string)
    modifies app`temp, app`forCounter
    ensures Store(app.temp, app.forCounter) == Record(Store(old(app.temp), old(app.forCounter)), input, lineNumber, result)
  {
    app.temp := app.temp[Key(input, lineNumber) := result];
    if lineNumber in app.forCounter {
      app.forCounter := app.forCounter[lineNumber := app.forCounter[lineNumber] + 1];
    } else {
      app.forCounter := app.forCounter[lineNumber := 1];
    }
  }

  /**
   * What `run()` does with a non-empty translation of line `lineNumber`: it
   * cleans the file name, records the line, and appends the text to
   * AsYouGo.txt. Given that lines 1 .. lineNumber - 1 of `texts` are already
   * recorded and written, so is line `lineNumber` afterwards.
   */
  method Deliver(app: Application, fileName: string, lineNumber: nat, result: string,
                 ghost st0: Store, ghost out0: seq<string>, ghost texts: seq<string>, ghost done: nat)
    requires ValidName(fileName)
    requires lineNumber == done + 1 && done < |texts| && texts[done] == result
    requires Store(app.temp, app.forCounter) == RecordLines(st0, CleanName(fileName), texts[..done])
    requires app.asYouGo == out0 + texts[..done]
    modifies app`temp, app`forCounter, app`asYouGo
    ensures Store(app.temp, app.forCounter) == RecordLines(st0, CleanName(fileName), texts[..done + 1])
    ensures app.asYouGo == out0 + texts[..done + 1]
  {
    var input := CleanTheInputs([fileName])[0];
    RecordNext(st0, input, texts, done);
    AppendNext(out0, texts, done);
    RecordLine(app, input, lineNumber, result);
    app.WriteToAsYouGoTxt(result);
  }

  /**
   * What the worker's outcome says about the file: `texts` are the non-empty
   * translations of its first lines, the line after them stops the worker,
   * and `offline` tells whether that line came back empty.
   */
  predicate Explains(fileName: string, lines: seq<string>, translate: string -> Reply, texts: seq<string>, offline: bool)
  {
    && |texts| <= |lines|
    && (forall i :: 0 <= i < |texts| ==> translate(lines[i]) == Translated(texts[i]) && texts[i] != "")
    && (texts != [] ==> ValidName(fileName))
    && (|texts| < |lines| ==> Stops(fileName, translate(lines[|texts|])))
    && (offline <==> |texts| < |lines| && translate(lines[|texts|]) == Translated(""))
  }

  /** Where the explained worker stops, and why. */
  lemma ExplainsAt(fileName: string, lines: seq<string>, translate: string -> Reply,
                   texts: seq<string>, offline: bool, i: nat)
    requires Explains(fileName, lines, translate, texts, offline)
    requires i <= |texts| && i < |lines|
    ensures Stops(fileName, translate(lines[i])) ==>
      texts[..i] == texts && (offline <==> translate(lines[i]) == Translated(""))
    ensures !Stops(fileName, translate(lines[i])) ==> i < |texts| && Translated(texts[i]) == translate(lines[i])
  {
  }

  /** The outcome that explains a file is the worker's: no other one does. */
  lemma {:induction false} ExplainsUnique(fileName: string, lines: seq<string>, translate: string -> Reply,
                                          texts: seq<string>, offline: bool)
    requires Explains(fileName, lines, translate, texts, offline)
    ensures Worker(fileName, lines, translate) == Outcome(texts, offline)
  {
  }

  /**
   * `run()`: line numbers start at 1 and rise by one per recorded line; an
   * empty translation sets the offline flag and ends the worker; an exception
   * (from the service, or from cleaning a malformed file name) ends it
   * without setting the flag.  Each recorded line is appended to AsYouGo.txt.
   */
  method Run(app: Application, fileName: string, lines: seq<string>, translate: string -> Reply)
    modifies app`temp, app`forCounter, app`isApiOffline, app`asYouGo
    ensures var o := Worker(fileName, lines, translate);
      && app.State() == (if ValidName(fileName)
                         then RecordLines(old(app.State()), CleanName(fileName), o.texts)
                         else old(app.State()))
      && app.asYouGo == old(app.asYouGo) + o.texts
      && app.isApiOffline == (old(app.isApiOffline) || o.offline)
  {
    ghost var o := Worker(fileName, lines, translate);
    ghost var name := if ValidName(fileName) then CleanName(fileName) else "";
    ReadLoop(app, fileName, lines, translate, o.texts, o.offline, name);
  }

  /** The read loop of `run()`, for any outcome that explains the file. */
  method ReadLoop(app: Application, fileName: string, lines: seq<string>, translate: string -> Reply,
                  ghost texts: seq<string>, ghost offline: bool, ghost name: string)
    requires Explains(fileName, lines, translate, texts, offline)
    requires ValidName(fileName) ==> name == CleanName(fileName)
    modifies app`temp, app`forCounter, app`isApiOffline, app`asYouGo
    ensures Store(app.temp, app.forCounter) == RecordLines(old(Store(app.temp, app.forCounter)), name, texts)
    ensures app.asYouGo == old(app.asYouGo) + texts
    ensures app.isApiOffline == (old(app.isApiOffline) || offline)
  {
    ghost var st0, out0 := Store(app.temp, app.forCounter), app.asYouGo;
    var lineNumber: nat := 1;
    var i := 0;
    while i < |lines|
      invariant i <= |texts| && lineNumber == i + 1
      invariant i > 0 ==> ValidName(fileName)
      invariant Store(app.temp, app.forCounter) == RecordLines(st0, name, texts[..i])
      invariant app.asYouGo == out0 + texts[..i]
      invariant app.isApiOffline == old(app.isApiOffline)
    {
      var query := lines[i];
      var reply := translate(query);
      ExplainsAt(fileName, lines, translate, texts, offline, i);
      if reply.Raised? {
        assert texts[..i] == texts && !offline;
        break;
      }
      var result := reply.text;
      if result == "" {
        assert texts[..i] == texts && offline;
        app.SetApiOffline(true);
        return;
      }
      if !ValidName(fileName) {
        assert texts == [] && !offline;
        break;
      }
      Deliver(app, fileName, lineNumber, result, st0, out0, texts, i);
      lineNumber := lineNumber + 1;
      i := i + 1;
    }
    assert texts[..i] == texts;
  }
}
