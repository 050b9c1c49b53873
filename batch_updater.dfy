/** Reconciliation of one finished batch (`BatchUpdater`): the AI's
    responses are turned into word-update messages, and the requested words
    without one are the words to query again. */
module Batch {
  import opened Wrappers
  import opened Text

  /** A stored prompt: the batch it belongs to, its id, the words it asked
      about and its text. */
  datatype Prompt = Prompt(batchId: string, promptId: string, words: seq<string>, text: string)

  /** One response of the finished batch: the prompt it answers and the
      text of its first output, which may be null. */
  datatype AiResponse = AiResponse(promptId: string, text: Option<string>)

  /** The update sent for one word. */
  datatype UpdateWordMessage = UpdateWordMessage(
    word: string, offensiveness: int, commonness: int, sentiment: int, wordTypes: seq<string>)

  /** The exception that aborts the whole call: a response that names a new,
      requested word but carries a value that is not an integer. */
  datatype UpdateError = InvalidValue(batchId: string, promptId: string, responseText: string)

  /** The four values of a record after its word. */
  datatype Values = Values(offensiveness: int, commonness: int, sentiment: int, wordTypes: seq<string>)

  /** What one response amounts to before deduplication: unusable (null or
      empty text, or not exactly five fields), or a record naming a word
      whose numeric values parsed (`Some`) or did not (`None`). */
  datatype Line =
    | Unusable
    | Record(promptId: string, text: string, word: string, values: Option<Values>)

  // ------------------------------------------------------ one response

  /** `responseText.Split(",").Select(item => item.Trim().ToLower())`. */
  function Fields(text: string): (fields: seq<string>)
    ensures |fields| >= 1
    ensures forall i :: 0 <= i < |fields| ==> IsLower(fields[i]) && IsTrimmed(fields[i]) && ',' !in fields[i]
  {
    var parts := Split(text, ',');
    forall i | 0 <= i < |parts| ensures ',' !in Normalize(parts[i]) {
      NormalizeKeepsChar(parts[i], ',');
    }
    NormalizeAll(parts)
  }

  /** The values of a five-field record: fields 1 to 3 as 32-bit integers
      and field 4 split on `/` into normalized word types. */
  function ParseValues(items: seq<string>): (v: Option<Values>)
    requires |items| == 5
    ensures v.Some? <==> ParseInt32(items[1]).Some? && ParseInt32(items[2]).Some? && ParseInt32(items[3]).Some?
    ensures v.Some? ==> && v.value.offensiveness == ParseInt32(items[1]).value
                        && v.value.commonness == ParseInt32(items[2]).value
                        && v.value.sentiment == ParseInt32(items[3]).value
                        && v.value.wordTypes == NormalizeAll(Split(items[4], '/'))
  {
    var offensiveness := ParseInt32(items[1]);
    var commonness := ParseInt32(items[2]);
    var sentiment := ParseInt32(items[3]);
    if offensiveness.None? || commonness.None? || sentiment.None? then None
    else Some(Values(offensiveness.value, commonness.value, sentiment.value, NormalizeAll(Split(items[4], '/'))))
  }

  /** The checks of one response that do not depend on earlier responses. */
  function Classify(r: AiResponse): (l: Line)
    ensures l.Record? <==> r.text.Some? && r.text.value != "" && |Fields(r.text.value)| == 5
    ensures l.Record? ==> l.promptId == r.promptId && l.text == r.text.value
    ensures l.Record? ==> l.word == Normalize(Split(r.text.value, ',')[0])
  {
    if r.text.None? || r.text.value == "" then Unusable
    else
      var responseItems := Fields(r.text.value);
      if |responseItems| != 5 then Unusable
      else Record(r.promptId, r.text.value, responseItems[0], ParseValues(responseItems))
  }

  /** There is one field more than there are commas, so a response is a
      record exactly when its text is non-empty and holds four commas. */
  lemma FieldsCount(r: AiResponse)
    requires r.text.Some?
    ensures |Fields(r.text.value)| == multiset(r.text.value)[','] + 1
    ensures Classify(r).Record? <==> r.text.value != "" && multiset(r.text.value)[','] == 4
  {
    SplitCount(r.text.value, ',');
  }

  /** Every response, classified. */
  function Lines(responses: seq<AiResponse>): seq<Line>
  {
    seq(|responses|, i requires 0 <= i < |responses| => Classify(responses[i]))
  }

  /** The message a record with parsed values yields. */
  function MessageOf(l: Line): UpdateWordMessage
    requires l.Record? && l.values.Some?
  {
    UpdateWordMessage(l.word, l.values.value.offensiveness, l.values.value.commonness,
                      l.values.value.sentiment, l.values.value.wordTypes)
  }

  // ------------------------------------------------------ the format

  /** A message the CSV format can carry: a normalized word without commas,
      32-bit values, and one or more normalized word types (empty ones
      included) without commas or slashes. */
  predicate Representable(m: UpdateWordMessage) {
    && IsLower(m.word) && IsTrimmed(m.word) && ',' !in m.word
    && InInt32(m.offensiveness) && InInt32(m.commonness) && InInt32(m.sentiment)
    && |m.wordTypes| >= 1
    && forall i :: 0 <= i < |m.wordTypes| ==>
         var t := m.wordTypes[i];
         IsLower(t) && IsTrimmed(t) && ',' !in t && '/' !in t
  }

  /** The five columns of a response line in the CSV form the code expects
      (BatchUpdater.cs:81-83), with the word types joined by slashes. */
  function Columns(m: UpdateWordMessage): seq<string>
    requires |m.wordTypes| >= 1
  {
    [m.word, ShowInt(m.offensiveness), ShowInt(m.commonness), ShowInt(m.sentiment), Join(m.wordTypes, '/')]
  }

  /** A response line in the CSV form the code expects:
      `word,offensiveness,commonness,sentiment,type/type/...`. */
  function Render(m: UpdateWordMessage): string
    requires |m.wordTypes| >= 1
  {
    Join(Columns(m), ',')
  }

  /** A column the CSV format carries unchanged: lower-case, trimmed and
      without a comma. */
  predicate NormalColumn(c: string) {
    IsLower(c) && IsTrimmed(c) && ',' !in c
  }

  lemma NumberColumn(n: int)
    ensures NormalColumn(ShowInt(n))
  {
    ShowIntShape(n);
  }

  lemma TypesColumn(types: seq<string>)
    requires |types| >= 1
    requires forall i :: 0 <= i < |types| ==> IsLower(types[i]) && IsTrimmed(types[i]) && ',' !in types[i]
    ensures NormalColumn(Join(types, '/'))
  {
    JoinExcludes(types, '/', ',');
    JoinLower(types, '/');
    JoinTrimmed(types, '/');
  }

  /** The columns of a representable message hold no comma and are already
      in normal form. */
  lemma ColumnsShape(m: UpdateWordMessage)
    requires Representable(m)
    ensures forall i :: 0 <= i < 5 ==> ',' !in Columns(m)[i] && Normalize(Columns(m)[i]) == Columns(m)[i]
  {
    var parts := Columns(m);
    NumberColumn(m.offensiveness);
    NumberColumn(m.commonness);
    NumberColumn(m.sentiment);
    TypesColumn(m.wordTypes);
    assert forall i :: 0 <= i < 5 ==> NormalColumn(parts[i]);
    forall i | 0 <= i < 5 ensures Normalize(parts[i]) == parts[i] {
      NormalizeNormal(parts[i]);
    }
  }

  /** The five fields of a rendered line are the word, the three numbers
      and the joined word types, unchanged by normalization. */
  lemma FieldsRender(m: UpdateWordMessage)
    requires Representable(m)
    ensures Render(m) != []
    ensures Fields(Render(m)) == [m.word, ShowInt(m.offensiveness), ShowInt(m.commonness),
                                  ShowInt(m.sentiment), Join(m.wordTypes, '/')]
  {
    var parts := Columns(m);
    ColumnsShape(m);
    SplitJoin(parts, ',');
    NormalizeAllFixed(parts);
    assert Render(m) == parts[0] + [','] + Join(parts[1..], ',');
  }

  lemma NormalizeAllFixed(parts: seq<string>)
    requires forall i :: 0 <= i < |parts| ==> Normalize(parts[i]) == parts[i]
    ensures NormalizeAll(parts) == parts
  {
  }

  /** The word types of a rendered line parse back to the message's types. */
  lemma WordTypesRender(types: seq<string>)
    requires |types| >= 1
    requires forall i :: 0 <= i < |types| ==> IsLower(types[i]) && IsTrimmed(types[i]) && '/' !in types[i]
    ensures NormalizeAll(Split(Join(types, '/'), '/')) == types
  {
    SplitJoin(types, '/');
    forall i | 0 <= i < |types| ensures Normalize(types[i]) == types[i] {
      NormalizeNormal(types[i]);
    }
  }

  /** Five fields whose numbers parse give the values they spell. */
  lemma ParseValuesOf(items: seq<string>, v: Values)
    requires |items| == 5
    requires ParseInt32(items[1]) == Some(v.offensiveness)
    requires ParseInt32(items[2]) == Some(v.commonness)
    requires ParseInt32(items[3]) == Some(v.sentiment)
    requires NormalizeAll(Split(items[4], '/')) == v.wordTypes
    ensures ParseValues(items) == Some(v)
  {
  }

  /** The numbers of a rendered line parse back to the message's numbers. */
  lemma NumbersRender(m: UpdateWordMessage, items: seq<string>)
    requires InInt32(m.offensiveness) && InInt32(m.commonness) && InInt32(m.sentiment)
    requires |items| == 5
    requires items[1] == ShowInt(m.offensiveness) && items[2] == ShowInt(m.commonness) && items[3] == ShowInt(m.sentiment)
    ensures ParseInt32(items[1]) == Some(m.offensiveness)
    ensures ParseInt32(items[2]) == Some(m.commonness)
    ensures ParseInt32(items[3]) == Some(m.sentiment)
  {
    ParseShowInt(m.offensiveness);
    ParseShowInt(m.commonness);
    ParseShowInt(m.sentiment);
  }

  /** The values of a rendered line parse back to the message's values. */
  lemma ParseValuesRender(m: UpdateWordMessage)
    requires Representable(m)
    ensures ParseValues([m.word, ShowInt(m.offensiveness), ShowInt(m.commonness),
                         ShowInt(m.sentiment), Join(m.wordTypes, '/')])
            == Some(Values(m.offensiveness, m.commonness, m.sentiment, m.wordTypes))
  {
    var items := [m.word, ShowInt(m.offensiveness), ShowInt(m.commonness), ShowInt(m.sentiment), Join(m.wordTypes, '/')];
    NumbersRender(m, items);
    WordTypesRender(m.wordTypes);
    ParseValuesOf(items, Values(m.offensiveness, m.commonness, m.sentiment, m.wordTypes));
  }

  /** Parsing a rendered line gives back the message it renders. */
  lemma ClassifyRender(m: UpdateWordMessage, promptId: string)
    requires Representable(m)
    ensures Classify(AiResponse(promptId, Some(Render(m)))) == Record(promptId, Render(m), m.word,
              Some(Values(m.offensiveness, m.commonness, m.sentiment, m.wordTypes)))
  {
    FieldsRender(m);
    ParseValuesRender(m);
  }

  /** The word types parsed from a field without commas are lower-case,
      trimmed, and free of commas and slashes. */
  lemma WordTypesShape(field: string)
    requires ',' !in field
    ensures forall i :: 0 <= i < |NormalizeAll(Split(field, '/'))| ==>
              var t := NormalizeAll(Split(field, '/'))[i];
              IsLower(t) && IsTrimmed(t) && ',' !in t && '/' !in t
  {
    var parts := Split(field, '/');
    SplitExcludes(field, '/', ',');
    forall i | 0 <= i < |parts| ensures ',' !in Normalize(parts[i]) && '/' !in Normalize(parts[i]) {
      NormalizeKeepsChar(parts[i], ',');
      NormalizeKeepsChar(parts[i], '/');
    }
  }

  /** What a record carries is always in normal form: a lower-case, trimmed
      word without commas, 32-bit values, and lower-case trimmed word types
      without commas or slashes. */
  lemma RecordShape(r: AiResponse)
    requires Classify(r).Record?
    ensures var l := Classify(r);
            && IsLower(l.word) && IsTrimmed(l.word) && ',' !in l.word
            && (l.values.Some? ==>
                  var v := l.values.value;
                  && InInt32(v.offensiveness) && InInt32(v.commonness) && InInt32(v.sentiment)
                  && forall i :: 0 <= i < |v.wordTypes| ==>
                       IsLower(v.wordTypes[i]) && IsTrimmed(v.wordTypes[i]) && ',' !in v.wordTypes[i] && '/' !in v.wordTypes[i])
  {
    WordTypesShape(Fields(r.text.value)[4]);
  }

  // ------------------------------------------------------ the pass

  /** The words of a list of messages. */
  function WordsOf(messages: seq<UpdateWordMessage>): set<string> {
    set m | m in messages :: m.word
  }

  /** No two messages carry the same word. */
  predicate DistinctWords(messages: seq<UpdateWordMessage>) {
    forall i, j :: 0 <= i < j < |messages| ==> messages[i].word != messages[j].word
  }

  /** The pass over the responses (the `foreach` loop of
      `GetUpdateWordMessages`), stated on their classified lines: after the
      last line, the messages accepted so far, or the error that aborted. */
  function Reconcile(batchId: string, lines: seq<Line>, requested: set<string>): Result<seq<UpdateWordMessage>, UpdateError>
  {
    if lines == [] then Ok([])
    else
      match Reconcile(batchId, lines[..|lines| - 1], requested)
      case Err(e) => Err(e)
      case Ok(messages) => Accept(batchId, lines[|lines| - 1], requested, messages)
  }

  /** One iteration of the pass: an unusable line, a word already output
      and an unrequested word are skipped; otherwise the values must have
      parsed, and the line's message is appended. */
  function Accept(batchId: string, l: Line, requested: set<string>, messages: seq<UpdateWordMessage>)
    : Result<seq<UpdateWordMessage>, UpdateError>
  {
    if l.Unusable? || l.word in WordsOf(messages) || l.word !in requested then Ok(messages)
    else if l.values.None? then Err(InvalidValue(batchId, l.promptId, l.text))
    else Ok(messages + [MessageOf(l)])
  }

  /** `GetUpdateWordMessages`: one pass over the responses, keeping the set
      of words already output and the list of messages, and throwing on the
      first accepted response with a non-integer value. */
  method GetUpdateWordMessages(batchId: string, responses: seq<AiResponse>, requestedWords: set<string>)
    returns (r: Result<seq<UpdateWordMessage>, UpdateError>)
    ensures r == Reconcile(batchId, Lines(responses), requestedWords)
    ensures r.Ok? ==> DistinctWords(r.value) && WordsOf(r.value) <= requestedWords && |r.value| <= |responses|
  {
    var outputWords: set<string> := {};
    var outputMessages: seq<UpdateWordMessage> := [];
    for i := 0 to |responses|
      invariant Reconcile(batchId, Lines(responses)[..i], requestedWords) == Ok(outputMessages)
      invariant outputWords == WordsOf(outputMessages)
    {
      ReconcileStep(batchId, responses, requestedWords, i, outputMessages);
      var handled := HandleResponse(batchId, responses[i], requestedWords, outputWords, outputMessages);
      match handled {
        case Err(e) =>
          ReconcileErrSticks(batchId, Lines(responses), requestedWords, i + 1);
          return Err(e);
        case Ok(None) =>
        case Ok(Some(message)) =>
          AddWord(outputMessages, message);
          outputMessages := outputMessages + [message];
          outputWords := outputWords + {message.word};
      }
    }
    assert Lines(responses)[..|responses|] == Lines(responses);
    ReconcileInvariants(batchId, Lines(responses), requestedWords);
    return Ok(outputMessages);
  }

  /** What one iteration's outcome does to the list of messages. */
  function Applied(r: Result<Option<UpdateWordMessage>, UpdateError>, messages: seq<UpdateWordMessage>)
    : Result<seq<UpdateWordMessage>, UpdateError>
  {
    match r
    case Err(e) => Err(e)
    case Ok(None) => Ok(messages)
    case Ok(Some(m)) => Ok(messages + [m])
  }

  /** The body of the loop of `GetUpdateWordMessages` for one response:
      `Ok(None)` where the source logs and continues, `Ok(Some(m))` where it
      adds the message `m`, and `Err` where it throws. It is one iteration
      of the pass. */
  method HandleResponse(batchId: string, response: AiResponse, requestedWords: set<string>,
                        outputWords: set<string>, outputMessages: seq<UpdateWordMessage>)
    returns (r: Result<Option<UpdateWordMessage>, UpdateError>)
    requires outputWords == WordsOf(outputMessages)
    ensures Accept(batchId, Classify(response), requestedWords, outputMessages) == Applied(r, outputMessages)
    ensures r.Ok? && r.value.Some? ==> r.value.value.word !in outputWords
  {
    if response.text.None? || response.text.value == "" {
      return Ok(None);
    }
    var responseText := response.text.value;
    var responseItems := Fields(responseText);
    if |responseItems| != 5 {
      return Ok(None);
    }
    assert Classify(response) == Record(response.promptId, responseText, responseItems[0], ParseValues(responseItems));
    r := HandleRecord(batchId, response.promptId, responseText, responseItems, requestedWords, outputWords, outputMessages);
  }

  /** The rest of the loop body for a response with five fields: skip a
      word already output or not requested, throw when a value is not an
      integer, and otherwise build the message. */
  method HandleRecord(batchId: string, promptId: string, responseText: string, responseItems: seq<string>,
                      requestedWords: set<string>, outputWords: set<string>, outputMessages: seq<UpdateWordMessage>)
    returns (r: Result<Option<UpdateWordMessage>, UpdateError>)
    requires |responseItems| == 5 && outputWords == WordsOf(outputMessages)
    ensures var line := Record(promptId, responseText, responseItems[0], ParseValues(responseItems));
            Accept(batchId, line, requestedWords, outputMessages) == Applied(r, outputMessages)
    ensures r.Ok? && r.value.Some? ==> r.value.value.word !in outputWords
  {
    ghost var line := Record(promptId, responseText, responseItems[0], ParseValues(responseItems));
    var word := responseItems[0];
    if word in outputWords {
      return Ok(None);
    }
    if word !in requestedWords {
      return Ok(None);
    }
    var values := ParseValues(responseItems);
    if values.None? {
      return Err(InvalidValue(batchId, promptId, responseText));
    }
    var message := UpdateWordMessage(word, values.value.offensiveness, values.value.commonness,
                                     values.value.sentiment, values.value.wordTypes);
    assert message == MessageOf(line);
    return Ok(Some(message));
  }

  /** Appending a message adds its word to the words of a list. */
  lemma AddWord(messages: seq<UpdateWordMessage>, m: UpdateWordMessage)
    ensures WordsOf(messages + [m]) == WordsOf(messages) + {m.word}
  {
    forall w | w in WordsOf(messages + [m]) ensures w in WordsOf(messages) + {m.word} {
      var m' :| m' in messages + [m] && m'.word == w;
    }
  }

  /** The pass over one more response is one more iteration. */
  lemma ReconcileStep(batchId: string, responses: seq<AiResponse>, requested: set<string>, i: nat, ms: seq<UpdateWordMessage>)
    requires i < |responses|
    requires Reconcile(batchId, Lines(responses)[..i], requested) == Ok(ms)
    ensures Reconcile(batchId, Lines(responses)[..i + 1], requested) == Accept(batchId, Classify(responses[i]), requested, ms)
  {
    var lines := Lines(responses);
    PrefixStep(batchId, lines, requested, i, ms);
    assert lines[i] == Classify(responses[i]);
  }

  /** The pass over the first `i + 1` lines is the pass over the first `i`
      followed by one step on line `i`. */
  lemma PrefixStep(batchId: string, lines: seq<Line>, requested: set<string>, i: nat, ms: seq<UpdateWordMessage>)
    requires i < |lines|
    requires Reconcile(batchId, lines[..i], requested) == Ok(ms)
    ensures Reconcile(batchId, lines[..i + 1], requested) == Accept(batchId, lines[i], requested, ms)
  {
    var pre := lines[..i + 1];
    assert pre[..|pre| - 1] == lines[..i];
  }

  /** Once the pass has thrown, the remaining responses do not matter. */
  lemma {:induction false} ReconcileErrSticks(batchId: string, lines: seq<Line>, requested: set<string>, k: nat)
    requires k <= |lines|
    requires Reconcile(batchId, lines[..k], requested).Err?
    ensures Reconcile(batchId, lines, requested) == Reconcile(batchId, lines[..k], requested)
    decreases |lines| - k
  {
    if k < |lines| {
      var init := lines[..|lines| - 1];
      assert init[..k] == lines[..k];
      ReconcileErrSticks(batchId, init, requested, k);
    } else {
      assert lines[..k] == lines;
    }
  }

  /** The accepted messages carry pairwise distinct words, all of them
      requested, and there are no more of them than responses. */
  lemma {:induction false} ReconcileInvariants(batchId: string, lines: seq<Line>, requested: set<string>)
    ensures Reconcile(batchId, lines, requested).Ok? ==>
              var ms := Reconcile(batchId, lines, requested).value;
              DistinctWords(ms) && WordsOf(ms) <= requested && |ms| <= |lines|
  {
    if lines != [] {
      var init := lines[..|lines| - 1];
      ReconcileInvariants(batchId, init, requested);
      match Reconcile(batchId, init, requested)
      case Err(_) =>
      case Ok(ms) =>
        var l := lines[|lines| - 1];
        if !(l.Unusable? || l.word in WordsOf(ms) || l.word !in requested) && l.values.Some? {
          var ms' := ms + [MessageOf(l)];
          assert WordsOf(ms') == WordsOf(ms) + {l.word} by {
            forall w ensures w in WordsOf(ms') <==> w in WordsOf(ms) + {l.word} {
              if w in WordsOf(ms') {
                var m :| m in ms' && m.word == w;
              }
            }
          }
          forall i, j | 0 <= i < j < |ms'| ensures ms'[i].word != ms'[j].word {
            if j == |ms| {
              assert ms[i] in ms;
            }
          }
        }
    }
  }

  // ------------------------------------------------------ the reference

  /** A record the pass would consider: it names a requested word. */
  predicate Candidate(l: Line, requested: set<string>) {
    l.Record? && l.word in requested
  }

  /** Line `j` is the earliest candidate naming its word. */
  predicate FirstCandidate(lines: seq<Line>, j: nat, requested: set<string>)
    requires j < |lines|
  {
    Candidate(lines[j], requested)
    && forall i :: 0 <= i < j && Candidate(lines[i], requested) ==> lines[i].word != lines[j].word
  }

  /** Line `j` is the earliest candidate for its word and its values did not
      parse: the pass must throw on it, unless it threw earlier. */
  predicate IsBad(lines: seq<Line>, j: nat, requested: set<string>)
    requires j < |lines|
  {
    FirstCandidate(lines, j, requested) && lines[j].values.None?
  }

  /** The words named by any candidate. */
  function CandidateWords(lines: seq<Line>, requested: set<string>): set<string> {
    set j | 0 <= j < |lines| && Candidate(lines[j], requested) :: lines[j].word
  }

  /** The messages of the earliest candidate for each word, in the order of
      the lines. */
  function Selected(lines: seq<Line>, requested: set<string>): seq<UpdateWordMessage> {
    if lines == [] then []
    else
      var n := |lines| - 1;
      Selected(lines[..n], requested)
        + (if FirstCandidate(lines, n, requested) && lines[n].values.Some? then [MessageOf(lines[n])] else [])
  }

  /** Whether a line is the earliest candidate for its word does not depend
      on later lines. */
  lemma FirstCandidatePrefix(lines: seq<Line>, k: nat, j: nat, requested: set<string>)
    requires j < k <= |lines|
    ensures FirstCandidate(lines[..k], j, requested) == FirstCandidate(lines, j, requested)
    ensures IsBad(lines[..k], j, requested) == IsBad(lines, j, requested)
  {
    assert forall i :: 0 <= i <= j ==> lines[..k][i] == lines[i];
  }

  /** The candidate words of a list with one more line. */
  lemma CandidateWordsSnoc(lines: seq<Line>, requested: set<string>)
    requires lines != []
    ensures var n := |lines| - 1;
            CandidateWords(lines, requested)
            == CandidateWords(lines[..n], requested) + (if Candidate(lines[n], requested) then {lines[n].word} else {})
  {
    var n := |lines| - 1;
    var init := lines[..n];
    var l := lines[n];
    forall w | w in CandidateWords(lines, requested)
      ensures w in CandidateWords(init, requested) || (Candidate(l, requested) && w == l.word)
    {
      var j :| 0 <= j < |lines| && Candidate(lines[j], requested) && lines[j].word == w;
      if j < n {
        assert init[j] == lines[j];
      }
    }
    forall w | w in CandidateWords(init, requested) ensures w in CandidateWords(lines, requested) {
      var j :| 0 <= j < n && Candidate(init[j], requested) && init[j].word == w;
      assert lines[j] == init[j];
    }
  }

  /** The last line is the earliest candidate for its word iff it is a
      candidate whose word no earlier candidate names. */
  lemma FirstCandidateLast(lines: seq<Line>, requested: set<string>)
    requires lines != []
    ensures var n := |lines| - 1;
            FirstCandidate(lines, n, requested)
            <==> Candidate(lines[n], requested) && lines[n].word !in CandidateWords(lines[..n], requested)
  {
    var n := |lines| - 1;
    var init := lines[..n];
    if Candidate(lines[n], requested) && lines[n].word in CandidateWords(init, requested) {
      var j :| 0 <= j < n && Candidate(init[j], requested) && init[j].word == lines[n].word;
      assert lines[j] == init[j];
    }
  }

  /** The pass equals the reference: it throws iff some earliest candidate
      has values that do not parse, and then on the first such line;
      otherwise it returns the messages of the earliest candidates, in
      order, and so covers exactly the words the candidates name. */
  lemma {:induction false} ReconcileMatchesReference(batchId: string, lines: seq<Line>, requested: set<string>)
    ensures Reconcile(batchId, lines, requested).Ok? <==> forall j :: 0 <= j < |lines| ==> !IsBad(lines, j, requested)
    ensures Reconcile(batchId, lines, requested).Ok? ==>
              && Reconcile(batchId, lines, requested).value == Selected(lines, requested)
              && WordsOf(Reconcile(batchId, lines, requested).value) == CandidateWords(lines, requested)
    ensures Reconcile(batchId, lines, requested).Err? ==>
              exists j :: 0 <= j < |lines| && IsBad(lines, j, requested)
                          && (forall i :: 0 <= i < j ==> !IsBad(lines, i, requested))
                          && Reconcile(batchId, lines, requested).error == InvalidValue(batchId, lines[j].promptId, lines[j].text)
  {
    if lines != [] {
      var n := |lines| - 1;
      var init := lines[..n];
      var l := lines[n];
      ReconcileMatchesReference(batchId, init, requested);
      forall j | 0 <= j < n
        ensures IsBad(init, j, requested) == IsBad(lines, j, requested)
      {
        FirstCandidatePrefix(lines, n, j, requested);
      }
      CandidateWordsSnoc(lines, requested);
      FirstCandidateLast(lines, requested);
      match Reconcile(batchId, init, requested)
      case Err(e) =>
        assert Reconcile(batchId, lines, requested) == Err(e);
        var j :| 0 <= j < n && IsBad(init, j, requested)
                 && (forall i :: 0 <= i < j ==> !IsBad(init, i, requested))
                 && e == InvalidValue(batchId, init[j].promptId, init[j].text);
        assert init[j] == lines[j];
        assert IsBad(lines, j, requested);
      case Ok(ms) =>
        forall j | 0 <= j < n ensures !IsBad(lines, j, requested) {
          assert !IsBad(init, j, requested);
        }
        if l.Unusable? || l.word in WordsOf(ms) || l.word !in requested {
          assert Reconcile(batchId, lines, requested) == Ok(ms);
          assert !FirstCandidate(lines, n, requested);
        } else if l.values.None? {
          assert Reconcile(batchId, lines, requested) == Err(InvalidValue(batchId, l.promptId, l.text));
          assert IsBad(lines, n, requested);
        } else {
          AddWord(ms, MessageOf(l));
          assert Reconcile(batchId, lines, requested) == Ok(ms + [MessageOf(l)]);
          assert FirstCandidate(lines, n, requested);
        }
    }
  }

  /** Line `j` contributes nothing when it is no candidate (its response
      was null, empty, not five fields, or names an unrequested word) or
      when an earlier candidate already named its word: removing it leaves
      the outcome of the pass unchanged. */
  lemma {:induction false} SkippedLineIrrelevant(batchId: string, lines: seq<Line>, j: nat, requested: set<string>)
    requires j < |lines|
    requires !Candidate(lines[j], requested)
             || exists i :: 0 <= i < j && Candidate(lines[i], requested) && lines[i].word == lines[j].word
    ensures Reconcile(batchId, lines[..j] + lines[j + 1..], requested) == Reconcile(batchId, lines, requested)
    decreases |lines|
  {
    var n := |lines| - 1;
    if j == n {
      assert lines[..j] + lines[j + 1..] == lines[..n];
      if Candidate(lines[n], requested) {
        LaterDuplicateSkipped(batchId, lines, requested);
      }
    } else {
      var init := lines[..n];
      assert init[..j] == lines[..j] && init[j] == lines[j];
      assert forall i :: 0 <= i < j ==> init[i] == lines[i];
      SkippedLineIrrelevant(batchId, init, j, requested);
      RemoveBeforeLast(lines, j);
    }
  }

  /** A last line whose word an earlier candidate already named is skipped
      by the pass. */
  lemma LaterDuplicateSkipped(batchId: string, lines: seq<Line>, requested: set<string>)
    requires lines != [] && Candidate(lines[|lines| - 1], requested)
    requires exists i :: 0 <= i < |lines| - 1 && Candidate(lines[i], requested) && lines[i].word == lines[|lines| - 1].word
    ensures Reconcile(batchId, lines[..|lines| - 1], requested) == Reconcile(batchId, lines, requested)
  {
    var n := |lines| - 1;
    var init := lines[..n];
    var l := lines[n];
    var i :| 0 <= i < n && Candidate(lines[i], requested) && lines[i].word == l.word;
    ReconcileMatchesReference(batchId, init, requested);
    assert init[i] == lines[i];
    assert l.word in CandidateWords(init, requested);
  }

  /** Removing line `j` before the last one leaves the last line last. */
  lemma RemoveBeforeLast(lines: seq<Line>, j: nat)
    requires j < |lines| - 1
    ensures var shorter := lines[..j] + lines[j + 1..];
            var init := lines[..|lines| - 1];
            && shorter != []
            && shorter[..|shorter| - 1] == init[..j] + init[j + 1..]
            && shorter[|shorter| - 1] == lines[|lines| - 1]
  {
    var shorter := lines[..j] + lines[j + 1..];
    var init := lines[..|lines| - 1];
    assert shorter[..|shorter| - 1] == init[..j] + init[j + 1..];
  }

  // ------------------------------------------------------ the batch

  /** The requested words: every word of every prompt of the batch,
      lower-cased. */
  function RequestedWords(prompts: seq<Prompt>): (words: set<string>)
    ensures forall i, j :: 0 <= i < |prompts| && 0 <= j < |prompts[i].words| ==> ToLower(prompts[i].words[j]) in words
    ensures forall w :: w in words ==> IsLower(w)
    ensures forall w :: w in words ==>
              exists i, j :: 0 <= i < |prompts| && 0 <= j < |prompts[i].words| && w == ToLower(prompts[i].words[j])
  {
    set i, j | 0 <= i < |prompts| && 0 <= j < |prompts[i].words| :: ToLower(prompts[i].words[j])
  }

  /** What the batch hands on: the update messages and the words to query
      again. */
  datatype BatchPlan = BatchPlan(updates: seq<UpdateWordMessage>, wordsToQuery: set<string>)

  /** Lines 130-150 of `UpdateBatchAsync`: the requested set, the pass, and
      `requestedWords.Except(updated words)`. Every requested word ends up in
      exactly one of the two outputs; a word is queried again exactly when
      no response names it as a candidate. */
  function PlanBatch(batchId: string, prompts: seq<Prompt>, responses: seq<AiResponse>): (r: Result<BatchPlan, UpdateError>)
    ensures r.Err? <==> Reconcile(batchId, Lines(responses), RequestedWords(prompts)).Err?
    ensures r.Ok? ==> WordsOf(r.value.updates) !! r.value.wordsToQuery
    ensures r.Ok? ==> WordsOf(r.value.updates) + r.value.wordsToQuery == RequestedWords(prompts)
    ensures r.Ok? ==> forall w :: w in r.value.wordsToQuery <==>
                        w in RequestedWords(prompts) && w !in CandidateWords(Lines(responses), RequestedWords(prompts))
  {
    var requested := RequestedWords(prompts);
    var lines := Lines(responses);
    match Reconcile(batchId, lines, requested)
    case Err(e) => Err(e)
    case Ok(updates) =>
      ReconcileInvariants(batchId, lines, requested);
      ReconcileMatchesReference(batchId, lines, requested);
      Ok(BatchPlan(updates, requested - WordsOf(updates)))
  }

  /** Response words are trimmed but requested words are only lower-cased:
      a requested word with surrounding white space is never matched and is
      always queried again. */
  lemma UntrimmedAlwaysRetried(batchId: string, prompts: seq<Prompt>, responses: seq<AiResponse>, w: string)
    requires PlanBatch(batchId, prompts, responses).Ok?
    requires w in RequestedWords(prompts) && !IsTrimmed(w)
    ensures w in PlanBatch(batchId, prompts, responses).value.wordsToQuery
  {
    var lines := Lines(responses);
    forall j | 0 <= j < |lines| && Candidate(lines[j], RequestedWords(prompts)) ensures lines[j].word != w {
      RecordShape(responses[j]);
    }
  }
}
