# Word list batch update: reconciliation and attribute parsing

This project models the core of the `UpdateBatch` processing function of a word-list
service. The service sends batches of prompts to an AI model. Each prompt asks about
a few words. When a batch has finished, the function does two things:

- it turns the AI's responses into one update message per word;
- it collects the requested words that got no usable answer, so they can be queried again.

The model covers two parts of that function.

- `BatchUpdater.GetUpdateWordMessages` reads the responses in order. For each one it:
  - skips a null or empty response text;
  - splits the text on commas, then trims and lower-cases every field;
  - keeps only responses with exactly five fields: word, offensiveness, commonness,
    sentiment, and a slash-separated list of word types;
  - skips a word that was already output, and a word that was not requested;
  - throws, aborting the whole call, when an accepted response holds a value that is not
    a 32-bit integer.

  The requested set is the lower-cased words of every prompt of the batch. The words to
  query again are that set minus the words of the messages. The model is the `Batch`
  module: an imperative method with its loop, proved equal to a prefix-recursive
  specification `Reconcile`. A second, independent reference definition characterises
  the result as "the earliest candidate for each word", and it is proved equal to the
  pass.
- `AttributeParser` is an object that caches an attribute schema. The schema is a list
  of attribute definitions, each with a name and an inclusive `[min, max]` range.
  - Its first successful load builds a name-to-definition map and the list of names in
    ascending order.
  - `ParseAttributesFromResponse` then validates a positional range of response fields
    against the schema. Field `firstIndex + i` must hold an integer in the range of the
    `i`-th name.

  The model is the `Attributes` module: a class with both fields, `modifies` on the
  loading method, and a parsing method whose loop is proved against a specification
  function.

Supporting modules:

- `Text` holds `Trim`, `ToLower`, `Split` and `int.TryParse`. `Split` and `int.TryParse` come with round trips (`JoinSplit`, `SplitJoin`, `ParseShowInt`). `Trim` and `ToLower` come with contracts that fix their result uniquely, and with idempotence.
- `Ordering` holds the ordinal string order and the sort that `OrderBy(k => k)` performs.
- `Wrappers` holds `Option`, `Result` and `Outcome`.

Exceptions become `Err`/`Fail` values. The store fetch of `LoadAttributesAsync` becomes
a parameter holding the definitions the store returns.

### Behaviour of the code worth knowing

- A response text is one record. It is not split into lines.
- A non-integer value in an accepted response aborts the whole call. The response is not
  skipped into the retry set.
- `GetUpdateWordMessages` does not use `AttributeParser`. It reads exactly three integer
  fields at positions 1 to 3.
- The update message carries three named integers and the word types, not an attribute map.

## Model

| member | source | states |
|---|---|---|
| Text.Trim | BatchUpdater.cs:74 | the result has no white space at either end, and it is a contiguous slice of the input with only white space cut off on both sides |
| Text.TrimTrimmed | BatchUpdater.cs:74 | trimming a string without surrounding white space leaves it unchanged |
| Text.TrimIdempotent | BatchUpdater.cs:74 | trimming twice equals trimming once |
| Text.ToLower | BatchUpdater.cs:74 | same length, no upper-case letter left, and each character is either kept or is an upper-case letter mapped to its lower-case letter |
| Text.ToLowerIdempotent | BatchUpdater.cs:132 | lower-casing twice equals lower-casing once |
| Text.Normalize | BatchUpdater.cs:74 | `Trim().ToLower()` gives a lower-case, trimmed string |
| Text.NormalizeNormal | BatchUpdater.cs:74 | a lower-case, trimmed string is its own normal form |
| Text.NormalizeIdempotent | BatchUpdater.cs:74 | normalizing twice equals normalizing once |
| Text.NormalizeKeepsChar | BatchUpdater.cs:74 | normalizing cannot introduce a separator such as `,` or `/` |
| Text.NormalizeAll | BatchUpdater.cs:74 | the per-item `Select(item => item.Trim().ToLower())`: same length, item by item |
| Text.Split | BatchUpdater.cs:74 | at least one piece, and no piece contains the separator |
| Text.JoinSplit | BatchUpdater.cs:74 | splitting loses nothing: joining the pieces with the separator gives the input back |
| Text.SplitJoin | BatchUpdater.cs:103 | joining pieces free of the separator and splitting again gives the pieces back |
| Text.SplitExcludes | BatchUpdater.cs:103 | a character missing from the input is missing from every piece |
| Text.SplitCount | BatchUpdater.cs:74-75 | the number of pieces is one more than the number of separators, so five fields means exactly four commas |
| Text.ParseInt32 | BatchUpdater.cs:98-100 | `int.TryParse` succeeds only with a value inside the 32-bit signed range |
| Text.ParseShowInt | BatchUpdater.cs:98-100 | every 32-bit integer written in decimal parses back to itself |
| Text.ShowIntShape | BatchUpdater.cs:98-100 | the decimal form of an integer is digits with at most a leading minus, and is already lower-case and trimmed |
| Ordering.LexLeTotal | AttributeParser.cs:21 | any two names are comparable in the ordinal order |
| Ordering.LexLeAntisymmetric | AttributeParser.cs:21 | names that sort before each other are equal |
| Ordering.LexLeTransitive | AttributeParser.cs:21 | the ordinal order is transitive |
| Ordering.Insert | AttributeParser.cs:21 | inserting into a sorted list keeps it sorted, adds exactly that element, and keeps it free of repeats |
| Ordering.SortNames | AttributeParser.cs:21 | `OrderBy(k => k)` returns a sorted permutation of its input, free of repeats when the input is |
| Ordering.SortedUnique | AttributeParser.cs:21 | two sorted lists with the same elements are equal, so the sorted order is unique |
| Attributes.ToDictionary | AttributeParser.cs:16-19 | on success every definition is stored under its own name, and every entry is one of the definitions, keyed by its name |
| Attributes.ToDictionaryOkIffDistinct | AttributeParser.cs:16-19 | building the dictionary succeeds iff no name occurs twice |
| Attributes.ToDictionaryFirstDuplicate | AttributeParser.cs:16-19 | a failed build reports the first definition whose name already occurred |
| Attributes.LoadedSchemaConsistent | AttributeParser.cs:16-21 | after a load, the names are sorted and distinct, they are exactly the keys of the map, and they are the only sorted arrangement of those keys |
| Attributes.KeysAreNames | AttributeParser.cs:19-21 | the keys of the built map are exactly the fetched names |
| Attributes.ConsistentCovers | AttributeParser.cs:50-55 | with a consistent schema, every name the loop visits has a definition, so `s_attributes[attributeName]` cannot fail |
| Attributes.IndexGuardFails | AttributeParser.cs:32-36 | the five conditions of the index guard as written: `firstIndex` negative or not below the length, `lastIndex` below `firstIndex` or not below the length, or `firstIndex + lastIndex` above the length |
| Attributes.CheckField | AttributeParser.cs:48-68 | one iteration fails with one of the three per-field errors. It reports "outside the array" exactly when `firstIndex + i` is past the end. For a present field it reports the format error, naming the attribute and the text, exactly when the field is not an integer. For an integer it passes exactly when the value lies within `[Min, Max]`, and otherwise reports the range error with the value and both bounds. On success the field parses to the value |
| Attributes.CheckFieldValid | AttributeParser.cs:50-64 | a present field that parses to a value within its attribute's range passes with that value |
| Attributes.Fill | AttributeParser.cs:48-69 | the `for` loop after `k` iterations, given each position's check: the map holding, for each of the first `k` names, its position's value, or the error of the first failing position, after which later positions are not looked at |
| Attributes.FillOk | AttributeParser.cs:46-71 | the loop succeeds iff every position passes. The result then has exactly one key per name, holding the value checked at that name's position |
| Attributes.FillErr | AttributeParser.cs:48-69 | a failing loop reports the error of the first failing position |
| Attributes.FillAllOk | AttributeParser.cs:48-69 | a loop that has not failed has only met passing positions |
| Attributes.FillErrSticks | AttributeParser.cs:58-67 | a thrown error ends the loop: later iterations do not change the outcome |
| Attributes.ParseResponse | AttributeParser.cs:25-72 | the whole call on the cached state: not loaded, then the index guard, then the count rule `firstIndex + lastIndex == Count`, then the loop over all names in sorted order |
| Attributes.ParseIndicesError | AttributeParser.cs:27-39 | "indices are out of range" is raised iff the schema is loaded and one of the five guard conditions holds |
| Attributes.ParseCountError | AttributeParser.cs:41-44 | the count error is raised iff the schema is loaded, the guard passes and `firstIndex + lastIndex` differs from the number of attributes; it reports both numbers |
| Attributes.ParseSuccess | AttributeParser.cs:25-72 | success iff the schema is loaded, both index rules pass and every field passes. The result then has exactly the attribute names as keys, each holding the integer at its position, within its range |
| Attributes.ParseAcceptsValid | AttributeParser.cs:25-72 | with a loaded schema, index rules that pass and every field present, an integer and within its range, the call succeeds and returns exactly the attribute names as keys, each holding the integer of its field |
| Attributes.ParseFirstFailure | AttributeParser.cs:48-69 | past the index rules, the error is that of the first position, in sorted name order, whose field is missing, malformed or out of range |
| Attributes.ParseSuccessNeedsRoom | AttributeParser.cs:32-51 | a successful call has read up to index `2*firstIndex + lastIndex - 1`, more than the guard's `firstIndex + lastIndex <= Length` ensures |
| Attributes.GuardAdmitsOverrun | AttributeParser.cs:32-51 | whenever the guard and the count rule pass but `firstIndex + Count` exceeds the array length, and every field that exists passes its check, the call reads one past the end of the array |
| Attributes.ParseRange | AttributeParser.cs:32-71 | the corrected call: the index guard without the sum condition, the count rule `lastIndex - firstIndex + 1 == Count`, then the same loop |
| Attributes.ParseRangeInBounds | AttributeParser.cs:32-51 | under the inclusive-range count rule, no read leaves the array. On success every value comes from a field inside `[firstIndex, lastIndex]` and lies within its range |
| Attributes.FillFirstError | AttributeParser.cs:48-69 | when every position before `k` passes and position `k` fails, the loop throws the error of position `k` |
| Attributes.ReadAttribute | AttributeParser.cs:50-67 | one iteration of the loop, reading the field, parsing it and checking its range, yields exactly the specified check of that position |
| Attributes.ReadAttributes | AttributeParser.cs:46-71 | the loop over all attribute names returns exactly the specified outcome: the filled map, or the error of the first failing position |
| Attributes.AttributeParser.constructor | AttributeParser.cs:9-10 | a new parser has no schema and no names |
| Attributes.AttributeParser.LoadAttributes | AttributeParser.cs:12-23 | a second load fetches nothing and changes nothing. A first load fetches once. On success it stores the map and the sorted name list, keeping the cache consistent. A duplicate name fails and leaves both fields unset |
| Attributes.AttributeParser.ParseAttributesFromResponse | AttributeParser.cs:25-72 | the loop-based method returns exactly the specified outcome for the cached schema and never changes the cache |
| Batch.Fields | BatchUpdater.cs:74 | there is at least one field, and every comma-split field is lower-case, trimmed and comma-free |
| Batch.FieldsCount | BatchUpdater.cs:68-79 | there is one field more than there are commas, so a non-null response is a record iff its text is non-empty and holds exactly four commas |
| Batch.ParseValues | BatchUpdater.cs:97-103 | the values exist iff all three `TryParse` calls succeed; then they hold the parsed integers and the normalized slash-split word types |
| Batch.Classify | BatchUpdater.cs:66-103 | a response is a record iff its text is non-null, non-empty and splits into exactly five fields. A record keeps the prompt id and the text, and names the normalized first field as its word |
| Batch.FieldsRender | BatchUpdater.cs:74-84 | the five fields of a line in the CSV form the code expects (BatchUpdater.cs:81-83) are its word, its three numbers and its joined word types |
| Batch.ParseValuesRender | BatchUpdater.cs:97-103 | the values of a line in the CSV form the code expects (BatchUpdater.cs:81-83) parse back to the message's values |
| Batch.ClassifyRender | BatchUpdater.cs:81-112 | a message written in the CSV form the code expects (BatchUpdater.cs:81-83), word types joined by `/`, is read back as exactly that message, whenever its word is normalized and comma-free, its numbers are 32-bit, and its word types (empty ones included) are normalized and free of commas and slashes |
| Batch.WordTypesShape | BatchUpdater.cs:103 | parsed word types are lower-case, trimmed and free of commas and slashes |
| Batch.RecordShape | BatchUpdater.cs:74-103 | a record's word is lower-case, trimmed and comma-free; its numbers are 32-bit; its word types are normalized |
| Batch.GetUpdateWordMessages | BatchUpdater.cs:59-117 | the imperative pass returns the specified outcome. On success the words are pairwise distinct and all requested, with at most one message per response |
| Batch.Reconcile | BatchUpdater.cs:66-115 | the `foreach` pass over the classified responses, one step per response in order, stopping at the first throw |
| Batch.Accept | BatchUpdater.cs:68-113 | one iteration: an unusable response, a word already output and an unrequested word leave the list unchanged; an accepted response with a non-integer value throws with the batch id, prompt id and text; otherwise its message is appended |
| Batch.HandleResponse | BatchUpdater.cs:68-114 | one iteration of the loop does to the message list exactly what one step of the specified pass does to it, and a message it adds names a word not yet output |
| Batch.HandleRecord | BatchUpdater.cs:84-114 | for a response with five fields: skips a word already output or not requested, throws on a non-integer value, and otherwise adds the record's message, as one step of the pass does |
| Batch.ReconcileStep | BatchUpdater.cs:66-115 | the pass over one more response is the pass so far followed by one step on that response |
| Batch.AddWord | BatchUpdater.cs:105-113 | adding a message adds its word to the set of output words, keeping `outputWords` in step with `outputMessages` |
| Batch.ReconcileErrSticks | BatchUpdater.cs:97-101 | once the pass has thrown, the remaining responses do not matter |
| Batch.ReconcileInvariants | BatchUpdater.cs:84-95 | accepted messages carry distinct, requested words, at most one per response |
| Batch.FirstCandidatePrefix | BatchUpdater.cs:84-89 | whether a response is the first to name its word does not depend on later responses |
| Batch.CandidateWordsSnoc | BatchUpdater.cs:91-95 | the candidate words of one more response are the earlier ones plus that response's word when it is a requested record |
| Batch.FirstCandidateLast | BatchUpdater.cs:84-95 | the last response is the first candidate for its word iff no earlier candidate names that word |
| Batch.ReconcileMatchesReference | BatchUpdater.cs:59-117 | the pass throws iff some first candidate for a word has unparsable values, and then on the first such response, with its prompt id and text. Otherwise it returns the messages of the first candidate for each word, in response order, covering exactly the words that candidates name |
| Batch.SkippedLineIrrelevant | BatchUpdater.cs:68-95 | removing a response that is null, empty, not five fields, unrequested, or a later duplicate leaves the outcome unchanged |
| Batch.RequestedWords | BatchUpdater.cs:130-134 | the requested set holds exactly the lower-cased words of all prompts, and every member is lower-case |
| Batch.PlanBatch | BatchUpdater.cs:130-150 | fails iff the pass fails. The updated words and the words to query are disjoint, and together they are the requested set. A word is queried again iff no response names it as a candidate |
| Batch.UntrimmedAlwaysRetried | BatchUpdater.cs:74-91 | a requested word with surrounding white space can never match a response word, so it is always queried again |

## Left out

- Storage, the AI service, the message queues, logging and status writes are left out. This covers `GetBatchAsync`, `GetBatchPromptsAsync`, `WriteBatchAsync`, `GetBatchStatusAsync`, `SendBatchedMessagesAsync`, the rest of `UpdateBatchAsync`, the constructor reading environment variables, and `Function.cs`. They are I/O. The fetched definitions and the prompts and responses become parameters.
- Concurrency is not modelled. Two concurrent first calls to `LoadAttributesAsync` could both fetch. The model runs them one after another.
- A store failure during `LoadAttributesAsync` is not modelled. It is I/O: the fetch is a parameter that always returns a list.
- Text.IsWhite: only the six ASCII white-space characters are treated as white space. .NET `Trim` also removes other Unicode white space.
- Text.ToLower maps only `A`-`Z`. .NET's culture-sensitive `ToLower` also maps other letters.
- Text.ParseInt32 accepts surrounding white space, one optional sign and decimal digits. It ignores the culture-specific signs that `int.TryParse` also honours.
- Ordering.SortNames sorts by character code. `OrderBy(k => k)` uses the culture-sensitive default comparer, which orders even plain ASCII names differently. It puts "commonness" before "Sentiment", where character codes put 'S' (0x53) before 'c' (0x63), and it weighs hyphens and other punctuation by its own rules. A schema whose names mix case or punctuation can therefore have its fields matched to different attributes than the model matches them to.
- Attributes.AttributeParser.ParseAttributesFromResponse stores results under exact names. The source's result dictionary ignores case, so two schema names that differ only in case would share one entry there; the model assumes they do not arise.
- Attributes.ParseResponse computes `firstIndex + lastIndex` without 32-bit wrap-around. The sum can overflow only for arrays longer than about 2^30 items.
- `responseItems` is an array of non-null strings. A null element, and a null word in a prompt (which `.OfType<string>()` would drop after `ToLower` had already failed), are not modelled.
- Reading `Output[0].Content[0].Text` on a response that has no output is not modelled. Each response is a prompt id with an optional text.

## Findings

| source | as written | input that shows it | evidently intended | confidence | as-written member | corrected member |
|---|---|---|---|---|---|---|
| AttributeParser.cs:32-51 | The guard accepts `firstIndex + lastIndex <= Length`, and the count rule requires `firstIndex + lastIndex == Count`. The loop then reads `responseItems[firstIndex + i]` for `i < Count`, up to index `2*firstIndex + lastIndex - 1` | three items `["w","1","2"]`, `firstIndex = 1`, `lastIndex = 2`, three attributes: the guard and the count rule pass, and the third iteration reads index 3 of a three-item array | `[firstIndex, lastIndex]` is the inclusive range of attribute fields, so the count rule is `lastIndex - firstIndex + 1 == Count`, and every read stays inside that range | medium, not executed | Attributes.GuardAdmitsOverrun | Attributes.ParseRangeInBounds |
