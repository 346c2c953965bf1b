# notbed-util core, modelled in Dafny

This project models the collection, map and string/time helpers of the
notbed-util Java library.

- `CollectionUtil` fills a caller's list with values that an evaluator computes from a source collection. It also breaks a collection into chunks and joins evaluated strings.
- `MapUtil` generates a map keyed by an evaluator. It also provides a get-or-initialise lookup and the lazy initialisers that lookup uses.
- The never-null maps (`NNMap` and its hash/linked/tree and `SNN` flavours) initialise a missing key on `get`.
- `UString` handles padding, joining, splitting and trimming.
- `UTime` parses "hh:mm" and "h:mm am" times into `HourInfo`, compares them, and builds `HourSpan`s with their inside and overlap tests.
- `NullTool` refuses nulls.
- `DuplicateKeyException` provides the duplicate-key message.

Java's null becomes `Nullable<T>`. An exception becomes a `Failure`/`Stopped` value carrying a model of the Java exception. A mutable destination (list, map) is a value, and each operation returns the destination it leaves behind. When a transform stops part-way, the destination keeps what was already added, because the Java code adds in place.

Modules, one per source file:

| file | module | models |
|---|---|---|
| lang.dfy | `Lang` | null, results, the Java exceptions used |
| evaluation.dfy | `Evaluation` | the per-element decision of the evaluation engine shared by `createCollection` and `generateMap` (skip / keep / fail), `DuplicateKeyException`'s message, and the duplicate-search helpers |
| collection_util.dfy | `CollectionUtil` | `CollectionUtil` |
| map_util.dfy | `MapUtil` | `MapUtil`, `LazyInit`, `LazyCallable` |
| nn_map.dfy | `NeverNull` | `NNMap` and its seven subclasses' constructors |
| ustring.dfy | `UString` | `UString`, plus `String.trim` and `String.split` with a literal separator |
| utime.dfy | `UTime` | `UTime.HourInfo`, `UTime.HourSpan` and the four time patterns |
| null_tool.dfy | `NullTool` | `NullTool` |

Every transform has a partner: an independent reference definition, proved equal to it for all inputs. The same holds for the map operations and their round trips, and for the time parser and its pattern layouts:

- `createCollection`'s loop `Fill` equals `ExpectedFill`. That reference is built from the surviving values, the first repeat among them, and the first failure.
- `generateMap`'s loop equals `ExpectedMap`. That reference stores the surviving entries in order, with last-write-wins.
- The time patterns are written as a scanner, `Scan`. It accepts exactly the layouts of valid `Shape`s (`MatchesExactlyLayouts`). Parsing a layout gives back the shape's numbers (`ParseTwentyFourHour`, `ParseTwelveHour`).

## Model

| member | source | states |
|---|---|---|
| Evaluation.DuplicateKeyMessage | com.notbed.util/src/com/notbed/util/mass/DuplicateKeyException.java:12-14 | the message is "Duplicate key found: " followed by the key rendered as `String.valueOf` does ("null" for null) |
| Evaluation.Evaluate | com.notbed.util/src/com/notbed/util/mass/CollectionUtil.java:113-126 | per element: a null element is skipped or is a null-element failure, as `skipNullObjects` says; an evaluator failure propagates; a null value is skipped when `skipNullValues`; a value the dupe checker reports fails with that value as key exactly when duplicates are forbidden; whatever is kept is the evaluator's answer |
| Evaluation.StrictEvaluateAgainstJudge | com.notbed.util/src/com/notbed/util/mass/CollectionUtil.java:113-126 | with duplicates forbidden, the engine's verdict differs from the checker-free verdict only by turning a kept value that the checker reports into a duplicate-key failure |
| Evaluation.DupesAllowedIgnoresChecker | com.notbed.util/src/com/notbed/util/mass/CollectionUtil.java:113-126 | with duplicates allowed, the dupe checker cannot influence the verdict, and no duplicate-key failure arises |
| CollectionUtil.Fill | com.notbed.util/src/com/notbed/util/mass/CollectionUtil.java:122-128 | the list only grows from its prior contents; a duplicate-key stop is impossible when duplicates are allowed, and its key is already in the list; a null-element stop is impossible when null objects are skipped |
| CollectionUtil.InListIsContains | com.notbed.util/src/com/notbed/util/mass/CollectionUtil.java:114-120 | the dupe checker of `createCollection`: a value is a duplicate exactly when the destination list already contains it (`Collection.contains`), and a value just added is reported from then on |
| CollectionUtil.FillMatchesExpected | com.notbed.util/src/com/notbed/util/mass/CollectionUtil.java:106-128 | for every source, policy and prior contents, the in-place loop agrees with the reference: survivors appended in order up to the first one already present (forbidden duplicates) or up to the first failure |
| CollectionUtil.CreateCollection | com.notbed.util/src/com/notbed/util/mass/CollectionUtil.java:106-128 | a null source leaves the destination as it is; the outcome is the reference fill; on success the destination is its prior contents followed by every surviving value in source order |
| CollectionUtil.CreateCollectionSkippingNullValues | com.notbed.util/src/com/notbed/util/mass/CollectionUtil.java:85-88 | the result is the reference fill with null values skipped and the caller's other two flags; it never appends a null |
| CollectionUtil.CreateCollectionWithDupes | com.notbed.util/src/com/notbed/util/mass/CollectionUtil.java:65-68 | the result is the reference fill with null elements and null values skipped; success appends every surviving value; only a duplicate (when forbidden, and of a value already present) or an evaluator failure can stop the fill |
| CollectionUtil.CreateCollectionLenient | com.notbed.util/src/com/notbed/util/mass/CollectionUtil.java:45-51 | the result is the reference fill with every flag set, including what was added before a stop; only an evaluator failure can stop the fill, and success appends every surviving value |
| CollectionUtil.CreateCollectionFromArray | com.notbed.util/src/com/notbed/util/mass/CollectionUtil.java:29-34 | a null array returns the destination untouched; otherwise the result is the lenient reference fill |
| CollectionUtil.TotalEvaluatorKeepsEverything | com.notbed.util/src/com/notbed/util/mass/CollectionUtil.java:45-51 | with no null element and an evaluator that neither fails nor answers null, exactly one value per element is appended, in order |
| CollectionUtil.StrictSuccessIsLenientSuccess | com.notbed.util/src/com/notbed/util/mass/CollectionUtil.java:106-128 | a fill that completes with duplicates forbidden gives the same result with them allowed |
| CollectionUtil.LengthScenario | com.notbed.util/src/com/notbed/util/mass/CollectionUtil.java:45-51 | ["a", null, "bb", "a"] by length fills [1, 2, 1]: the null element is skipped and the repeat is kept |
| CollectionUtil.StrictLengthScenario | com.notbed.util/src/com/notbed/util/mass/CollectionUtil.java:65-68 | the same words with duplicates forbidden stop at the second "a" with a duplicate-key failure for 1, leaving [1, 2] in place |
| CollectionUtil.WellChunkedIsUnique | com.notbed.util/src/com/notbed/util/mass/CollectionUtil.java:138-153 | there is exactly one way to lay a collection out as non-empty chunks of at most n, with all but the last full: the reference chunking |
| CollectionUtil.BreakCollection | com.notbed.util/src/com/notbed/util/mass/CollectionUtil.java:138-153 | the chunks laid end to end are the collection; for a positive size they are the full chunks then the remainder; size 0 gives an empty chunk followed by everything; a negative size gives one chunk; an empty collection gives no chunk |
| CollectionUtil.ChunkScenario | com.notbed.util/src/com/notbed/util/mass/CollectionUtil.java:138-153 | 1..7 in chunks of 3 is [1, 2, 3], [4, 5, 6], [7] |
| CollectionUtil.Join | com.notbed.util/src/com/notbed/util/mass/CollectionUtil.java:161-170 | an evaluator failure propagates; otherwise no surviving string gives the empty message and some give their join with the separator |
| CollectionUtil.JoinOrEmpty | com.notbed.util/src/com/notbed/util/mass/CollectionUtil.java:177-179 | an evaluator failure propagates; otherwise no surviving string gives "" and some give their join with the separator |
| CollectionUtil.AddIfNotNull | com.notbed.util/src/com/notbed/util/mass/CollectionUtil.java:185-189 | the collection is unchanged exactly for null; otherwise the element is appended at the end |
| MapUtil.FillMap | com.notbed.util/src/com/notbed/util/mass/MapUtil.java:92-97 | keys are never lost; every stored value was already stored or is a source element; with duplicates forbidden no stored entry is overwritten; a duplicate-key stop names a stored key |
| MapUtil.InKeysIsContainsKey | com.notbed.util/src/com/notbed/util/mass/MapUtil.java:174-176 | `InternalHashMap.checkIfDupe`: a key is a duplicate exactly when the map being generated already holds it (`containsKey`), and a key just stored is reported from then on |
| MapUtil.FillMapMatchesExpected | com.notbed.util/src/com/notbed/util/mass/MapUtil.java:82-99 | the loop equals the reference: the surviving (key, element) entries stored in order, later entries replacing earlier ones, cut at the first repeated key when duplicates are forbidden, then stopped by the first failure |
| MapUtil.GenerateMap | com.notbed.util/src/com/notbed/util/mass/MapUtil.java:82-99 | a null source gives an empty map; the result is the reference map from the empty map; every value is one of the source elements |
| MapUtil.GenerateMapWithNullObjects | com.notbed.util/src/com/notbed/util/mass/MapUtil.java:63-66 | with null keys skipped, no null key is ever stored |
| MapUtil.GenerateMapWithDupes | com.notbed.util/src/com/notbed/util/mass/MapUtil.java:45-48 | null elements never stop the generation and no null key is stored |
| MapUtil.GenerateMapLenient | com.notbed.util/src/com/notbed/util/mass/MapUtil.java:27-33 | only an evaluator failure can stop it, and the map holds the surviving entries with the last element per key winning |
| MapUtil.FirstLetterScenario | com.notbed.util/src/com/notbed/util/mass/MapUtil.java:27-33 | "apple", "apricot", "banana" keyed by first letter give a to "apricot" and b to "banana" |
| MapUtil.SameKeyScenario | com.notbed.util/src/com/notbed/util/mass/MapUtil.java:45-48 | two elements with the same key and duplicates forbidden stop with only the first stored |
| MapUtil.GetOrInit | com.notbed.util/src/com/notbed/util/mass/MapUtil.java:128-139 | a present key answers its stored value (null included) and changes nothing; a missing key is initialised from the init value, then stored and answered; an initializer failure propagates; other keys keep their values |
| MapUtil.GetOrInitTwice | com.notbed.util/src/com/notbed/util/mass/MapUtil.java:128-139 | after a successful lookup, a second lookup of the same key answers the same and changes nothing, whatever initializer it is given |
| MapUtil.StoredKeyIgnoresInitializer | com.notbed.util/src/com/notbed/util/mass/MapUtil.java:129-131 | the lookup of a stored key does not depend on the initializer or init value |
| MapUtil.LazyInit.Evaluate | com.notbed.util/src/com/notbed/util/mass/MapUtil.java:196-202 | the argument is ignored; a successful call is answered as is, and a failing one is wrapped in a runtime exception "Error creating new object" with the failure as its cause |
| MapUtil.LazyIgnoresArgument | com.notbed.util/src/com/notbed/util/mass/MapUtil.java:196-202 | any two arguments give the same answer, which succeeds exactly when the call does |
| MapUtil.LazyCallable | com.notbed.util/src/com/notbed/util/mass/MapUtil.java:224-228 | a null callable is refused with "Missing initializer", and only a null one is; otherwise the callable is what gets called |
| MapUtil.GetLazy | com.notbed.util/src/com/notbed/util/mass/MapUtil.java:158-160 | a stored key answers its value; a missing key stores and answers the call's value; a failing call gives the wrapped runtime exception |
| NeverNull.NNMap.Size | com.notbed.util/src/com/notbed/util/mass/NNMap.java:33-35 | the size is zero exactly for the empty map |
| NeverNull.NNMap.IsEmpty | com.notbed.util/src/com/notbed/util/mass/NNMap.java:41-43 | empty exactly when the size is zero and no key is held |
| NeverNull.NNMap.ContainsKey | com.notbed.util/src/com/notbed/util/mass/NNMap.java:49-51 | true exactly when the backing map holds the key, whatever value it holds |
| NeverNull.NNMap.ContainsValueAsWritten | com.notbed.util/src/com/notbed/util/mass/NNMap.java:57-59 | as written, `containsValue` answers whether the argument is a key |
| NeverNull.NNMap.ContainsValue | com.notbed.util/src/com/notbed/util/mass/NNMap.java:57-59 | as the `Map` contract intends: some key is mapped to the value |
| NeverNull.NNMap.Get | com.notbed.util/src/com/notbed/util/mass/NNMap.java:65-67 | a stored key answers its value; a missing key is initialised from itself, stored and answered; a failing initializer leaves the map alone; the initializer and backing kind never change |
| NeverNull.NNMap.Put | com.notbed.util/src/com/notbed/util/mass/NNMap.java:73-75 | answers the previous value (null if absent); the key then maps to the new value, the key set gains the key, and every other key is unchanged |
| NeverNull.NNMap.Remove | com.notbed.util/src/com/notbed/util/mass/NNMap.java:81-83 | answers the previous value (null if absent); the key is gone and every other entry is unchanged |
| NeverNull.NNMap.PutAll | com.notbed.util/src/com/notbed/util/mass/NNMap.java:89-91 | keys of the argument take its values; other keys keep theirs; the key set is the union |
| NeverNull.NNMap.Clear | com.notbed.util/src/com/notbed/util/mass/NNMap.java:97-99 | the map becomes empty and keeps its initializer |
| NeverNull.NewNNHashMap | com.notbed.util/src/com/notbed/util/mass/NNHashMap.java:19-21 | an empty hash-backed map with the given initializer |
| NeverNull.NewNNLinkedHashMap | com.notbed.util/src/com/notbed/util/mass/NNLinkedHashMap.java:18-20 | an empty linked-hash-backed map with the given initializer |
| NeverNull.NewNNTreeMap | com.notbed.util/src/com/notbed/util/mass/NNTreeMap.java:20-22 | an empty tree-backed map with the given initializer |
| NeverNull.NewSNNMap | com.notbed.util/src/com/notbed/util/mass/SNNMap.java:21-23 | the given store, initialised on every key by the lazy initializer, whatever the key |
| NeverNull.NewSNNHashMap | com.notbed.util/src/com/notbed/util/mass/SNNHashMap.java:21-23 | an empty hash-backed map whose initializer is the lazy one for every key |
| NeverNull.NewSNNLinkedHashMap | com.notbed.util/src/com/notbed/util/mass/SNNLinkedHashMap.java:20-22 | an empty linked-hash-backed map whose initializer is the lazy one for every key |
| NeverNull.NewSNNTreeMap | com.notbed.util/src/com/notbed/util/mass/SNNTreeMap.java:22-24 | an empty tree-backed map whose initializer is the lazy one for every key |
| NeverNull.GetTwice | com.notbed.util/src/com/notbed/util/mass/NNMap.java:65-67 | a key read once is never initialised again: a second read answers the same and leaves the store unchanged |
| NeverNull.PutThenGet | com.notbed.util/src/com/notbed/util/mass/NNMap.java:65-75 | a value put under a key is what `get` answers, without consulting the initializer |
| NeverNull.PutRemoveRoundTrip | com.notbed.util/src/com/notbed/util/mass/NNMap.java:73-83 | putting a new key and removing it answers null then the value, and restores the store |
| NeverNull.RemoveThenGet | com.notbed.util/src/com/notbed/util/mass/NNMap.java:65-83 | after a removal, `get` initialises the key afresh, failing as the initializer fails |
| NeverNull.GetGrowsByOne | com.notbed.util/src/com/notbed/util/mass/NNMap.java:65-67 | a successful `get` grows the map by one exactly when the key was missing |
| NeverNull.SimpleMapsIgnoreTheKey | com.notbed.util/src/com/notbed/util/mass/SNNHashMap.java:21-23 | a lazily initialised map gives every missing key the same initial value, and succeeds exactly when the call does |
| NeverNull.ContainsValueAsWrittenMissesValues | com.notbed.util/src/com/notbed/util/mass/NNMap.java:57-59 | after putting "key" to "value", the as-written `containsValue("value")` is false although the value is stored |
| NullTool.ForbidNull | com.notbed.util/src/com/notbed/util/NullTool.java:13-17 | fails with a null-pointer exception carrying the message exactly for null, and passes exactly for non-null |
| NullTool.ForbidNulls | com.notbed.util/src/com/notbed/util/NullTool.java:22-26 | a null array is a null-pointer failure; otherwise passes exactly when no element is null, and a failure carries "Missing property" |
| UString.Empty | com.notbed.util/src/com/notbed/util/UString.java:21-23 | true exactly for null or the empty string |
| UString.GetNotNull | com.notbed.util/src/com/notbed/util/UString.java:67-72 | gives "" exactly for null or empty input, and the string itself otherwise |
| UString.Pad | com.notbed.util/src/com/notbed/util/UString.java:52-61 | the result starts with the prefix and ends with the suffix (null counting as ""); the prefix is added exactly when the input does not start with it, then the suffix exactly when that prefixed text does not end with it, each at most once: a string that already starts with the prefix gets at most the suffix, one that already ends with the suffix gets at most the prefix, and an already padded string comes back unchanged |
| UString.PadSlashScenario | com.notbed.util/src/com/notbed/util/UString.java:52-61 | the suffix test is made on the prefixed text: `pad("", "/", "/")` is "/" |
| UString.PadPrefixFirstScenario | com.notbed.util/src/com/notbed/util/UString.java:52-61 | a missing prefix is added before the suffix test: `pad("a", "ab", "b")` is "abab" |
| UString.PadIdempotent | com.notbed.util/src/com/notbed/util/UString.java:52-61 | padding a padded string again changes nothing |
| UString.Join | com.notbed.util/src/com/notbed/util/UString.java:30-44 | the result is the texts with one separator between each consecutive pair ("null" for null): empty for no element, the element's text for one, starting with the first and ending with the last |
| UString.ConcatLength | com.notbed.util/src/com/notbed/util/UString.java:30-44 | a join of n parts has the parts' total length plus n - 1 separators |
| UString.Repeat | com.notbed.util/src/com/notbed/util/UString.java:106-112 | `count` copies of the string, none for a count of zero or less |
| UString.JoinRepeated | com.notbed.util/src/com/notbed/util/UString.java:97-99 | the join of `count` copies, "" for count <= 0, whose length is count copies of the string's length plus count - 1 separator lengths |
| UString.Trim | com.notbed.util/src/com/notbed/util/UString.java:83 | `String.trim`: the result is a slice of the input with no blank at either end, and everything cut off is blank (code point <= ' ') |
| UString.TrimIdempotent | com.notbed.util/src/com/notbed/util/UString.java:127 | trimming twice is trimming once |
| UString.LiteralSplit | com.notbed.util/src/com/notbed/util/UString.java:80 | the pieces between separators: none contains the separator, joining them back with it gives the string, there is one piece exactly when the separator does not occur, and each cut is at the leftmost occurrence (no piece followed by the separator holds an earlier occurrence) |
| UString.Split | com.notbed.util/src/com/notbed/util/UString.java:125 | `String.split` with a literal separator: the whole string when it does not occur; otherwise a prefix of the pieces that ends in a non-empty piece, every piece dropped being empty |
| UString.SplitAtOnly | com.notbed.util/src/com/notbed/util/UString.java:125 | a text with exactly one separator character and a non-empty second part splits into the two parts around it |
| UString.TrimPiecesDropsEmpty | com.notbed.util/src/com/notbed/util/UString.java:126-131 | trimming and dropping empty pieces is trimming all pieces, then filtering out the empty ones |
| UString.BreakAndTrimLines | com.notbed.util/src/com/notbed/util/UString.java:120-133 | every line is trimmed; with empty lines kept there is one line per split piece, its trim; without, the lines are exactly the non-empty ones of that list |
| UString.BreakAndTrimNonEmptyLines | com.notbed.util/src/com/notbed/util/UString.java:140-142 | the lines are trimmed and non-empty, and are the kept-empty lines with the empty ones filtered out |
| UString.SplitAndTrim | com.notbed.util/src/com/notbed/util/UString.java:79-89 | as written: as many pieces as the split, the first trimmed, and every other piece exactly as split |
| UString.SplitAndTrimEach | com.notbed.util/src/com/notbed/util/UString.java:79-89 | as intended: one trimmed piece per split piece, each the trim of its piece |
| UString.SplitAndTrimKeepsLaterBlanks | com.notbed.util/src/com/notbed/util/UString.java:83-85 | for "a, b" at ",", or any two-part text whose second part starts with a blank, the split is the two parts; the intended result trims the second part, which differs from it, so the as-written result keeps the blank |
| UTime.Scan | com.notbed.util/src/com/notbed/util/UTime.java:23-26 | a matched text is the layout of a valid shape for the pattern (hour, optional spaces around the colon when allowed, two-digit minute, meridiem for 12-hour) |
| UTime.ScanLayout | com.notbed.util/src/com/notbed/util/UTime.java:23-26 | every valid shape's layout matches and is read back as that shape |
| UTime.MatchesExactlyLayouts | com.notbed.util/src/com/notbed/util/UTime.java:23-26 | a text matches a pattern exactly when it is the layout of some valid shape for it |
| UTime.FormsDisjoint | com.notbed.util/src/com/notbed/util/UTime.java:23-26 | no text matches both a 12-hour and the 24-hour pattern |
| UTime.ParseInt | com.notbed.util/src/com/notbed/util/UTime.java:159 | `Integer.parseInt`: a digit string of int range parses to its value; a failure is a number-format exception on the input; a result is always an int |
| UTime.ParseIntDecimal | com.notbed.util/src/com/notbed/util/UTime.java:159 | parsing the decimal text of a non-negative int gives the int back |
| UTime.To24 | com.notbed.util/src/com/notbed/util/UTime.java:172-181 | for a 12-hour hour 1..12: am gives hour mod 12 (12 am is 0), pm gives hour mod 12 + 12, always within 0..23 |
| UTime.ParseHourInfoWith | com.notbed.util/src/com/notbed/util/UTime.java:139-143 | null is an illegal-argument "No time provided!"; otherwise the trimmed text is parsed |
| UTime.ParseTrimmed | com.notbed.util/src/com/notbed/util/UTime.java:154-157 | a text matching neither pattern is an illegal-state "Invalid time: '...'"; a parsed info keeps the trimmed text |
| UTime.TokensOfLayout | com.notbed.util/src/com/notbed/util/UTime.java:158 | breaking a valid layout at ":" gives the hour and the minute-plus-meridiem text, both trimmed |
| UTime.TokenValues | com.notbed.util/src/com/notbed/util/UTime.java:159-169 | a valid shape's hour and minute tokens parse to their values; the minute is below 60 and the hour in 1..12 or 0..23 |
| UTime.ParseTwentyFourHour | com.notbed.util/src/com/notbed/util/UTime.java:139-163 | a 24-hour text parses to its own hour and minute, a valid time of day |
| UTime.ParseTwelveHourWith | com.notbed.util/src/com/notbed/util/UTime.java:164-183 | a 12-hour text parses to its minute and the hour converted by the meridiem as the rule reads it |
| UTime.ParseTwelveHour | com.notbed.util/src/com/notbed/util/UTime.java:164-183 | corrected reading: the hour is converted by the text's own meridiem, however it is spaced |
| UTime.ParseTwelveHourAsWritten | com.notbed.util/src/com/notbed/util/UTime.java:166-172 | as written: the meridiem is read from characters 2-3 of the minute token, so a space before it always reads as pm |
| UTime.ParsedIsValid | com.notbed.util/src/com/notbed/util/UTime.java:139-184 | every successfully parsed time has an hour in 0..23 and a minute in 0..59 |
| UTime.SpacedMeridiemReadAsAfternoon | com.notbed.util/src/com/notbed/util/UTime.java:166-181 | as written, any 12-hour text with a space before am/pm gets hour mod 12 + 12 |
| UTime.SpacedEveningReadAsEvening | com.notbed.util/src/com/notbed/util/UTime.java:166-181 | "9:05 pm" is read as 21:05 both as written and corrected |
| UTime.SpacedMorningReadAsEvening | com.notbed.util/src/com/notbed/util/UTime.java:166-181 | "9:05 am" is read as 21:05 as written and as 9:05 when corrected |
| UTime.GetTime | com.notbed.util/src/com/notbed/util/UTime.java:230-245 | a null date is an illegal-state "No time provided."; otherwise the hour, ":" and the minute padded to two digits |
| UTime.ClockShapeValid | com.notbed.util/src/com/notbed/util/UTime.java:236-244 | the text of a valid clock time is the layout of a valid 24-hour shape carrying its hour and minute |
| UTime.HourInfoOfDate | com.notbed.util/src/com/notbed/util/UTime.java:132-134 | a null date is an illegal-state failure; a date gives a valid time of day |
| UTime.DateReadBack | com.notbed.util/src/com/notbed/util/UTime.java:132-134 | parsing `getTime`'s text of a date, as written or corrected, gives the date's own hour and minute |
| UTime.CompareInt | com.notbed.util/src/com/notbed/util/UTime.java:222-224 | -1, 0 or 1 exactly for less, equal or greater |
| UTime.AllMinutes | com.notbed.util/src/com/notbed/util/UTime.java:213-215 | a valid time's minute of the day lies in 0..1439 |
| UTime.CompareTo | com.notbed.util/src/com/notbed/util/UTime.java:199-208 | null compares as 0; valid times compare as their minutes of the day do, hour first then minute |
| UTime.CompareToAntisymmetric | com.notbed.util/src/com/notbed/util/UTime.java:199-208 | swapping the operands negates the comparison |
| UTime.SpanOf | com.notbed.util/src/com/notbed/util/UTime.java:57-62 | equal times are refused with "Cannot have a hourly span ..." exactly when they are equal; otherwise the span ascends exactly when the first time is earlier |
| UTime.NewHourSpan | com.notbed.util/src/com/notbed/util/UTime.java:53-63 | as written, both times are read by `new HourInfo` with the meridiem at fixed columns: a failure parsing either time propagates, the first first; two parsed times give their span; a span is always valid |
| UTime.NewHourSpanIntended | com.notbed.util/src/com/notbed/util/UTime.java:53-63 | the same constructor over the corrected meridiem reading |
| UTime.SpacedMorningSpanRefused | com.notbed.util/src/com/notbed/util/UTime.java:53-63 | "9:05 am" to "9:05 pm" with spaces allowed: as written both ends read 21:05 and the span is refused as starting and ending at the same time; corrected, it ascends from 9:05 to 21:05 |
| UTime.IsDateInsideAsWritten | com.notbed.util/src/com/notbed/util/UTime.java:69-74 | a null date is an illegal-state failure, and only a null one is |
| UTime.IsDateInside | com.notbed.util/src/com/notbed/util/UTime.java:69-74 | as intended: an ascending span holds the minutes from its start to its end inclusive; a descending span holds those from its start, or up to its end, across midnight |
| UTime.AscendingInsideAgrees | com.notbed.util/src/com/notbed/util/UTime.java:69-74 | for ascending spans the code as written agrees with the intended test |
| UTime.DescendingInsideAlways | com.notbed.util/src/com/notbed/util/UTime.java:69-74 | as written, a descending span claims every date |
| UTime.NightSpanAtNoon | com.notbed.util/src/com/notbed/util/UTime.java:69-74 | the night span 22:00-06:00 claims noon as written, and does not when corrected |
| UTime.Overlaps | com.notbed.util/src/com/notbed/util/UTime.java:80-86 | a null span never overlaps |
| UTime.OverlapsSymmetric | com.notbed.util/src/com/notbed/util/UTime.java:80-86 | overlapping is symmetric |
| UTime.OverlapsMeansCommonMinute | com.notbed.util/src/com/notbed/util/UTime.java:80-86 | two ascending spans overlap exactly when some minute lies in both |
| UTime.OverlapSearchFindsPairs | com.notbed.util/src/com/notbed/util/UTime.java:101-116 | the pairwise search answers whether some earlier span overlaps some later one |
| UTime.AreSpansOverlapping | com.notbed.util/src/com/notbed/util/UTime.java:101-116 | null or no spans give false; the loop computes the pairwise search; without a null before the last, it answers whether some pair overlaps; a failure is the null-pointer exception of calling `overlaps` on null |

## Left out

- Reflection: `instantiate`, the `Class` arguments of `breakCollection`, `UReflection` and `UClose` are not part of this model. Chunks and destinations are plain sequences. Null collection and map arguments, and the `NullPointerException`s they raise, are not modelled: a null input to `breakCollection`, a null map passed to `MapUtil.get`, and a null collection passed to `addIfNotNull` with a non-null element.
- Destination kinds: the destination collection is a list. A `Set` destination, whose `add` ignores a value already present, is not modelled.
- `InternalEvaluator`, `EvaluationResult` and `IDupeChecker` are not part of this model. The per-element decision is modelled from the documented behaviour of `createCollection`/`generateMap`. A null value that is not skipped is added, as the `skipNullValues` parameters of `createCollection` (com.notbed.util/src/com/notbed/util/mass/CollectionUtil.java:101) and `generateMap` (com.notbed.util/src/com/notbed/util/mass/MapUtil.java:72, MapUtil.java:77) describe it: skipping is what keeps a null value out.
- Unreachable catch blocks: the three-argument overloads catch `DuplicateKeyException`, which cannot be raised because duplicates are allowed there. Their `return null` branch is not modelled, and `CreateCollectionLenient` proves it cannot be reached.
- Iteration order: `keySet`, `values`, `entrySet` and `toString` of `NNMap`, and `HourSpan.toString`, are not modelled. The `Backing` tag records which flavour a map is.
- Tree-backed maps (`NNTreeMap`, `SNNTreeMap`): a `TreeMap` identifies keys by its comparator (`compare(a, b) == 0`), not by `equals`, and under natural ordering it raises `NullPointerException` on a null key. The model identifies keys by equality, so the tree flavours are modelled only for comparators consistent with `equals` and for non-null keys. Under that restriction, the hash, linked and tree flavours differ only in iteration order.
- `SNNHashMapOfHashMap` and `LazyInitializers` are not part of this model.
- `MapUtil.UnmodifiableMap`: unmodifiable enforcement is a run-time wrapper, so the function only applies the initializer to an empty map. It carries no contract.
- Thread safety and concurrency: not modelled.
- The regular expressions of `UTime` are modelled by a hand-written scanner over the four patterns. It is proved to accept exactly the layouts of valid shapes.
- `String.split` is modelled for a literal, non-empty separator only; a regular-expression separator and the empty separator are not. The separator must be non-empty, which is why `Split`, `BreakAndTrimLines` and `SplitAndTrim` require it.
- Null separators are not modelled: separators are plain strings. `UString.join` would append a null separator as "null" rather than raise.
- Null `emptyMessage` and null strings passed to `String` methods (the `NullPointerException`s they raise) are not modelled.
- `UString.Join` takes a list, not a nullable one: a null collection, on which `UString.join` raises `NullPointerException`, is not modelled.
- `CollectionUtil.Join`: `CollectionUtil.join` (com.notbed.util/src/com/notbed/util/mass/CollectionUtil.java:166) calls a `UString.join(Iterator, String)` overload that UString.java does not declare. The model joins the whole list of surviving strings with `UString.Join`.
- `UTime.IsDateInside`, `UTime.IsDateInsideAsWritten`, `UTime.HourInfoOfDate`: `Date` and `Calendar` are replaced by the hour of day and minute a calendar reports. These functions require them to be in range, because a calendar always yields such values. The time zone and the epoch calendar of `getEmptyCalendar` are left out.
- Integer width: hours and minutes of valid times are small, so `int` overflow does not arise there. `Integer.parseInt` is modelled for ASCII digits and the int range only: a leading sign is accepted as `Integer.parseInt` does, but Unicode digits are not (`UTime` never passes either, because its patterns admit ASCII digits only). `toLowerCase` is modelled for ASCII letters only.
- `areSpansOverlapping` prints the overlapping pair before answering. That output is left out.
- `UTime.Overlaps` compares the spans' start and end minutes as the source does. For descending (overnight) spans, that test does not mean "share a minute". This is stated only for ascending spans (`OverlapsMeansCommonMinute`).

## Findings

| source | as written | input that shows it | evidently intended | confidence | as-written member | corrected member |
|---|---|---|---|---|---|---|
| com.notbed.util/src/com/notbed/util/UTime.java:166-167 | with two tokens, the meridiem is `substring(2, 4)` of the minute token; after a space the pattern allows, that is " a"/" p", never "am" | "9:05 am" with spaces allowed gives hour 21 | the meridiem is the last two characters, so "9:05 am" is 9:05 | not executed | UTime.SpacedMorningReadAsEvening, UTime.NewHourSpan, UTime.SpacedMorningSpanRefused | UTime.ParseTwelveHour, UTime.NewHourSpanIntended |
| com.notbed.util/src/com/notbed/util/UTime.java:69-74 | `(t1.compareTo(h) < t2.compareTo(h)) == ascSpan` is true for every time when the span is descending | span 22:00-06:00 and a date at 12:00 gives true | an overnight span holds the times from its start through midnight to its end | not executed | UTime.DescendingInsideAlways | UTime.IsDateInside |
| com.notbed.util/src/com/notbed/util/UString.java:82-87 | the loop trims `split[0]` on every iteration, so later pieces stay untrimmed | "a, b" split at "," gives ["a", " b"] | every piece trimmed, giving ["a", "b"] | not executed | UString.SplitAndTrim | UString.SplitAndTrimEach |
| com.notbed.util/src/com/notbed/util/mass/NNMap.java:57-59 | `containsValue` delegates to `map.containsKey` | a map with "key" to "value": `containsValue("value")` is false | `map.containsValue(value)` | not executed | NeverNull.ContainsValueAsWrittenMissesValues | NeverNull.NNMap.ContainsValue |
