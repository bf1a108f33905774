# Tag-based document index, modelled in Dafny

The system indexes documents by tags. Records of the form `id | tag | tag …` are read from a text. Each document string and each tag string is interned to a dense 32-bit id. A forward index maps each document id to its tag ids, and an inverted index maps each tag id to the set of documents carrying it. Queries combine the bitmaps of several tags with AND, OR, XOR or ANDNOT and list the matching document strings. A console front end parses query commands such as `red blue OR`.

The model follows the program's structure:

- `Types` holds the 32-bit id type, the sentinel `0xFFFFFFFF`, the operations and the record.
- `IdTable` is one interning space as a value (the vector and the reverse hash map). It is where the properties of interning are proved. `Mapping` is the class holding the document and tag spaces as four fields that its methods update in place.
- `ForwardIndex` has pure slot functions with their lemmas, and a class whose methods assign or append one slot.
- `InvertedIndex` has a reference definition of the query (`Evaluate`), the set-theoretic meaning of each operation, and a class whose `PerformOperation` runs the source's loop. That loop has the in-place `&=`, `|=` and `^=` updates, its early exits, and the ANDNOT pass that collects the union of the later bitmaps. The method is proved equal to `Evaluate`.
- `IndexManager` is a class owning the three objects. Its invariant `Valid` says the id tables are inverse, and that every document id in a bitmap and every tag id in a forward entry resolves to a string. The ingestion, query and lookup methods keep that invariant. Each method states its whole new state through the value functions.
- `StringUtil` has `split` (a loop proved against a character-by-character tokenizer) and the trim family.
- `CsvParser` has the line parser and the line loop of the stream reader over an in-memory text.
- `QueryParser` has the front end's `trim` and its command parser.

Bitmaps are mathematical sets of ids. Iterating a bitmap is listing its members in ascending order. `std::set<TagId>` is an ascending duplicate-free sequence built by sorted insertion.

Plain size reads have no row: `Mapping.GetDocCount`, `Mapping.GetTagCount`, `ForwardIndex.GetDocCount` and `InvertedIndex.GetTagCount` return the length of a field.

The lemmas below are about reference definitions that state what the source's code computes. They are:
- `IdTable.InternAll`, the tag loop of src/core/index_manager.cpp:40-48.
- `ForwardIndex.SlotOf`, `getTags` at src/core/forward_index.cpp:53-62.
- `InvertedIndex.AddDoc`, src/core/inverted_index.cpp:64-88.
- `InvertedIndex.Evaluate`, src/core/inverted_index.cpp:110-232.
- `IndexManager.Translate`, the loop of src/core/index_manager.cpp:196-239.
- `IndexManager.QueryDocs`, src/core/index_manager.cpp:241-260.
- `StringUtil.Tokens`, src/utils/string_util.cpp:8-28.
- `CsvParser.LineRecord`, src/io/csv_parser.cpp:78-110.
- `CsvParser.LineOutput`, one round of src/io/csv_parser.cpp:44-64.
- `CsvParser.Records`, src/io/csv_parser.cpp:42-65.
- `QueryParser.Words`, app/main.cpp:31-35.
- `QueryParser.ParseOp`, app/main.cpp:44-67.

The methods are proved equal to these definitions.

## Model

| member | source | states |
|---|---|---|
| IdTable.Intern | src/core/mapping.cpp:8-38 | a sentinel result leaves the table unchanged; otherwise the table is unchanged or gains exactly the string under the returned id |
| IdTable.Resolve | src/core/mapping.cpp:71-80 | in a valid table the string is non-empty exactly for ids below the count, and maps back to the id |
| IdTable.NextId | src/core/mapping.cpp:82-86 | the next id is the count whenever the count fits in 32 bits |
| IdTable.EmptyValid | src/core/include/bitmap_index/core/mapping.h:29 | the empty table satisfies the two-way inverse invariant |
| IdTable.InternEmpty | src/core/mapping.cpp:10-13 | the empty string gets the sentinel and nothing changes |
| IdTable.InternKnown | src/core/mapping.cpp:17-22 | a stored string gets its own id back and nothing is allocated |
| IdTable.InternFresh | src/core/mapping.cpp:26-36 | an unseen non-empty string gets the current count as id and the names grow by exactly that string |
| IdTable.InternExhausted | src/core/mapping.cpp:28-33 | when the count equals the sentinel an unseen string gets the sentinel and nothing is stored |
| IdTable.InternSentinel | src/core/mapping.cpp:8-38 | the sentinel is returned if and only if the string is empty or unseen with the id space full |
| IdTable.InternValid | src/core/mapping.cpp:34-35 | interning preserves the two-way inverse invariant |
| IdTable.InternResolve | src/core/mapping.cpp:26-80 | round trip: a string that got a proper id resolves back to itself |
| IdTable.InternExtends | src/core/mapping.cpp:34 | interning only appends: the old names are a prefix of the new ones, at most one longer |
| IdTable.InternIdempotent | src/core/mapping.cpp:17-22 | interning a string twice equals interning it once |
| IdTable.InternStep | src/core/index_manager.cpp:40-48 | interning a list is interning its head and then its tail, for both the table and the returned ids |
| IdTable.InternAllFirstSeen | src/core/mapping.cpp:26-36 | interning a list stores exactly its distinct non-empty strings in first-seen order |
| IdTable.InternAllValid | src/core/index_manager.cpp:40-48 | interning a list keeps the invariant and never changes an existing id |
| IdTable.InternedIdsResolve | src/core/index_manager.cpp:40-48 | every id collected from a list resolves in the final table to a non-empty string of that list |
| IdTable.ResolveAllComplete | src/core/index_manager.cpp:252-260 | when every id is inside the table no id is dropped and the k-th string is the name of the k-th id |
| IdTable.InternRepeatScenario | tests/core/test_mapping.cpp:20-78 | three distinct strings with a repeat and an empty string are stored once each, in order |
| IdTable.InternExample | tests/core/test_mapping.cpp:20-78 | the test's document strings, with a repeat and the empty string, are stored once each in order (so they get ids 0, 1, 2) |
| Mapping.Mapping.constructor | src/core/include/bitmap_index/core/mapping.h:29 | both spaces start empty and valid |
| Mapping.Mapping.GetId | src/core/mapping.cpp:8-68 | the id and new document table are exactly interning's; the table stays valid and the tag space is untouched (both overloads) |
| Mapping.Mapping.GetTagId | src/core/mapping.cpp:90-140 | the id and new tag table are exactly interning's; the table stays valid and the document space is untouched (both overloads) |
| Mapping.Mapping.GetStringId | src/core/mapping.cpp:71-80 | "" exactly for ids at or past the document count; a non-empty result maps back to the id |
| Mapping.Mapping.GetStringTag | src/core/mapping.cpp:143-152 | "" exactly for ids at or past the tag count; a non-empty result maps back to the id |
| Mapping.Mapping.GetNextDocId | src/core/mapping.cpp:82-86 | equals the document count in a valid table |
| Mapping.Mapping.GetNextTagId | src/core/mapping.cpp:154-158 | equals the tag count in a valid table |
| Mapping.MappingScenario | tests/core/test_mapping.cpp:14-78 | on the object: two documents get ids 0 and 1, a repeat is not re-allocated, the empty string is refused, ids resolve back and id 2 resolves to "" |
| ForwardIndex.AssignSlot | src/core/forward_index.cpp:6-34 | the sentinel document leaves the slots unchanged |
| ForwardIndex.AppendToSlot | src/core/forward_index.cpp:36-50 | the sentinel document or tag leaves the slots unchanged |
| ForwardIndex.AssignThenGet | src/core/forward_index.cpp:6-62 | after `addTags(d, T)` the list of `d` is exactly `T` |
| ForwardIndex.AssignKeepsOthers | src/core/forward_index.cpp:12-19 | `addTags(d, T)` leaves every other document's list as it was |
| ForwardIndex.AssignOverwrites | src/core/forward_index.cpp:19 | a second `addTags` on a document replaces the first entirely |
| ForwardIndex.AppendThenGet | src/core/forward_index.cpp:49 | `addTag` appends at the end, keeping order and duplicates |
| ForwardIndex.AppendKeepsOthers | src/core/forward_index.cpp:42-49 | `addTag` leaves every other document's list as it was |
| ForwardIndex.WritesOnlyGrow | src/core/forward_index.cpp:6-50 | the new size is the old size, or `d + 1` when `d` was past the end; sentinel writes leave it as it was |
| ForwardIndex.AppendExample | tests/core/test_forward_index.cpp:20-126 | the test's `addTag` sequence gives two documents with lists [10, 15, 10] and [20, 25] |
| ForwardIndex.ForwardIndex.constructor | src/core/include/bitmap_index/core/forward_index.h:26 | the index starts empty |
| ForwardIndex.ForwardIndex.AddTags | src/core/forward_index.cpp:6-34 | the new slots are `AssignSlot` of the old ones (both overloads) |
| ForwardIndex.ForwardIndex.AddTag | src/core/forward_index.cpp:36-50 | the new slots are `AppendToSlot` of the old ones |
| ForwardIndex.ForwardIndex.GetTags | src/core/forward_index.cpp:53-62 | empty for the sentinel and ids past the end; otherwise the stored list |
| InvertedIndex.Lookup | src/core/inverted_index.cpp:90-108 | a bitmap is returned exactly for a non-sentinel tag inside the array, and it is that tag's bitmap |
| InvertedIndex.AddInvalid | src/core/inverted_index.cpp:28-88 | `add` with a sentinel document or tag changes nothing, the tag count included |
| InvertedIndex.AddEffect | src/core/inverted_index.cpp:28-88 | a proper `add(d, t)` makes the tag count the larger of the old one and `t + 1`; new tags get empty bitmaps; `d` joins the bitmap of `t` and nothing else changes |
| InvertedIndex.AddIdempotent | src/core/inverted_index.cpp:81 | adding the same pair twice equals adding it once |
| InvertedIndex.FoldAnd | src/core/inverted_index.cpp:133-189 | the AND loop's result holds `x` if and only if every later tag is present and `x` is in the start and in every later bitmap |
| InvertedIndex.AndIsIntersection | src/core/inverted_index.cpp:120-189 | AND is the intersection of all bitmaps, and empty if any tag is absent (both directions, member by member) |
| InvertedIndex.AndEmptyStaysEmpty | src/core/inverted_index.cpp:185-188 | once the running AND is empty the remaining tags cannot change it, so the early exit is sound |
| InvertedIndex.FoldOr | src/core/inverted_index.cpp:143-165 | the OR loop's result is the start united with every present later bitmap |
| InvertedIndex.UnionPresentMembers | src/core/inverted_index.cpp:192-228 | a member of the union of present bitmaps is in the bitmap of some present tag, and conversely |
| InvertedIndex.OrIsUnion | src/core/inverted_index.cpp:120-189 | OR holds `x` if and only if the first tag is present and some present tag's bitmap holds `x`; absent later tags are skipped |
| InvertedIndex.FoldXor | src/core/inverted_index.cpp:166-169 | the XOR loop's result holds `x` if and only if the start and the present later bitmaps hold it an odd number of times |
| InvertedIndex.XorIsParity | src/core/inverted_index.cpp:120-189 | XOR holds exactly the documents found in an odd number of the present bitmaps, the first included |
| InvertedIndex.AndNotIsDifference | src/core/inverted_index.cpp:192-228 | ANDNOT holds `x` if and only if `x` is in the first bitmap and in no present later one |
| InvertedIndex.EmptyCases | src/core/inverted_index.cpp:114-127 | every operation gives the empty set for an empty list or an absent first tag |
| InvertedIndex.SingleTag | src/core/inverted_index.cpp:192-228 | every operation on one present tag gives its bitmap back |
| InvertedIndex.ResultWithinFirst | src/core/inverted_index.cpp:161-175 | AND and ANDNOT results lie within the first tag's bitmap |
| InvertedIndex.AndNotExamples | tests/core/test_inverted_index.cpp:122-313 | on the test fixture ANDNOT gives {0,10} for [0,1] and {3,11} for [1,0] (it is not commutative), {0} for [0,1,2], and skips an absent tag |
| InvertedIndex.OperationExamples | tests/core/test_inverted_index.cpp:122-313 | on the test fixture: AND, OR and XOR give the test's expected sets, including an absent later tag and an absent first tag |
| InvertedIndex.InvertedIndex.constructor | src/core/include/bitmap_index/core/inverted_index.h:37 | the index starts with no bitmaps |
| InvertedIndex.InvertedIndex.EnsureTagCapacity | src/core/inverted_index.cpp:28-61 | false exactly for the sentinel; otherwise the array is grown to hold the tag, with empty bitmaps |
| InvertedIndex.InvertedIndex.Add | src/core/inverted_index.cpp:64-88 | the new array is `AddDoc` of the old one |
| InvertedIndex.InvertedIndex.GetBitmap | src/core/inverted_index.cpp:90-108 | present exactly for a non-sentinel tag inside the array, and then that tag's bitmap |
| InvertedIndex.InvertedIndex.GetCardinality | src/core/inverted_index.cpp:235-252 | the size of the tag's bitmap, 0 when it has none |
| InvertedIndex.InvertedIndex.PerformOperation | src/core/inverted_index.cpp:110-232 | the loop's result equals the reference `Evaluate`, and the index is not modified |
| InvertedIndex.InvertedIndex.RunOptimize | src/core/inverted_index.cpp:260-284 | reports success and changes no bitmap (the method modifies nothing) |
| InvertedIndex.InvertedIndex.ShrinkToFit | src/core/inverted_index.cpp:286-311 | the contents are unchanged |
| InvertedIndex.InvertedIndex.Clear | src/core/inverted_index.cpp:433-438 | drops every bitmap |
| IndexManager.InsertSorted | src/core/index_manager.cpp:44 | insertion into an ascending list keeps it ascending, and the members are the old ones plus the new id |
| IndexManager.InsertAllCons | src/core/index_manager.cpp:40-48 | inserting a list is inserting its head and then its tail |
| IndexManager.InsertAllSorted | src/core/index_manager.cpp:37-53 | the forward entry built from a set is ascending and holds exactly the old members and the inserted ids |
| IndexManager.AddAllEffect | src/core/index_manager.cpp:56-58 | after a record the document is in the bitmap of each collected tag; every old member stays (a re-ingested document is not retracted); the document is the only new member |
| IndexManager.CoherentGrow | src/core/index_manager.cpp:24-59 | growing the id tables keeps the cross-structure invariant |
| IndexManager.ForwardAssignCoherent | src/core/index_manager.cpp:52-53 | storing an ascending list of known tags for a known document keeps the forward index coherent |
| IndexManager.BitmapsAddCoherent | src/core/index_manager.cpp:56-58 | adding a known document under known tags keeps the bitmaps coherent |
| IndexManager.IngestCoherent | src/core/index_manager.cpp:24-59 | ingesting a record keeps all three structures coherent |
| IndexManager.AndWithEmptyTagAborts | src/core/index_manager.cpp:234-236 | under AND an empty tag string anywhere aborts the query |
| IndexManager.AndNotAborts | src/core/index_manager.cpp:234-236 | under ANDNOT an empty first tag aborts, and once an id is collected nothing aborts |
| IndexManager.OrXorNeverAbort | src/core/index_manager.cpp:229-238 | OR and XOR never abort: invalid tags are skipped |
| IndexManager.TranslateValid | src/core/index_manager.cpp:196-239 | translation keeps the tag table valid, only grows it, and every collected id lies inside it |
| IndexManager.UnseenTagIsAbsent | src/core/index_manager.cpp:226 | a fresh id is absent from the inverted index |
| IndexManager.TranslateTableValid | src/core/index_manager.cpp:196-239 | translation keeps the tag table valid whatever ids were collected before |
| IndexManager.TranslateKeepsId | src/core/index_manager.cpp:223-226 | a string the tag table already holds keeps its id through a query |
| IndexManager.QueryAllocatesUnseenTag | src/core/index_manager.cpp:196-239 | every non-empty string the loop reaches ends up with an id inside the table: under OR and XOR every string, under AND and ANDNOT any string with no empty one before it. A string the table did not hold gets a fresh id at or past the old count, so the tag count grows |
| IndexManager.MinExists | src/core/index_manager.cpp:252 | every non-empty bitmap has a least member, where ascending iteration starts |
| IndexManager.SortedElemsHead | src/core/index_manager.cpp:252 | ascending iteration starts at the least member |
| IndexManager.SortedElemsSorted | src/core/index_manager.cpp:252 | iteration is strictly ascending and visits exactly the members |
| IndexManager.ConsAscending | src/core/index_manager.cpp:252 | a value below every member prepended to an ascending list keeps it ascending |
| IndexManager.EvaluateWithinBitmaps | src/core/index_manager.cpp:248 | every document of a query result is in some present bitmap |
| IndexManager.HoldersPositive | src/core/inverted_index.cpp:166-169 | a document held by some present bitmap is in a present bitmap |
| IndexManager.QueryDocsResolve | src/core/index_manager.cpp:252-260 | under coherence every listed document id lies inside the document table |
| IndexManager.QueryComplete | src/core/index_manager.cpp:185-263 | a query keeps coherence, and no result document is dropped: the k-th string is the name of the k-th listed id |
| IndexManager.LookupCoherent | src/core/index_manager.cpp:275 | interning the looked-up document keeps coherence |
| IndexManager.LookupComplete | src/core/index_manager.cpp:284-296 | under coherence a forward entry is ascending and all its tags resolve, in order |
| IndexManager.IndexManager.constructor | src/core/index_manager.cpp:10-20 | fresh, empty, coherent structures |
| IndexManager.IndexManager.ProcessParsedLine | src/core/index_manager.cpp:24-59 | keeps coherence; a sentinel document id changes nothing else; otherwise tags are interned in order, the forward entry becomes the ascending set of valid ids, and the document joins each tag's bitmap |
| IndexManager.IndexManager.InternTags | src/core/index_manager.cpp:35-48 | the valid tag ids in record order, and the same ids as an ascending set; the tag table becomes interning's |
| IndexManager.IndexManager.AddToBitmaps | src/core/index_manager.cpp:56-58 | the bitmaps become `AddAll` of the old ones |
| IndexManager.IndexManager.QueryTags | src/core/index_manager.cpp:185-263 | keeps coherence; documents unchanged; the tag table and result are the translation's; the result lists the name of every result document in ascending id order |
| IndexManager.IndexManager.TranslateQuery | src/core/index_manager.cpp:193-239 | the collected ids, new tag table and abort flag equal the reference `Translate` |
| IndexManager.IndexManager.ListDocuments | src/core/index_manager.cpp:250-260 | the strings of the bitmap's members in ascending order, keeping those that resolve |
| IndexManager.IndexManager.GetTagsForDocument | src/core/index_manager.cpp:265-299 | keeps coherence; interns the document; empty for the sentinel or an id past the forward index; otherwise the names of its forward entry in order |
| IndexManager.IndexManager.ListTags | src/core/index_manager.cpp:286-296 | the strings of the tag ids in order, keeping those that resolve |
| IndexManager.IndexManager.GetDocumentCount | src/core/index_manager.cpp:301-304 | the interned document count, never less than the forward index's count |
| IndexManager.IndexManager.GetTagCount | src/core/index_manager.cpp:306-309 | the interned tag count, never less than the inverted index's count |
| StringUtil.Find | src/utils/string_util.cpp:11-18 | -1 when the character does not occur from `from` on; otherwise its first position there |
| StringUtil.NonEmpty | src/utils/string_util.cpp:14-23 | the kept tokens are all non-empty and all come from the input |
| StringUtil.NonEmptyAppend | src/utils/string_util.cpp:14-23 | dropping empty tokens distributes over concatenation |
| StringUtil.TokensNeverEmpty | src/utils/string_util.cpp:22-25 | splitting always gives at least one token |
| StringUtil.TokensAtDelimiter | src/utils/string_util.cpp:12-18 | the first delimiter ends the first token and the rest is split on |
| StringUtil.TokensWithoutDelimiter | src/utils/string_util.cpp:22-25 | a delimiter-free string is a single token |
| StringUtil.TokensFromIsTokens | src/utils/string_util.cpp:11-25 | scanning delimiter by delimiter gives the character-by-character tokens |
| StringUtil.SplitStep | src/utils/string_util.cpp:13-18 | one round of the loop emits the token before the delimiter, if kept, then continues after it |
| StringUtil.Split | src/utils/string_util.cpp:8-28 | the tokens between delimiters, with empty ones removed exactly when skipping |
| StringUtil.TokensConcat | src/io/csv_parser.cpp:42 | splitting around one delimiter splits the two sides separately |
| StringUtil.TokensCount | src/utils/string_util.cpp:11-25 | without skipping there is exactly one more token than delimiters |
| StringUtil.JoinTokens | src/utils/string_util.cpp:11-25 | joining the tokens with the delimiter gives back the input |
| StringUtil.TokensAvoidDelimiter | src/utils/string_util.cpp:11-18 | no token contains the delimiter |
| StringUtil.TokensOfJoin | src/utils/string_util.cpp:11-25 | splitting a join of delimiter-free tokens recovers them |
| StringUtil.SplitExamples | tests/utils/test_string_util.cpp:10-53 | `split("")` is [""], `split("|")` is ["",""], `split("a||c")` is ["a","","c"], and the basic case |
| StringUtil.SplitLeadingEmptyExample | tests/utils/test_string_util.cpp:22-27 | a leading delimiter gives an empty first token |
| StringUtil.SplitTrailingEmptyExample | tests/utils/test_string_util.cpp:28-33 | a trailing delimiter gives an empty last token |
| StringUtil.SplitCommaExample | tests/utils/test_string_util.cpp:40-45 | a comma delimiter with empty tokens in the middle and at the end |
| StringUtil.SplitSkipExample | tests/utils/test_string_util.cpp:55-60 | with skipping, empty tokens go and a whitespace-only token stays |
| StringUtil.SplitSkipEmptyExamples | tests/utils/test_string_util.cpp:61-71 | with skipping, delimiters only and the empty string give no tokens |
| StringUtil.FirstNonSpace | src/utils/string_util.cpp:48-63 | only whitespace before the index, and a non-whitespace character at it unless at the end |
| StringUtil.EndNonSpace | src/utils/string_util.cpp:53-64 | only whitespace from the index on, and a non-whitespace character just before it unless at 0 |
| StringUtil.TrimLeftCopy | src/utils/string_util.cpp:48-51 | a suffix of the input, preceded only by whitespace, starting with non-whitespace |
| StringUtil.TrimRightCopy | src/utils/string_util.cpp:53-59 | a prefix of the input, followed only by whitespace, ending with non-whitespace |
| StringUtil.TrimCopy | src/utils/string_util.cpp:61-70 | a contiguous slice between runs of whitespace with non-whitespace ends; "" exactly for blank input |
| StringUtil.TrimLeftOfTrimRight | src/utils/string_util.cpp:44-46 | trimming the right end and then the left end is the two-ended trim |
| StringUtil.TrimIdempotent | src/utils/string_util.cpp:61-70 | trimming twice is trimming once |
| StringUtil.TrimOfPadded | src/utils/string_util.cpp:61-70 | a non-blank string padded with whitespace trims to itself |
| StringUtil.TrimExamples | tests/utils/test_string_util.cpp:139-166 | the tests' two-ended copies |
| StringUtil.TrimBlankExamples | tests/utils/test_string_util.cpp:146-159 | blank and empty inputs trim to "" |
| StringUtil.TrimEndExamples | tests/utils/test_string_util.cpp:118-138 | the tests' one-ended copies and a record line with its line feed |
| StringUtil.TrimLeft | src/utils/string_util.cpp:34-37 | the string after erasing the leading whitespace is `trimLeftCopy` of it |
| StringUtil.TrimRight | src/utils/string_util.cpp:39-42 | the string after erasing the trailing whitespace is `trimRightCopy` of it |
| StringUtil.Trim | src/utils/string_util.cpp:44-46 | in-place `trim` gives the same string as `trimCopy` |
| CsvParser.TrimAll | src/io/csv_parser.cpp:100-101 | each field trimmed, in order |
| CsvParser.TrimAllSnoc | src/io/csv_parser.cpp:100-107 | trimming one more field appends its trimmed text |
| CsvParser.TagsSnoc | src/io/csv_parser.cpp:100-107 | reading one more field adds its trimmed text to the tags unless that is empty |
| CsvParser.FieldEnd | src/io/csv_parser.cpp:83 | the first field ends at the first delimiter, or at the end of the line |
| CsvParser.ParseLine | src/io/csv_parser.cpp:78-110 | the loop's record is the reference `LineRecord`: the trimmed first field as id, the remaining trimmed non-empty fields in order as tags, and no record for a blank id |
| CsvParser.FirstField | src/io/csv_parser.cpp:83-90 | the first field is the text before the first delimiter |
| CsvParser.LineRecordRejects | src/io/csv_parser.cpp:90-94 | a line is rejected if and only if everything before its first delimiter is whitespace |
| CsvParser.TrimKeepsNoDelimiter | src/io/csv_parser.cpp:90-101 | trimming a delimiter-free field keeps it delimiter-free |
| CsvParser.TrimAllClean | src/io/csv_parser.cpp:101-103 | delimiter-free fields trim to clean fields unless empty |
| CsvParser.NonEmptyClean | src/io/csv_parser.cpp:102-103 | dropping empty fields leaves only clean ones |
| CsvParser.LineRecordClean | src/io/csv_parser.cpp:83-103 | the id and every tag of an accepted line are non-empty, delimiter-free, and have no whitespace at either end |
| CsvParser.RecordsSnoc | src/io/csv_parser.cpp:42-65 | reading one more line adds what that line contributes |
| CsvParser.Stream | src/io/csv_parser.cpp:26-75 | reading fails exactly for a start past the end of the text, and then nothing is handed on |
| CsvParser.ParseStream | src/io/csv_parser.cpp:26-75 | the loop's result equals the reference `Stream`: each accepted line's record once, in order |
| CsvParser.RecordsAppend | src/io/csv_parser.cpp:42-65 | reading two runs of lines gives the records of each, in order |
| CsvParser.LineOutputClean | src/io/csv_parser.cpp:47-58 | what one line contributes is clean |
| CsvParser.RecordsClean | src/io/csv_parser.cpp:42-65 | every record handed on has a clean id and clean tags |
| CsvParser.BlankAndRejectedLinesAreSkipped | src/io/csv_parser.cpp:47-64 | blank lines and lines with a blank id hand nothing on |
| CsvParser.RecordsAtMostOnePerLine | src/io/csv_parser.cpp:42-58 | at most one record per line |
| CsvParser.OffsetSkipsEarlierLines | src/io/csv_parser.cpp:27-35 | reading from just past a line feed hands on exactly the records of the later lines, which follow the earlier lines' records in a full read |
| CsvParser.ExampleFields | tests/io/test_csv_parser.cpp:171-191 | the fields of the test's line with an empty tag |
| CsvParser.TrimPadding | src/utils/string_util.cpp:61-70 | a field with padding trims to its middle |
| CsvParser.ExampleTrims | tests/io/test_csv_parser.cpp:171-191 | the trimmed fields of that line |
| CsvParser.NonEmptyDropsMiddle | src/io/csv_parser.cpp:102-103 | an empty field between two others is dropped and the order kept |
| CsvParser.ParseLineExample | tests/io/test_csv_parser.cpp:171-191 | "id1 \| tag1 \|\| tag3" gives id "id1" with tags ["tag1", "tag3"] |
| CsvParser.IdOnlyExample | tests/io/test_csv_parser.cpp:193-212 | an id alone is accepted with no tags |
| CsvParser.IdWithDelimiterExample | tests/io/test_csv_parser.cpp:193-212 | an id followed by a bare delimiter is accepted with no tags |
| CsvParser.MissingIdExample | tests/io/test_csv_parser.cpp:214-237 | a line whose id field is whitespace is rejected |
| CsvParser.MissingIdLineSkipped | tests/io/test_csv_parser.cpp:214-237 | that line hands nothing on |
| CsvParser.BlankLineSkipped | tests/io/test_csv_parser.cpp:129-150 | a whitespace-only line hands nothing on |
| CsvParser.IdOnlyLineRead | tests/io/test_csv_parser.cpp:193-212 | a well-formed id-only line hands on its record |
| CsvParser.ThreeLines | src/io/csv_parser.cpp:42-65 | the records of three lines are what each contributes, in order |
| CsvParser.SkippedLinesExample | tests/io/test_csv_parser.cpp:214-237 | of a good, a blank and a malformed line only the good one is handed on |
| QueryParser.QueryTrim | app/main.cpp:10-19 | input without non-whitespace comes back unchanged; otherwise the slice between runs of whitespace, with non-whitespace ends |
| QueryParser.QueryTrimVersusTrimCopy | app/main.cpp:10-19 | agrees with `trimCopy` on strings with non-whitespace, and keeps blank strings that `trimCopy` empties |
| QueryParser.QueryTrimIdempotent | app/main.cpp:10-19 | trimming twice is trimming once |
| QueryParser.QueryTrimBlankExample | app/main.cpp:12-16 | a blank line is kept by the front end's trim and emptied by `trimCopy` |
| QueryParser.RunLength | app/main.cpp:31-35 | the run of non-whitespace at the start, ended by whitespace or the end |
| QueryParser.RunLengthUnique | app/main.cpp:31-35 | a run is determined by where it stops |
| QueryParser.WordsAreWords | app/main.cpp:31-35 | every extracted word is non-empty and whitespace-free |
| QueryParser.WordsOfWord | app/main.cpp:31-35 | a single word extracts as itself |
| QueryParser.WordsSpaceConcat | app/main.cpp:31-35 | a space separates words without merging or losing any |
| QueryParser.WordsOfJoin | app/main.cpp:31-35 | words joined by single spaces extract as those words |
| QueryParser.WordsAtSpace | app/main.cpp:31-35 | leading whitespace adds no word |
| QueryParser.WordsAtRun | app/main.cpp:31-35 | a maximal run of non-whitespace is the next word |
| QueryParser.ExtractWords | app/main.cpp:31-35 | the `>>` loop gives exactly the maximal non-whitespace runs, in order |
| QueryParser.UpperChar | app/main.cpp:44-45 | ASCII lower-case letters become the matching upper-case letter, everything else is kept |
| QueryParser.ToUpper | app/main.cpp:44-45 | every character is upper-cased, length kept |
| QueryParser.OpName | app/main.cpp:47-62 | each keyword is a word and already upper case |
| QueryParser.ParseOpSpec | app/main.cpp:44-67 | a word names an operation if and only if it upper-cases to that operation's keyword |
| QueryParser.ParseOpName | app/main.cpp:44-62 | any spelling that upper-cases to a keyword parses to its operation |
| QueryParser.ParseOpLowerExample | app/main.cpp:44-62 | "andnot" is accepted as ANDNOT |
| QueryParser.ParseOpRejectsExample | app/main.cpp:63-67 | "NAND" is rejected |
| QueryParser.ParseQuery | app/main.cpp:23-76 | an accepted command has at least two words, the last naming the operation, and at least one tag, all words |
| QueryParser.ParseTagQuery | app/main.cpp:23-76 | true exactly when the reference `ParseQuery` accepts, with its tags and operation; on false the tags are empty and the operation keeps its old value |
| QueryParser.QueryRoundTrip | app/main.cpp:23-76 | tags followed by a keyword, one space apart, parse back to those tags and that operation |
| QueryParser.QuerySpacing | app/main.cpp:31-35 | the command depends only on the words, not on how much whitespace separates them |
| QueryParser.ThreeWords | app/main.cpp:31-35 | three words one space apart extract as those words |
| QueryParser.TwoTagQuery | app/main.cpp:23-76 | two tags and a keyword parse to those tags and that operation |
| QueryParser.QueryExample | app/main.cpp:23-76 | "red blue or" parses to tags ["red", "blue"] under OR |
| QueryParser.QueryKeywordOnlyExample | app/main.cpp:37-41 | a keyword alone is refused |
| Types.GrowTo | src/core/forward_index.cpp:16 | `resize` of a vector that only grows: the old entries, then copies of the fill value |

## Left out

- Locking: the shared mutex and its locks exist only for concurrency, so the operations are modelled as sequential methods.
- Incremental loading: `loadIncremental`, `readLastOffset`, `writeLastOffset` and the constructor's status-file read are left out, because they are file I/O, `tellg` fallbacks and logging.
- Filesystem helpers: src/utils/file_util.cpp only queries the filesystem and is not part of this model.
- Roaring internals: bitmaps are mathematical sets, so their compressed encoding, `runOptimize` re-encoding and the serialized byte format are not modelled.
- Persistence: `InvertedIndex::save`/`load` (byte framing around foreign payloads) are not modelled. Mapping and ForwardIndex `save`/`load`/`clear` are declared but not implemented, and the IndexManager `saveIndex`/`loadIndex` are commented-out TODOs, so none are modelled.
- Exceptions and allocation failures: the `try`/`catch` paths of the inverted index are not modelled, and the model treats allocation as always succeeding, which is why `RunOptimize` always reports success.
- Locale: whitespace is the fixed ASCII set " \t\n\v\f\r", and upper-casing is ASCII.
- The interactive `main` loop, its console I/O and the error messages printed on `std::cerr` are left out.
- Overloads: the copying and moving overloads of `getId`, `getTagId` and `addTags` have the same effect, so each pair is one Dafny method.
- The callback of `parseStream` is modelled as the sequence of records handed on, in order.
- The `std::istream` is an in-memory text. The `std::getline` loop is a split on line feeds, and the extra empty piece after a final line feed is blank and therefore skipped.
- CsvParser.Stream: a start offset past the end of the text is modelled as a failed seek, as on a string stream; a file stream may instead accept the seek and read nothing.
- CsvParser.Stream: the text is a sequence of characters and the start offset counts characters. The source's offset is a byte position given to `seekg` (a 64-bit `FileOffset`), so the two agree only for single-byte (ASCII) text before the offset.
- CsvParser.ParseStream: the `stream.bad()` branch is not modelled, because an in-memory text has no non-recoverable read error.
- The file-opening wrapper `parseFile` is I/O and is left out.
- The `parts.empty()` guard of `parseLine` is unreachable, because splitting always yields at least one token (`StringUtil.TokensNeverEmpty`), so it has no branch in the model.
- StringUtil.TrimLeft, StringUtil.TrimRight and StringUtil.Trim return the erased string as a new value instead of changing the caller's string in place.
- QueryParser.ParseTagQuery: the caller's tag vector is modelled as an out-parameter, because it is cleared on entry and its old contents can never reach the result.
- The header comment of `InvertedIndex::performOperation` claims that any invalid tag gives an empty result. The code skips absent later tags for OR, XOR and ANDNOT, and the model follows the code.
