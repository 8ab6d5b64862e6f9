# Verified model of the djondb storage core

djondb is a document store: documents are kept as byte records in a file that only grows, an index maps identifiers
to positions in that file, and queries are filters over dotted paths. This project models its four linked parts and
proves what they promise each other. `dafny verify dfyconfig.toml` checks everything.

**The index** (`Ids` to `BPlusIndexP`). Identifiers are compared by length first and then byte by byte; `Rank` turns
that order into the order of numbers. `BTree` is the tree as a value, with any odd bucket size b >= 3; pages come out in
descending order, a leaf split promotes a copy of a key and an inner split moves one. `BPlusIndexP` is the program:
pages with arrays of elements and pointers that are shifted, copied and cleared in place, parent numbers, splits that
climb from page to page up to a new root. Every public method is proved equal to the tree operation on the tree its
pages stand for, for every key, fresh or not. Then the tree is studied: insertion keeps it well formed exactly for fresh
keys, separators are the first keys of leaves, runs refine a map, and heights are logarithmic.

**The documents** (`ByteStreams`, `Documents`, `Selections`, `SelectStrings`, `BsonStreams`, `Paths`, `ByteViews`,
`ViewSelects`, `PageImages`). One writer and three readers of djondb's own byte layout: the streaming reader with the
projection pushed into it, the view that leaves the bytes where they are, and the document in memory. All are tied to
one abstract document, an ordered sequence of fields with nested documents and arrays. `PageImages` is the byte image of
an index page.

**The store** (`Records`, `Stores`, `StoreRuns`, `StoreFaults`, `StoreExamples`, `FullScans`, `IndexAnswers`,
`DBControllers`). A log of records whose `_status` is rewritten in place, and the index over it. `DBController` works on
the real byte stream and the real index; its methods are proved to be the steps of a state machine over (log, tree), and
runs of these steps are compared with a plain list of documents: when they agree, and what happens where they do not.

**Queries, JSON and the cache** (`Filters`, `ByteFilters`, `FilterGrammar`, `FilterMeanings`, `FilterParsers`,
`JsonGrammar`, `JsonDerivations`, `JsonParsers`, `JsonText`, `PriorityCaches`). Filter evaluation on documents and on
bytes, what the text of a filter says of a document, the two recursive-descent parsers with their cursors, printing, and
the least-recently-used cache.

## What turned out not to hold

- A key that is already in the tree breaks its order, always (`BTreeFacts.InsertKeepsWellFormed` is an if and only if).
- `update` of the index rewrites the leaf entry only, while `find` may stop at a separator with the old position. Where
  both agreed before, they agree after an update exactly if the key is no separator or the position is the old one
  (`BTreeRuns.UpdateKeepsFindCurrent`).
- So the store goes wrong exactly at updates and removals of identifiers that were updated earlier while they stood
  among the separators (`StoreFaults.CurrentUnlessUpdatedAsSeparator`), and a run is right throughout if and only if it
  has no such operation (`StoreFaults.RunIsExactUnlessReused`). The wrong removal removes nothing, and the wrong update
  leaves both versions in the store (`StoreFaults.NotCurrentKeepsTheOld`). `StoreExamples.RemovedDocumentStays` builds
  such a run for every bucket size; with the program's it has eight operations.
- `find` by `_id` answers with removed documents too, and once more for every separator the filter accepts
  (`IndexAnswers.IndexAccount`); `IndexAnswers.IndexAnswersRightly` says exactly when the answers are right.
- The index takes a second document with the same identifier, and is out of order from then on.
- The byte view takes the type of a key from the first stored key that is a prefix of it
  (`Paths.PrefixConfusesTypes`); `Paths.ViewFindsTheSame` gives the exact condition under which it is right.
- `<` lets equal numbers pass, and numbers of different types never compare (`Filters.ComparisonsOfNumbers`). So no int
  equals or comes before a number from 2147483647 on in a filter (`FilterMeanings.NumberComparisonText`), and strings,
  booleans and missing fields are all below each other and never above (`Filters.ComparisonsOfOthers`).
- A projection by a path that ends at a document keeps the document but none of its fields
  (`Paths.ProjectionEmptiesDocuments`).
- `add` of a key that is held already keeps all other keys if and only if the cache has room or the key is the oldest;
  otherwise the oldest key goes, although nothing had to (`PriorityCaches.ReaddingForgets`).
- A filter that is not built from comparisons and existence tests by AND, OR and NOT has no truth value already on the
  empty document: it throws, gives no result, or follows a null pointer (`Filters.AnswersEverywhereOrNotOnNothing`).
- The comment at the bucket size says "even" and lists odd numbers; the code needs an odd one, and the model takes that.
- The filter grammar file gives `FALSE` the value true; the generated parser gives it false, and the model follows it.

## Model

| member | source | states |
|---|---|---|
| Ids.CompareIsRankOrder | db/util/stringfunctions.cpp:87-101 | the comparison by length and then by bytes is a total order that tells all identifiers apart |
| BTreeFacts.InsertKeepsWellFormed | db/db/bplusindexp.cpp:309-318 | an insertion keeps order, separators, room in every page and equal depth of all leaves if and only if its key is not in the tree yet; then the leaves are the old ones with the new entry in its place |
| BTreeFacts.InsertConserves | db/db/bplusindexp.cpp:363-509 | fresh key or not, no leaf entry is lost or made up, and the new one is stored once |
| BTreeFacts.DuplicateIsDisordered | db/db/bplusindexp.cpp:65-98 | a duplicate always leaves the tree out of order |
| BTreeReading.SeparatorsAreFirstKeys | db/db/bplusindexp.cpp:395-410 | the separators are in order the first keys of all leaves but the leftmost, so there is one less than there are leaves |
| BTreeReading.LookupReads | db/db/bplusindexp.cpp:240-267 | a search from the root gives the separator with the key if there is one and the leaf entry otherwise, or nothing when there is neither |
| BTreeReading.UpdateLeaves | db/db/bplusindexp.cpp:170-187 | an update changes the position of the leaf entry with the key and of no other entry |
| BTreeReading.UpdateChangesPosition | db/db/bplusindexp.cpp:182-187 | of all leaf entries only the one with the key changes, and of it only the position: its key and its document stay |
| BTreeReading.UpdateKeepsSeps | db/db/bplusindexp.cpp:170-187 | an update leaves all separators with their old positions |
| BTreePaths.AscendIsInsert | db/db/bplusindexp.cpp:494-509 | finding a leaf and climbing by parents with what overflows is the recursive insertion from the root |
| BTreePaths.AscendIsUpdate | db/db/bplusindexp.cpp:170-187 | repositioning an entry in the leaf that is found is the update from the root |
| BTreePaths.ReachesIffPresent | db/db/bplusindexp.cpp:269-298 | the leaf found for a key holds it if and only if any leaf does |
| BTreeRuns.RunRefinesMap | db/db/bplusindexp.cpp:160-187 | after any run of additions of distinct keys and updates the tree is well formed and its leaves hold exactly the map of last positions |
| BTreeRuns.AddOnlyRunFinds | db/db/bplusindexp.cpp:193-201 | after any run of distinct additions `find` answers the added position, or nothing for a key never added |
| BTreeRuns.UpdateKeepsFindCurrent | db/db/bplusindexp.cpp:170-201 | where `find` and the leaves agree on a key they hold, they agree after an update of it if and only if the key is no separator or the position is the old one |
| BTreeReading.InsertKeepsSeps | db/db/bplusindexp.cpp:363-481 | whatever is inserted, a separator stays a separator, through all splits |
| BTreeRuns.UpdateOfSeparatorIsUnseen | db/db/bplusindexp.cpp:182-187 | an update of a key that is a separator does not change what `find` answers |
| BTreeRuns.ScanAccount | db/db/bplusindexp.cpp:602-630 | a scan reports as a multiset every matching leaf entry once and every matching separator once more |
| BTreeRuns.HeightIsLogarithmic | db/db/bplusindexp.cpp:240-267 | a tree of n + 1 levels, n >= 1, holds at least 2 ((b+1)/2)^n entries |
| IndexPages.ShiftRightArray | db/db/bplusindexp.cpp:43-49 | repeated opening of a slot, with the emptied slots and the elements that fall off |
| IndexPages.ShiftLeftArray | db/db/bplusindexp.cpp:51-58 | repeated closing of a slot |
| IndexPages.InsertArray | db/db/bplusindexp.cpp:60-63 | the element at its position, those behind it moved up, the last one gone |
| IndexPages.FindInsertPositionArray | db/db/bplusindexp.cpp:65-98 | the first position whose key is smaller, by the scan over filled slots |
| IndexPages.InitializeArray | db/db/bplusindexp.cpp:100-104 | the first slots empty, the others as before |
| IndexPages.CopyArray | db/db/bplusindexp.cpp:106-112 | the range copied to its offset and all other slots as before, or nothing changed where the range is empty |
| PageWork.PlaceElement | db/db/bplusindexp.cpp:499-507 | in a page with room the element comes to its ordered place and the page right of it into the next pointer slot |
| PageWork.HalveLeaf | db/db/bplusindexp.cpp:363-397 | the full leaf and the new one hold the two halves of the merged run, with every other slot empty |
| PageWork.HalveInner | db/db/bplusindexp.cpp:417-458 | the full inner page and the new one hold the halves of elements and pointers; the new one still has the promoted element in front |
| IndexLinks.Plug | db/db/bplusindexp.cpp:300-307 | along correct parent numbers the tree below the root is any page's tree put into its surroundings |
| IndexSteps.PlaceStep | db/db/bplusindexp.cpp:494-509 | placing an element keeps all pages linked with correct parents, and the whole tree is the abstract insertion |
| IndexSteps.HalveStep | db/db/bplusindexp.cpp:363-481 | halving keeps all pages linked but for the new one, and the two halves are what the abstract split gives |
| IndexSteps.RootStep | db/db/bplusindexp.cpp:531-542 | the new root over the old one and its right half is linked and is the abstract new root |
| BPlusIndexPs.BPlusIndexP.constructor | db/db/bplusindexp.cpp:131-147 | an empty index is one empty leaf |
| BPlusIndexPs.BPlusIndexP.Add | db/db/bplusindexp.cpp:160-168 | whatever the key, the pages afterwards are linked and stand for the abstract insertion into the old tree; the recursion through splits ends |
| BPlusIndexPs.BPlusIndexP.AddElement | db/db/bplusindexp.cpp:494-509 | from any page on the path, with or without room, climbing gives the abstract insertion |
| BPlusIndexPs.BPlusIndexP.SplitAddLeaf | db/db/bplusindexp.cpp:363-415 | splitting a full leaf and promoting a copy of the key gives the abstract insertion, with all parents set |
| BPlusIndexPs.BPlusIndexP.SplitAddInner | db/db/bplusindexp.cpp:417-481 | splitting a full inner page and moving the key up gives the abstract insertion, with all parents set |
| BPlusIndexPs.BPlusIndexP.CreateRoot | db/db/bplusindexp.cpp:531-542 | the new head holds one element and the two pages, which have it as their parent; all other pages stay |
| BPlusIndexPs.BPlusIndexP.FindIndexPage | db/db/bplusindexp.cpp:269-298 | the leaf the abstract descent reaches, with the path to it |
| BPlusIndexPs.BPlusIndexP.FindIndex | db/db/bplusindexp.cpp:240-267 | the place the abstract search stops at, below any page |
| BPlusIndexPs.BPlusIndexP.Find | db/db/bplusindexp.cpp:193-201 | the abstract search of the tree |
| BPlusIndexPs.BPlusIndexP.Update | db/db/bplusindexp.cpp:170-191 | the abstract update, and whether a leaf held the key |
| BPlusIndexPs.BPlusIndexP.FindAll | db/db/bplusindexp.cpp:544-553 | the matches in the order of the abstract scan, leaves and separators |
| BPlusIndexPs.BPlusIndexP.FindInPage | db/db/bplusindexp.cpp:602-630 | the matches of a page behind those of its children, the children from the last to the first |
| PageImages.StoredPage.PersistPage | db/db/bplusindexp.cpp:779-842 | the buffer holds at the page's position the length and the image of the page, and is as before elsewhere |
| PageImages.StoredPage.LoadPage | db/db/bplusindexp.cpp:730-777 | where a page was persisted, loading restores its size and every element; every child pointer and both siblings are as they were if they name a buffer from 0 on, and empty otherwise |
| PageImages.RestoredPointers | db/db/bplusindexp.cpp:672-698 | of a page that was written and loaded exactly the pointers to pages with a buffer number from 0 on are left, each unchanged in its place |
| PageImages.ImageStands | db/db/bplusindexp.cpp:779-842 | where an image stands it begins with the number of slots and of elements and ends with the last pointer, the left and the right sibling, each three numbers of four bytes |
| PageImages.ImageTellsRestored | db/db/bplusindexp.cpp:632-698 | two pages have the same image if and only if they are restored to the same page |
| ByteStreams.SignedReads | db/filesystem/fileinputoutputstream.cpp:125-135 | a signed number read from its little-endian bytes is the number, at every width it fits |
| ByteStreams.SignedByte | db/filesystem/fileinputoutputstream.cpp:125-135 | byte k of a signed number is digit k to the base 256 of its two's complement |
| Documents.PutIsMapUpdate | db/bson/bsonobj.cpp:61-111 | adding a field keeps the keys in order and replaces what was under its key and nothing else |
| Documents.KeyLessMeans | db/bson/bsonobj.cpp:61-111 | keys are ordered by the byte where they first differ, a shorter one before those it begins |
| Documents.TagNumber | db/bson/bsondefs.h:6-18 | the number every type of value is written under |
| Documents.FieldStands | db/filesystem/bsonoutputstream.cpp:38-96 | where a field stands, its parts are read at their places: four bytes of length, the key, eight bytes of type, and the value of that type |
| Documents.SameDoc | db/filesystem/bsonoutputstream.cpp:38-96 | no two documents can be read at one place of a stream, whatever follows: the encoding is injective and frames itself |
| BsonStreams.WriteBSON | db/filesystem/bsonoutputstream.cpp:38-96 | the encoding is written at the cursor, the bytes around it stay and the cursor stands behind it |
| BsonStreams.WriteBSONArray | db/filesystem/bsonoutputstream.cpp:98-107 | the same for arrays |
| BsonStreams.ReadBSON | db/filesystem/bsoninputstream.cpp:43-194 | where a document was written its selection is read, and the cursor stands behind the whole document, skipped fields included |
| BsonStreams.ReadBSONInnerArray | db/filesystem/bsoninputstream.cpp:200-220 | the same for arrays |
| Selections.SelectIsProject | db/bson/bsonobj.cpp:571-654 | selecting by a printed list of paths is the projection by the paths, at every depth and through arrays |
| Selections.SelectAll | db/bson/bsonobj.cpp:571-654 | selecting `*` keeps every field, documents and arrays inside included |
| Paths.ProjectionLeavesPaths | db/bson/bsonobj.cpp:571-654 | after a projection every path of it finds the value it found before, and names no path begins with find nothing |
| Paths.ProjectionEmptiesDocuments | db/bson/bsonobj.cpp:583-597 | a document that a path ends at is kept without any of its fields |
| Paths.ProjectionKeepsElements | db/bson/bsonobj.cpp:598-611 | of an array that is selected every document stays in its place, with what the paths go on to |
| Selections.ColumnsOfPrint | db/bson/bsonutil.cpp:27-48 | the head set of a printed list of paths holds exactly the first names |
| Selections.SubSelectOfPrint | db/bson/bsonutil.cpp:50-83 | the inner selection of a printed list is the printed list of the tails |
| SelectStrings.BsonSplitSelect | db/bson/bsonutil.cpp:27-48 | the loop computes the head set of any selection string the program takes apart without an exception |
| SelectStrings.BsonSubSelect | db/bson/bsonutil.cpp:50-83 | the loop writes the inner selection into a buffer of the selection's length plus one and never beyond |
| Paths.DotLeadsOn | db/bson/bsonobj.cpp:404-424 | a dotted path finds in a document what the part behind its first dot finds in the document under the name before it |
| Paths.DottedPathWalks | db/bson/bsonobj.cpp:404-424 | every dotted path finds what walking its names one by one through the documents finds |
| Paths.ViewFindsTheSame | db/filesystem/bsonbufferedobj.cpp:466-485 | the byte view finds what the decoded document does if and only if the types along the path are right and the path does not end at a document |
| Paths.NoPrefixesTypesRight | db/filesystem/bsonbufferedobj.cpp:127-142 | where no key is a prefix of another all types are right |
| Paths.FirstPrefixIsShortest | db/filesystem/bsonbufferedobj.cpp:127-142 | the stored key that gives the type is the shortest prefix of the key sought |
| Paths.PrefixConfusesTypes | db/filesystem/bsonbufferedobj.cpp:127-142 | a concrete document on which the view takes a string for a number |
| ByteViews.Initialize | db/filesystem/bsonbufferedobj.cpp:144-231 | the view's length is that of the encoding, for all nestings, and every slot stands at its value |
| ByteViews.InitializeArray | db/filesystem/bsonbufferedarrayobj.cpp:41-53 | the same for arrays of documents |
| ByteViews.GetValue | db/filesystem/bsonbufferedobj.cpp:110-125 | the slot of exactly the key sought, or none |
| ByteViews.GetType | db/filesystem/bsonbufferedobj.cpp:127-142 | the type of the first stored key that is a prefix of the key sought |
| ByteViews.GetContent | db/filesystem/bsonbufferedobj.cpp:397-435 | the value under the key with the type of the first prefix |
| ByteViews.GetXpath | db/filesystem/bsonbufferedobj.cpp:466-485 | what the view finds under a dotted path, read from the bytes |
| ViewSelects.SelectView | db/filesystem/bsonbufferedobj.cpp:495-575 | on documents whose types are right the selection made from the bytes is the selection of the decoded document |
| ViewSelects.SelectArray | db/filesystem/bsonbufferedarrayobj.cpp:111-121 | the same for arrays |
| ViewSelects.NoPrefixesAnywhereClear | db/filesystem/bsonbufferedobj.cpp:127-142 | documents whose keys are no prefixes of each other, at any depth, have right types |
| Filters.EvalDependsOnReads | db/db/binaryexpression.cpp:56-214 | two documents that agree on every path a filter reads and every existence test it makes give it the same outcome |
| Filters.KeyDocumentSuffices | db/db/dbcontroller.cpp:370-377 | a filter that mentions `_id` only says of the key document what it says of the record |
| Filters.FilterOnBytes | db/db/simpleexpression.cpp:48-101 | on rightly typed paths that end at values or at nothing, filtering the bytes is filtering the document |
| Filters.PathOnBytes | db/db/simpleexpression.cpp:48-101 | for a single path the condition on the types is exact |
| Filters.ComparisonsOfNumbers | db/db/binaryexpression.cpp:121-171 | which orders the comparisons are on whole numbers, `<` being `<=`, and that mixed types never compare |
| Filters.ComparisonsOfLongs | db/db/binaryexpression.cpp:121-171 | the same orders on long numbers |
| Filters.ComparisonsOfOthers | db/db/binaryexpression.cpp:56-171 | of strings, booleans and missing fields nothing is greater, so `<` and `<=` always hold and `>=` is equality; two missing fields are not equal |
| Filters.AndOrNotMean | db/db/binaryexpression.cpp:173-196 | AND accepts what both sides accept, OR what one accepts where both are true or false, and NOT what is false |
| Filters.EqualityOfField | db/db/binaryexpression.cpp:56-119 | a field equals a constant if and only if its value is the constant, of the same type; the opposite of NOT_EQUALS; a missing field equals nothing |
| Filters.OrderOfField | db/db/binaryexpression.cpp:121-171 | which whole numbers in a field the four orders accept |
| Filters.ExistsMeans | db/db/unaryexpression.cpp:51-75 | an existence test accepts exactly the documents with a field of the name, and its NOT all others |
| Filters.AnswersEverywhereOrNotOnNothing | db/db/binaryexpression.cpp:56-214 | a filter is true or false of every document it can read if and only if it is of the empty one, and that holds exactly for AND, OR and NOT over truths, comparisons of values and existence tests |
| ByteFilters.EvalView | db/db/binaryexpression.cpp:198-214 | evaluating on the byte view gives the outcome of evaluating on the decoded document, under the condition of FilterOnBytes; what that outcome is say AndOrNotMean and the comparisons |
| FilterGrammar.ParserAcceptsGrammar | db/db/filter_expressionParser.cpp:573-1716 | the parser accepts a token sequence if and only if it has a derivation in the grammar, and finds that one |
| FilterGrammar.PrintParse | db/db/filter_expressionParser.cpp:694-1252 | printing any expression the grammar builds, AND tighter than OR and chains to the left, and parsing it gives it back |
| FilterGrammar.PrintIsShortest | db/db/filter_expressionParser.cpp:1064-1126 | no token sequence for an expression is shorter than its printed form: parentheses stand only where needed |
| FilterMeanings.ExistsText | db/db/filter_expressionParser.cpp:1458-1529 | EXISTS over a path is a filter and says whether the document has the field |
| FilterMeanings.NotExistsText | db/db/filter_expressionParser.cpp:1536-1711 | NOT over EXISTS, with and without parentheses, is a filter and says the opposite |
| FilterMeanings.ConstantText | db/db/filter_expressionParser.cpp:1773-1939 | a number, a string, TRUE, FALSE or a path alone is a filter, and what it says; numbers from 2147483647 on are longs |
| FilterMeanings.NumberComparisonText | db/db/filter_expressionParser.cpp:1134-1253 | which ints in a field the text of each of the six comparisons with a number accepts, and that none compares to a long |
| FilterMeanings.StringComparisonText | db/db/filter_expressionParser.cpp:1134-1253 | a path, an operator and a string accept exactly the equal or the other strings |
| FilterMeanings.ChainText | db/db/filter_expressionParser.cpp:1134-1253 | in a chain of comparisons what the chain so far says is compared with the next operand |
| FilterMeanings.AndText | db/db/filter_expressionParser.cpp:815-929 | of any texts with AND between them: accepted is what both accept |
| FilterMeanings.OrText | db/db/filter_expressionParser.cpp:694-808 | of any texts with OR between them, terms with AND included: accepted is what one accepts where both say true or false |
| FilterMeanings.FiltersCombine | db/db/filter_expressionParser.cpp:936-1126 | any two filters put in parentheses with AND or OR between them are a filter that accepts what both or one of them accept |
| FilterMeanings.SpellingIsNothing | db/db/filter_expressionParser.cpp:1536-1711 | filters that differ only in the parentheses behind their NOTs say the same of every document |
| FilterParsers.FilterParser.StartPoint | db/db/filter_expressionParser.cpp:573-630 | the cursor parser accepts and builds what the grammar says, and only when all input is used |
| FilterParsers.FilterParser.BooleanExpression | db/db/filter_expressionParser.cpp:694-808 | the OR loop with its rebound value |
| FilterParsers.FilterParser.Term | db/db/filter_expressionParser.cpp:815-929 | the AND loop |
| FilterParsers.FilterParser.Value | db/db/filter_expressionParser.cpp:936-1126 | the choice by the next token, and the rule for parentheses |
| FilterParsers.FilterParser.NonParenthesized | db/db/filter_expressionParser.cpp:1134-1253 | the chain of operators, all nested to the left |
| FilterParsers.FilterParser.UnaryExpression | db/db/filter_expressionParser.cpp:1260-1451 | constants, paths and the unary operators |
| FilterParsers.FilterParser.ExistsExpression | db/db/filter_expressionParser.cpp:1458-1529 | the existence test of a path |
| FilterParsers.FilterParser.NotExpression | db/db/filter_expressionParser.cpp:1536-1711 | the negation of one existence test, with or without parentheses around it |
| JsonGrammar.DocReads | db/bson/bson_grammarParser.cpp:1051-1253 | parsing the tokens of a document gives the document and leaves what stands behind it |
| JsonDerivations.ParserAcceptsDerivations | db/bson/bson_grammarParser.cpp:596-1253 | a token sequence is accepted as a document if and only if a derivation spells it, leading commas and repeated names included, and the document is what the derivation means |
| JsonDerivations.LastPairCounts | db/bson/bson_grammarParser.cpp:64-97 | the fields of an object are in order, and under every name stands the value of the last pair with it |
| JsonGrammar.CommaBeforeFields | db/bson/bson_grammarParser.cpp:1051-1253 | a comma before the first field is accepted, with the same document as without it |
| JsonParsers.JsonParser.JsonExpression | db/bson/bson_grammarParser.cpp:1051-1253 | the cursor parser builds the document of the grammar in a new object, and the object under construction is the one it was before |
| JsonParsers.JsonParser.Const | db/bson/bson_grammarParser.cpp:596-911 | a value of any kind, nested documents included, with the object under construction restored |
| JsonParsers.JsonParser.Array | db/bson/bson_grammarParser.cpp:918-1044 | an array of at least one document |
| JsonParsers.JsonParser.AddElement | db/bson/bson_grammarParser.cpp:64-97 | the field goes to the object under construction and replaces one with its key |
| JsonText.TextReads | db/bson/bsonobj.cpp:113-206 | the text of a document with clean strings, ints from zero, longs above INT_MAX, booleans, documents and arrays that are not empty, lexed and parsed, is the document |
| JsonText.LexDoc | db/bson/bsonobj.cpp:113-206 | the text consists of exactly the document's tokens, whatever follows |
| JsonText.NumberReads | db/bson/bsonobj.cpp:165-172 | the text of a number is its decimal digits, and of a negative one a minus sign and the digits of its opposite |
| JsonText.NumberTextTells | db/bson/bsonobj.cpp:165-172 | different numbers have different texts |
| JsonText.FieldWrittenLast | db/bson/bsonobj.cpp:130-140 | every field is written behind those before it and a comma: a space, the key in quotes, a colon between spaces, the value |
| JsonText.DocWrittenLast | db/bson/bsonarrayobj.cpp:63-82 | every document of an array is written behind those before it, a comma and a space |
| JsonText.SampleTexts | db/bson/bsonobj.cpp:113-206 | the characters of a number, of a string and of the truth values in a document |
| JsonText.EmptyTexts | db/bson/bsonobj.cpp:113-206 | the characters of an empty document and of an array of two |
| JsonText.ToChar | db/bson/bsonobj.cpp:113-206 | the loop over the fields writes that text |
| JsonText.ArrayToChar | db/bson/bsonarrayobj.cpp:63-82 | the loop over the documents of an array writes its text |
| Records.StatusRewrite | db/db/dbcontroller.cpp:277-287 | another status in a stored record changes neither its encoded length nor its identifier nor any other field |
| Records.RewriteInPlace | db/db/dbcontroller.cpp:312-327 | a record written over by one of its length leaves every other byte and every record boundary as it was |
| Stores.FoundPoints | db/db/dbcontroller.cpp:336-344 | what the index answers points at a record with the identifier asked for, and it answers exactly when the leaves hold it |
| Stores.InsertKeepsExact | db/db/dbcontroller.cpp:248-267 | inserting a new identifier keeps index and statuses exact and appends one document |
| Stores.UpdateKeepsExact | db/db/dbcontroller.cpp:269-298 | an update keeps the store exact if and only if `find` and the leaves agree; then the new document replaces the old one and is last |
| Stores.RemoveKeepsExact | db/db/dbcontroller.cpp:300-334 | a removal keeps the store exact under the same condition; then the document is gone and the index entry points at its deleted record |
| StoreRuns.RunIsSound | db/db/dbcontroller.cpp:248-334 | after any run, exact or not, the tree is well formed and every entry and separator points at a record with its identifier |
| StoreRuns.StepMarks | db/db/dbcontroller.cpp:269-334 | a removal or an update of a known identifier marks one record of it with 2 or 3 and leaves its other fields and all other records as they were |
| StoreRuns.StepIsExact | db/db/dbcontroller.cpp:248-334 | one operation keeps an exact store exact if and only if the index is current for it, and then changes the documents as it says |
| StoreRuns.RunIsExact | db/db/dbcontroller.cpp:248-334 | a run that always finds the index current holds the list of documents in the order of last write |
| StoreRuns.SettledRunIsExact | db/db/dbcontroller.cpp:248-334 | in runs that leave an identifier alone once it was updated the store is the list of documents, whatever the tree's shape |
| StoreFaults.CurrentUnlessUpdatedAsSeparator | db/db/dbcontroller.cpp:269-334 | in any run the index is current for an update or a removal if and only if no earlier update of the identifier found it among the separators |
| StoreFaults.RunIsExactUnlessReused | db/db/dbcontroller.cpp:248-334 | a run keeps the store exact after every operation if and only if no identifier is used again that was updated as a separator; then the store is the list of documents throughout |
| StoreFaults.NotCurrentKeepsTheOld | db/db/dbcontroller.cpp:269-334 | where the index is not current, a removal leaves all documents in the store and an update adds the new one beside the old |
| StoreFaults.SecondUseOfSeparator | db/db/dbcontroller.cpp:269-334 | after the update of a document whose identifier is a separator, the next removal leaves it in the store and the next update leaves both versions |
| StoreExamples.RemovedDocumentStays | db/db/dbcontroller.cpp:248-334 | for any bucket and any documents, one more than a leaf holds, with descending identifiers: the run that inserts them, updates the promoted one and removes it ends with it in the store |
| StoreExamples.SamplesDescend | db/db/dbcontroller.cpp:231-246 | there are such documents for the program's bucket size |
| DBControllers.FilledIsProper | db/db/dbcontroller.cpp:231-246 | a filled document has all a record needs, is active, and keeps the identifier it had |
| DBControllers.FilledKeeps | db/db/dbcontroller.cpp:231-246 | a filled document has exactly the fields it came with other than the status, the status 1, and an identifier and a revision where it had none |
| DBControllers.DBController.Insert | db/db/dbcontroller.cpp:248-267 | new identifier or not, the filled document, whose fields FilledKeeps gives, comes behind all records and an entry for it into the tree, and the stream rests at the end of the file; with a new identifier this is the step of an insertion |
| DBControllers.DBController.Update | db/db/dbcontroller.cpp:269-298 | seeking, rewriting, repositioning and appending make the step of an update |
| DBControllers.DBController.Remove | db/db/dbcontroller.cpp:300-334 | the step of a removal, and no change where the index knows nothing |
| DBControllers.DBController.FindByIndex | db/db/dbcontroller.cpp:365-412 | every result is the projection of a record that the index scan points at, one per scanned entry |
| IndexAnswers.IndexAnswersMatch | db/db/dbcontroller.cpp:370-409 | a filter on `_id` only accepts every record it is answered with |
| IndexAnswers.IndexAccount | db/db/dbcontroller.cpp:365-412 | in an exact store the answers are as a multiset the right ones, one more for every accepted entry of a document that is not live, and one more for every accepted separator |
| IndexAnswers.IndexAnswersRightly | db/db/dbcontroller.cpp:365-412 | in an exact store the answers are the projected accepted documents if and only if the filter accepts no separator and no entry of a document that is not live |
| IndexAnswers.ScanPoints | db/db/dbcontroller.cpp:377-400 | whatever a scan of the index reports points at a record |
| FullScans.FindFullScan | db/db/dbcontroller.cpp:473-565 | hopping by lengths visits every record once and gives the accepted active documents, projected, in order of last write, up to the limit |
| FullScans.ScanForAll | db/db/dbcontroller.cpp:473-565 | a filter that is always true and room enough give exactly the documents of the store |
| FullScans.AcceptedByParts | db/db/dbcontroller.cpp:473-565 | what a filter with AND accepts of a store is what its right side accepts of what its left side accepts, in order |
| FullScans.AcceptedByNeither | db/db/dbcontroller.cpp:473-565 | what a filter with OR leaves out is what both sides leave out, in order |
| FullScans.AcceptedOrNot | db/db/dbcontroller.cpp:473-565 | a filter that is true or false of all documents and its NOT share them out, each document going to one of the two |
| PriorityCaches.PriorityCache.Add | db/cache/prioritycache.h:154-167 | the abstract addition: a full cache forgets its oldest key first |
| PriorityCaches.PriorityCache.Get | db/cache/prioritycache.h:170-178 | the held value, and the key becomes the most recent one |
| PriorityCaches.PriorityCache.Erase | db/cache/prioritycache.h:109-118 | the key leaves map and list, and both stay consistent |
| PriorityCaches.PriorityCache.ErasePriority | db/cache/prioritycache.h:142-151 | the key leaves the list, the others keep their order |
| PriorityCaches.PriorityCache.FindPriority | db/cache/prioritycache.h:121-139 | the key's place in the list, or its end |
| PriorityCaches.RunIsConsistent | db/cache/prioritycache.h:97-178 | after any run map and list hold the same keys, without repeats and never more than top |
| PriorityCaches.StepHolds | db/cache/prioritycache.h:97-178 | after any call a key is held if and only if it was added by it, or was held and neither erased, cleared, nor the oldest of a full cache that adds; values held before stay |
| PriorityCaches.RunIsByRecency | db/cache/prioritycache.h:154-178 | after any run the list is ordered by last touch |
| PriorityCaches.HeldIsLastAdded | db/cache/prioritycache.h:154-178 | a held key has the value it was added with last |
| PriorityCaches.TouchedSurvives | db/cache/prioritycache.h:154-178 | a key that was touched survives the next top - 1 calls of `add` and `get` |
| PriorityCaches.ReaddingForgets | db/cache/prioritycache.h:154-167 | adding a key that is held keeps all other keys if and only if the cache has room or the key is the oldest; otherwise the oldest is gone and the cache is one short of full |

## Left out

- The in-memory tree of `bplusindex.cpp`: the same algorithm on the same pages.
- Pages are numbered in the model where the program has pointers, and the elements in their slots are values where the
  program has pointers to `Index` objects.
- Buffers, the buffer manager, memory-mapped files, when pages are persisted and in which order, pages loaded on demand,
  sibling pointers (other than in the page image), the control buffer and `loadIndex`: durability across pages.
- A page whose new image is longer than the old one overwrites what stands behind it in its buffer; `PersistPage` says
  which bytes are written and does not say that there was room.
- The chunks in which a `MemoryStream` keeps its bytes.
- PageImages.StoredPage.PersistPage: starts where the buffer was sought to; which buffer that is, that the page keeps its
  place in it, and the head's place in the control buffer are not in its contract, because buffers are not modelled.
- PageImages.StoredPage.LoadPage: sets no parents on the placeholder pages it creates, because in the image a page is
  only the place it has in the buffers.
- DBControllers.DBController.Insert: requires an `_id` that is there to be a string, as the index reads it as one. After a
  second insertion of an identifier the store is no longer valid, and no operation on such a store is modelled.
- DBControllers.DBController.Update: requires an identifier the index knows, because the program dereferences the missing
  entry otherwise.
- BsonStreams.ReadBSON: says nothing of bytes no document was written as; the program does not check them.
- ViewSelects.SelectView: says nothing of documents with wrong types, where the program reads other bytes as values.
- JsonText.ToChar: does not model the limit of 8000 bytes; how a double is written (`%f`) and read (`atof`) is a
  parameter, and documents with doubles are outside JsonText.TextReads.
- SelectStrings.BsonSplitSelect: gives an element `$` an empty name where the program throws `out_of_range`; exceptions
  from selection strings are not modelled, here and in whatever reads with a selection.
- SelectStrings.BsonSubSelect: gives the elements `$` and `$"` an empty path where the program copies a negative length.
- Selection strings with empty elements or elements of spaces only, on which the program reads outside its buffers.
- Identifiers made by `uuid` and the options of a query are parameters; `findFirst`, namespaces, the file header, version
  migration, stream management and the object cache of the controller.
- The lexers and error recovery of the generated parsers; the filter's global token set; the filter's `copyExpression`.
- `operator ==` of documents, which answers after the first field, and the empty `remove` of the index.
- Caches with a comparator that is not equality of keys, or with no room.
- Commands, network, drivers, locks, logging and freeing of memory.
