# A small SQL engine, modelled and proved in Dafny

The repository is a small SQL engine: strings are interned, values are ordered, rows live in tables whose
indexed columns carry B+ trees, a recursive-descent parser turns WHERE clauses into arrays of nodes, and an
executor evaluates them, letting an index propose rows. Statements are journaled as lines of text and can be
replayed up to a time. This project models that stack, from the heap nodes of the tree to the replay of a
journal, and proves that each layer refines a simpler one.

Check it with `dafny verify dfyconfig.toml`.

## The layers

- **Interning and order** (`Values`, `StringPools`). The pool only grows; the order on values of interned
  strings is total, agrees with equality, and does not change when the pool grows.
- **The B+ tree.** `FlatIndex` describes an index without nodes: leaves of entries with separators between
  them. `FlatSearch` and `FlatMap` compare its searches with a plain list and a plain map; `FlatHistory` does
  so for whole histories. `TreeShape`, `LeafSplit` and `TreeView` describe the heap of nodes as a value and
  say what each split does to it. `BPlusTree` is the class itself: heap nodes with parent, child and chain
  links, changed in place; every method is proved to do to the flat index what the flat index's function
  does. `IndexHistory` puts histories of calls on the heap object.
- **Tables** (`TableSpec`, `Tables`). A table's rows, and the map that each of its trees stands for, agree.
- **WHERE clauses.** `WhereSyntax` has the expressions, their tokens and the flat array of nodes;
  `LexerSpec`, `LexerLaws` and `Lexers` the lexer; `WhereParser` the parser; `WhereText` both together;
  `WhereEval` the evaluator. `Denotations` says what clauses and literals mean in terms of numbers and texts,
  without ids or signs of comparisons, and proves that evaluation agrees; `TextMeanings` goes from the
  characters typed to the rows selected.
- **Statements.** `Query`, `Selection` and `Execution` choose and filter rows, and `StickyErrors` says when that
  depends on their order; `UpdateSpec`, `PartialUpdates`, `Mutation` and `Insertion` are UPDATE, DELETE and INSERT as loops
  on a table object, with the bulk changes they amount to and what they leave when they fail. `Statements` gives
  every statement's effect as a function on tables as values, `Outcomes` all the ways it can end, `StatementMeanings`
  what has become of declarations, cells and rows when it succeeded, and `Databases` proves that execution on the
  objects ends so.
- **The journal and REVERT** (`Journals`, `Replay`, `LiveReplay`), and **base64url** (`Base64Url`).

Classes carry the fields that the source updates in place. Pure `seq` and `map` functions beside them are
their specifications, and the laws are proved of those.

## Findings

- **Equal keys in one tree.** With two equal live keys a split can leave some of them in the leaf before the
  one that a search descends to. `find_equal`, `range` and `erase` then miss them:
  `FlatHistory.DuplicatesAreMissed` is an example of all three at order 4. `FlatSearch.FindEqualExactIffStrict`
  and `FlatSearch.RangeExactIffStrict` say that searches are complete exactly when no leaf holds a key equal to
  the separator on its right, `FlatSearch.EraseExactEverywhereIff` says when erasing is. Tables never store two
  equal keys in an index, so they are not affected.
- **Truncated ids.** An id is a 32-bit number while the pool is not bounded: `StringPools.TruncatedIdResolves`
  says exactly which strings survive the truncation, `StringPools.TruncationLosesString` is one that does not.
- **Errors that stick.** Once one row has raised an error, AND and OR yield false on all later rows, while a
  clause that is one predicate is still decided by it. So an index can change an answer, and what a scan finds can
  depend on the order of a hash table: `StickyErrors.ErrorHidesRow`. `StickyErrors.EveryOrderSelectsIff` says exactly
  when scans do not: no clause or one predicate, or no row raises an error, or no row is selected when each is
  evaluated alone. Such clauses are called steady. A clause whose extracted equality an index finds is looked at
  on one row only, which comes first and so is never hidden: `StickyErrors.ProposalsSelectIff` says that SELECT,
  UPDATE and DELETE pick exactly the rows selected alone, whatever is proposed to them, if and only if the index
  answers or the clause is steady. The laws about whole statements are about these clauses, called definite; for
  the others the statements are proved to pick some of the rows selected alone.
- **NULL is smaller than every number.** So `c < n` and `c <= n` select rows with NULL in c, while `c > n` and
  `BETWEEN` do not: `Denotations.NumbersSelected`, and from the typed text on `TextMeanings.NumbersTyped`.
- **Statements that fail half-way.** A failed INSERT keeps the rows before the tuple that stopped it
  (`Insertion.InsertKeepsPart`); it leaves the table unchanged exactly if the first tuple is refused
  (`Insertion.InsertRows`). A failed UPDATE keeps what it overwrote before the row that stopped it
  (`PartialUpdates.UpdateKeepsPart`); it leaves the table unchanged, in every visiting order, exactly if each
  matched row on its own could not be overwritten or already has the values
  (`PartialUpdates.FailedUpdateAtomicIff`). Failed statements are not journaled: REVERT reproduces a run whose
  failed statements changed nothing (`LiveReplay.LiveThenRevert`), and loses the part that a failed one kept
  (`LiveReplay.HalfInsertLost`).
- **Unfinished journal lines.** A record written behind an unfinished line is read properly exactly if that line
  holds no bar and, put in front of the record's time, reads as that time (`Journals.AppendIsReadIff`). Behind
  the line "x" a record is lost (`Journals.TornLineSwallows`), behind the line "0" it is not
  (`Journals.ZeroLineTakes`).

## Model

| member | source | states |
|---|---|---|
| Values.CmpLaws | src/core/value.cpp:42-62 | On any pool the comparison of values is reflexive, antisymmetric and transitive, across kinds, integers and strings. |
| Values.CmpIsOrder | src/core/value.cpp:42-62 | What the signs mean: NULL is below every integer and integers below every string; integers compare as numbers; a string is less than another if it is a proper prefix of it or has the smaller character at the first difference. |
| Values.StrTrichotomy | src/core/value.cpp:53-59 | Of any two strings exactly one is less, or they are equal. |
| Values.CmpTransitive | src/core/value.cpp:42-62 | Transitivity, with the refinement that an equality at the ends forces equality in between. |
| Values.CmpZeroIffEqual | src/core/value.cpp:25-62 | For interned values comparing equal is being equal, and the same as `value_eq`. |
| Values.CmpStable | src/core/value.cpp:42-62 | Interning more strings changes no comparison of values interned before. |
| StringPools.RunKeepsMeaning | src/core/string_pool.cpp:9-26 | Over every run of `intern`, old ids keep their strings, every id handed out resolves to its string at the end, and interning the string again gives that id. |
| StringPools.DistinctStringsDistinctIds | src/core/string_pool.cpp:9-17 | Distinct strings of a run have distinct ids. |
| StringPools.SlotsThatResolve | src/core/string_pool.cpp:5-26 | A newly interned string is the meaning of its own slot only, except that the reserved slot 0 also means the empty string. |
| StringPools.TruncatedIdResolves | src/core/string_pool.cpp:13-25 | With ids truncated to 32 bits a new string resolves to itself if and only if the pool held fewer than 2^32 strings, or it is empty and its number is a multiple of 2^32. |
| StringPools.TruncationLosesString | src/core/string_pool.cpp:13-25 | With 2^32 strings in the pool the next string gets the truncated id 0, which resolves to the empty string. |
| StringPools.StringPool.constructor | src/core/string_pool.cpp:5-7 | A new pool holds only the reserved empty string. |
| StringPools.StringPool.Intern | src/core/string_pool.cpp:9-17 | The pool afterwards is the old one, extended only if the string is new; the id is never 0 and resolves to the string. |
| StringPools.StringPool.ResolveId | src/core/string_pool.cpp:19-26 | Ids out of range resolve to the empty string, others to their slot. |
| FlatIndex.RouteUnique | src/core/btree.cpp:33-41 | Among ascending separators the child that the descent takes, going right on equality, is the only one whose separators bracket the key. |
| FlatIndex.InsertSorted | src/core/btree.cpp:43-130 | Insertion, with or without a leaf split, keeps all leaves sorted between their separators. |
| FlatIndex.InsertContents | src/core/btree.cpp:43-83 | Insertion splices exactly its one pair into the sequence of all entries, whatever leaves it splits. |
| FlatSearch.ContentsOrdered | src/core/btree.cpp:33-130 | The entries of a sorted index, read leaf by leaf, ascend. |
| FlatSearch.FindEqualExactIff | src/core/btree.cpp:157-169 | `find_equal` returns all rows with the key if and only if no equal key lies in the leaves before the one descended to; in any case what it misses is exactly what lies there. |
| FlatSearch.FindEqualExact | src/core/btree.cpp:157-169 | With strict separators, past emptied leaves, nothing is missed. |
| FlatSearch.RangeExactIff | src/core/btree.cpp:171-190 | `range` returns all rows within its bounds in key order if and only if no key within them lies before the leaf descended to. |
| FlatSearch.RangeExact | src/core/btree.cpp:171-190 | That is so with strict separators, and with duplicates when the lower bound is exclusive. |
| FlatSearch.EraseExact | src/core/btree.cpp:137-155 | With strict separators `erase` reports success exactly when a matching entry is anywhere in the index, and the entries lose exactly that one. |
| FlatSearch.ErasesIff | src/core/btree.cpp:148-155 | In any index `erase` reports success exactly when a match lies in the leaves it visits. |
| FlatSearch.FindEqualExactIffStrict | src/core/btree.cpp:157-169 | In a sorted index `find_equal` is complete for every key if and only if no leaf holds a key equal to the separator on its right. |
| FlatSearch.RangeExactIffStrict | src/core/btree.cpp:171-190 | The same condition decides whether `range` is complete for all bounds. |
| FlatSearch.EraseExactEverywhereIff | src/core/btree.cpp:148-155 | `erase` is complete for every key and row if and only if each entry at the separator on the right of its leaf has a match in the leaves that the search for it visits. |
| FlatSearch.EraseSorted | src/core/btree.cpp:137-155 | Erasing without merging keeps the index sorted, with stale separators and empty leaves. |
| FlatSearch.InsertStrict | src/core/btree.cpp:43-83 | If all keys differ after an insertion, the separators are strict as they were, although a separator is the first key of the right half. |
| FlatMap.InsertRefines | src/core/btree.cpp:50-130 | Inserting a key that is not live into an index that stands for a map gives an index that stands for the map with the pair added. |
| FlatMap.EraseRefines | src/core/btree.cpp:137-155 | `erase` succeeds exactly when the pair is live, and the index then stands for the map without it. |
| FlatMap.FindEqualRefines | src/core/btree.cpp:157-169 | `find_equal` returns the one live row of the key, or nothing. |
| FlatMap.RangeRefines | src/core/btree.cpp:171-190 | `range` returns the rows of exactly the live keys within the bounds, in ascending key order. |
| FlatMap.RangeByContent | src/core/btree.cpp:171-190 | The rows that `range` returns, said of the contents of the keys: those between the contents of the bounds, in the order of contents. |
| FlatMap.RangeOfIntegers | src/core/btree.cpp:171-190 | For integer bounds: the rows of exactly the live integers from low to high, ascending as integers. |
| FlatMap.ContentsDependOnLivePairs | src/core/btree.cpp:33-190 | Two indexes that stand for the same map answer every search alike, whatever histories built them. |
| FlatMap.GrowRefines | src/core/btree.cpp:16-18 | An index keeps standing for its map when other strings are interned. |
| FlatHistory.HistorySound | src/core/btree.cpp:28-190 | Every history of calls, with duplicates, clearings and interning in between, keeps the index sorted, every leaf within the order, and no more leaves than insertions since the last clear. |
| FlatHistory.InsertHalves | src/core/btree.cpp:73-83 | An insertion lengthens one leaf by one entry, or splits a full leaf into halves of floor and ceiling of (order+1)/2 entries; all other leaves stay. |
| FlatHistory.StepAccounts | src/core/btree.cpp:50-155 | Each call changes the bag of entries by exactly its own pair: insert adds it, a successful erase takes one match out, a failed one nothing, clear everything. |
| FlatHistory.HistoryRefines | src/core/btree.cpp:28-190 | Every history without two equal live keys refines the plain map that it describes. |
| FlatHistory.SearchesAfterHistory | src/core/btree.cpp:137-169 | After any such history from an empty index, `find_equal` and `erase` answer as the map does. |
| FlatHistory.DuplicatesAreMissed | src/core/btree.cpp:33-41 | With five equal keys at order 4, `find_equal` and `range` return three of five rows and `erase` does not find a live pair. |
| TreeShape.GrowRootLinked | src/core/btree.cpp:84-94 | A new root above the old one keeps the tree linked: one depth, matching parents and children, chain in leaf order. |
| TreeShape.SplitInnerLinked | src/core/btree.cpp:100-128 | An inner split keeps the tree linked: all children have the right parent, n keys go with n+1 children, depths and chain are as before. |
| LeafSplit.SplitLeafLinked | src/core/btree.cpp:73-98 | A leaf split keeps the tree linked, with the new leaf threaded into the chain after the old one. |
| TreeView.RewriteLinked | src/core/btree.cpp:43-48 | Rewriting the entries of one leaf keeps the tree linked, and replaces exactly that leaf of the flat index. |
| TreeView.SplitInnerFlat | src/core/btree.cpp:100-128 | An inner split changes nothing in the flat index. |
| TreeView.SplitLeafFlat | src/core/btree.cpp:73-98 | A leaf split on the heap is the split of that leaf in the flat index, separator included. |
| TreeView.DescendStep | src/core/btree.cpp:35-39 | One step of the descent keeps the key bracketed by the separators around the node. |
| TreeView.SplitInnerSizes | src/core/btree.cpp:100-128 | After an inner split both halves have at least floor(order/2) keys and only the parent can be too full. |
| TreeView.HeightBound | src/core/btree.cpp:50-155 | A tree of height h above its leaves has at least 2*(floor(order/2)+1)^(h-1) leaves, so its height is logarithmic. |
| TreeView.FrontierIsChain | src/core/btree.cpp:82-83 | The `next` chain visits exactly the leaves below the root, left to right. |
| TreeView.SeparatorsBound | src/core/btree.cpp:33-41 | Every key below child i of a node lies between the separators on its two sides. |
| BPlusTree.BPlusTreeIndex.constructor | src/core/btree.cpp:16-16 | A new index is empty and valid, with the order raised to 4 if it is less. |
| BPlusTree.BPlusTreeIndex.Clear | src/core/btree.cpp:28-31 | Clearing leaves a valid index without entries. |
| BPlusTree.BPlusTreeIndex.FindLeaf | src/core/btree.cpp:33-41 | The descent through heap nodes ends at the leaf that the separators name. |
| BPlusTree.BPlusTreeIndex.InsertLeaf | src/core/btree.cpp:43-48 | The entry goes before the first key that is not less, in keys and rows alike. |
| BPlusTree.BPlusTreeIndex.InsertSep | src/core/btree.cpp:62-69 | Separator and right node go right after the left node in its parent. |
| BPlusTree.BPlusTreeIndex.DivideLeaf | src/core/btree.cpp:73-98 | Splitting an overfull leaf, below a parent or a new root, keeps the tree in order except for a parent that may now be too full, and splits that leaf of the flat index. |
| BPlusTree.BPlusTreeIndex.DivideInner | src/core/btree.cpp:100-128 | Splitting an overfull inner node keeps the tree in order except for its parent, and leaves the flat index alone. |
| BPlusTree.BPlusTreeIndex.Cascade | src/core/btree.cpp:71-129 | The cascade of splits climbs the parent pointers, ends, and leaves a valid tree. |
| BPlusTree.BPlusTreeIndex.Insert | src/core/btree.cpp:50-135 | Insertion on the heap keeps every structural invariant and is the insertion of the flat index. |
| BPlusTree.BPlusTreeIndex.EraseLeaf | src/core/btree.cpp:137-146 | The first match of the leaf is taken out of keys and rows, or nothing changes. |
| BPlusTree.BPlusTreeIndex.Erase | src/core/btree.cpp:148-155 | Erasing along the chain keeps every structural invariant and is the erasure of the flat index, result included. |
| BPlusTree.BPlusTreeIndex.FindEqual | src/core/btree.cpp:157-169 | The scan along the chain, stopping at the first greater key, returns what the search of the flat index returns. |
| BPlusTree.BPlusTreeIndex.Range | src/core/btree.cpp:171-190 | The same for `range`. |
| IndexHistory.Perform | src/core/btree.cpp:28-190 | Any one call on the heap object keeps it valid and has the effect of the flat step. |
| IndexHistory.PerformAll | src/core/btree.cpp:28-190 | Every history of calls keeps the tree valid, makes the described flat index out of it, and leaves its height logarithmic in the insertions since the last clear. |
| IndexHistory.NewIndex | src/core/btree.cpp:16-16 | A new object starts such histories. |
| TableSpec.ColumnIndex | src/core/table.cpp:21-26 | The first column with the name, or -1 when no column has it. |
| TableSpec.ValidRowConforms | src/core/table.cpp:28-53 | Accepted are exactly the rows of full width with NULL only in columns neither NOT NULL nor indexed, integers only in INT and strings only in STRING columns; a cell that does not conform is blamed as NULL or as of the wrong type. |
| TableSpec.AgreeUnique | src/core/table.cpp:72-116 | Where rows and indexes agree, no two rows share a value in an indexed column. |
| TableSpec.AgreeInsert | src/core/table.cpp:64-70 | Storing a row whose indexed values no index lists keeps rows and indexes in agreement. |
| TableSpec.AgreeDelete | src/core/table.cpp:55-62 | Taking a row and its indexed values out keeps rows and indexes in agreement. |
| TableSpec.ClashesIff | src/core/table.cpp:99-111 | Some other row shares an indexed value if and only if an index lists it for another id; so looking into the indexes decides uniqueness. |
| Tables.Table.constructor | src/core/table.cpp:11-19 | A new table is valid and empty, with one tree for each indexed column. |
| Tables.Table.ColumnNumber | src/core/table.cpp:21-26 | The loop finds the first column with the name, or -1. |
| Tables.Table.ValidateRow | src/core/table.cpp:28-53 | It reports a fault exactly for rows of wrong width or with a cell that does not conform (a NULL in a NOT NULL or indexed column, a value of the wrong type), and blames the first such cell for what it is. |
| Tables.Table.IndexInsertRow | src/core/table.cpp:64-70 | Each index gains the value of its own column and nothing else. |
| Tables.Table.IndexRemoveRow | src/core/table.cpp:55-62 | Each index loses the value of its own column and nothing else. |
| Tables.Table.InsertRow | src/core/table.cpp:72-89 | It succeeds exactly for rows that conform to the columns and repeat no indexed value: a NULL in a NOT NULL column, or a value of the wrong type, gives id 0; the row is stored under a fresh nonzero id, else rows, ids and indexes are unchanged; rows and indexes agree afterwards. |
| Tables.Table.UpdateRow | src/core/table.cpp:91-116 | It succeeds exactly if the row is stored, its new version conforms to the columns and repeats no indexed value of another row; else nothing changes; rows and indexes agree afterwards. |
| Tables.Table.DeleteRow | src/core/table.cpp:118-127 | It removes exactly the row, if stored, from rows and indexes. |
| Tables.Table.AllRowIds | src/core/table.cpp:139-145 | Every stored id once, in whatever order. |
| Tables.Table.PoolGrew | src/core/table.cpp:7-19 | A valid table stays valid, with all its trees, when others intern strings into the shared pool. |
| Decimal.NumeralRoundTrip | src/core/journal.cpp:34-34 | A number written in decimal is read back. |
| Decimal.DigitPlace | src/sql/parser.cpp:54-59 | The value of a digit is its place among the ten. |
| Decimal.NumeralPositions | src/sql/parser.cpp:54-59 | Digits are read in base ten: the value of a numeral followed by another is the first times the power of ten, plus the second. |
| LexerSpec.PlaceIs | src/sql/lexer.cpp:20-30 | A line number is one more than the newlines before the place, a column counts from the last of them. |
| LexerSpec.ScanProgress | src/sql/lexer.cpp:57-161 | A scan takes at least one character, except at the end of the text or at a NUL, where it gives the empty end token. |
| LexerSpec.NumberBack | src/sql/lexer.cpp:128-145 | A number before a space scans as that number although the lexer first reads on for a timestamp and goes back. |
| LexerSpec.StampBack | src/sql/lexer.cpp:128-139 | A timestamp scans as one identifier token. |
| LexerSpec.TokenBack | src/sql/lexer.cpp:57-161 | Every printable token, followed by a space or nothing, scans as itself and stops at its end. |
| LexerSpec.LexPrinted | src/sql/lexer.cpp:57-161 | Lexing undoes printing: any list of printable tokens with single spaces between them is read back, kinds and texts. |
| LexerLaws.CharacterClasses | src/sql/lexer.cpp:32-45 | Which characters are blanks, begin and continue words, make up numbers and timestamps, and may stand in strings and comments. |
| LexerLaws.KeywordAnyCase | src/sql/lexer.cpp:146-157 | A keyword in capitals, small letters or any mixture scans as that keyword, in capitals. |
| LexerLaws.NumberOrStamp | src/sql/lexer.cpp:128-145 | Digits with further timestamp characters behind them are one timestamp if a dash and a dot are among these, and otherwise the digits alone are the token. |
| LexerLaws.OpenString | src/sql/lexer.cpp:115-125 | A string that is not closed ends at a NUL or with the text. |
| LexerLaws.NoToken | src/sql/lexer.cpp:159-160 | Any other character gives an end token holding it. |
| LexerLaws.SpelledBack | src/sql/lexer.cpp:57-161 | Every token, in any spelling it may have and followed by anything that does not lengthen it, scans as itself and stops at its end. |
| LexerLaws.LexWritten | src/sql/lexer.cpp:32-161 | Every text made of tokens, keywords in any case, with any blanks and comments before, between and behind them, lexes to these tokens. |
| Lexers.ReadingMovesOn | src/sql/lexer.cpp:57-161 | Every token read from the text moves the position on, unless the text has ended or stands at a NUL. |
| Lexers.Lexer.constructor | src/sql/lexer.cpp:13-13 | A new lexer stands at line 1, column 1. |
| Lexers.Lexer.Get | src/sql/lexer.cpp:20-30 | It takes one character, if there is one, and the line and column stay those of the position: one more than the newlines before it, and than the characters since the last of them. |
| Lexers.Lexer.SkipBlanks | src/sql/lexer.cpp:32-45 | It stops at the first character that belongs to neither blank nor comment. |
| Lexers.Lexer.Putback | src/sql/lexer.cpp:47-50 | The token will be the next one read. |
| Lexers.Lexer.QuotedString | src/sql/lexer.cpp:117-127 | A string runs to the closing quote, to a NUL, or to the end of the text. |
| Lexers.Lexer.NumberOrStamp | src/sql/lexer.cpp:128-145 | Timestamp or digits, with position, line and column restored when the lexer goes back. |
| Lexers.Lexer.Word | src/sql/lexer.cpp:146-157 | Keywords, in whatever mixture of capitals and small letters, become keyword tokens in capitals; other words stay as they are. |
| Lexers.Lexer.SymbolToken | src/sql/lexer.cpp:66-116 | Two-character operators win over their first characters; an unknown character becomes an end token holding it. |
| Lexers.Lexer.Next | src/sql/lexer.cpp:57-161 | The token put back, or the token of the text at or after the position, placed at its first character; line and column stay those of the position. |
| Lexers.Tokens | src/sql/lexer.cpp:57-161 | Reading to the end gives the tokens that the specification lists, and of a text that writes tokens, in any case and with any blanks and comments, these. |
| WhereSyntax.FlattenIsPostOrder | src/sql/parser.cpp:132-230 | The array of a clause is a tree in post-order: children before parents, one parent for each node but the last. |
| WhereSyntax.FlattenLocal | src/sql/parser.cpp:178-222 | Every child index lies inside the array and no node names a child twice. |
| WhereParser.OrBack | src/sql/parser.cpp:132-230 | Parsing undoes printing: the tokens of any clause, followed by anything but AND or OR, give back that very tree and end at the right token, BETWEEN with its own AND included. |
| WhereParser.OrSpelled | src/sql/parser.cpp:132-230 | Whatever is accepted is a clause of the grammar, the tokens consumed spell it, and what follows does not continue it. |
| WhereParser.Parser.ParseLiteral | src/sql/parser.cpp:47-67 | NULL, an integer within 64 bits, or a string; anything else is an error. |
| WhereParser.Parser.ParseCmpOp | src/sql/parser.cpp:104-130 | The six comparison operators, or an error. |
| WhereParser.Parser.ParsePredicate | src/sql/parser.cpp:132-176 | One node for the predicate read, pushed at the end, or an error. |
| WhereParser.Parser.ParseBoolPrimary | src/sql/parser.cpp:178-190 | Pushes exactly the array of the primary that the grammar reads, and returns its root. |
| WhereParser.Parser.ParseBoolAnd | src/sql/parser.cpp:192-206 | The same for chains of AND, to the left. |
| WhereParser.Parser.ParseBoolOr | src/sql/parser.cpp:208-222 | The same for chains of OR, to the left. |
| WhereParser.Parser.ParseWhere | src/sql/parser.cpp:224-230 | Without WHERE nothing is consumed and the root is -1; with it the nodes are the array of the clause that the grammar reads, the root the last of them. |
| WhereText.PrintWellFormed | src/sql/lexer.cpp:57-161 | The tokens of a clause with proper names and strings are printable. |
| WhereText.ReadClause | src/sql/parser.cpp:224-230 | From text to nodes: lexing and parsing the printed text of any clause, or any other text that writes its tokens, gives exactly its array. |
| TextMeanings.PredicatesTyped | src/sql/parser.cpp:132-176 | The characters of each kind of predicate: `=`, `!=`, `<`, `>`, `<=`, `>=` with a literal or a column, BETWEEN with AND, LIKE with a quoted pattern. |
| TextMeanings.OperatorsTyped | src/sql/parser.cpp:178-222 | AND, OR and parentheses are typed around their operands. |
| TextMeanings.NumbersTyped | src/sql/where_eval.cpp:23-94 | From the characters to the rows: `WHERE c > n`, `WHERE c < n` and `WHERE c BETWEEN n AND m` are read as such, and select the rows whose number in column c is greater, smaller (or NULL), or between. |
| TextMeanings.GroupsTyped | src/sql/parser.cpp:178-230 | AND binds tighter than OR: predicates and parenthesised clauses typed in groups, joined by AND and separated by OR, select, of the rows on which every one can be decided, exactly those that satisfy all of some group. |
| TextMeanings.OperatorsSelect | src/sql/where_eval.cpp:59-66 | A conjunction selects the rows that both operands select; without errors a disjunction selects those that either does. |
| WhereEval.EvalTreeIsMeaning | src/sql/where_eval.cpp:49-113 | Evaluation yields the meaning of the clause if and only if no predicate raises an error; otherwise false and the leftmost error. |
| Denotations.PredMeans | src/sql/where_eval.cpp:23-113 | A predicate evaluates to true exactly if the contents of the row (numbers, texts, NULL) satisfy it, and raises an error exactly if a column is unknown, LIKE meets no text, or the pattern is none. |
| Denotations.NumberTests | src/sql/where_eval.cpp:23-94 | A cell m against a number n: =, !=, <, >, <=, >= and BETWEEN hold exactly when they hold of m and n as integers. |
| Denotations.ColumnTests | src/sql/where_eval.cpp:68-85 | The same for the integers in two columns. |
| Denotations.TextTests | src/sql/where_eval.cpp:23-109 | A text against a text: equality is equality of texts, < and > are lexicographic order, LIKE is true exactly if the pattern matches the text. |
| Denotations.ExprMeans | src/sql/where_eval.cpp:49-113 | Evaluating a clause on a row of ids gives what AND, OR and the predicates say of the contents, if every predicate can be decided; otherwise false and the error of the leftmost that cannot. |
| WhereEval.ErrorSticks | src/sql/where_eval.cpp:59-66 | After an error on an earlier row the error stays, AND and OR yield false, and a lone predicate is still decided by itself. |
| WhereEval.EvalFlatIsTree | src/sql/where_eval.cpp:49-66 | Evaluating the array by index is evaluating the expression, so the "bad node" error is unreachable. |
| WhereEval.ClauseIsTree | src/sql/where_eval.cpp:43-66 | In particular for the whole array of a parsed clause from its root. |
| WhereEval.LitCmpIsCmp | src/sql/where_eval.cpp:9-38 | Comparing with an interned literal is comparing with its text, and is 0 exactly for the equal value. |
| WhereEval.EvalTreeStable | src/sql/where_eval.cpp:49-113 | Interning more strings changes no evaluation. |
| Query.ClauseEvalIsMeaning | src/sql/where_eval.cpp:43-47 | A statement without a clause selects every row; one with a clause the rows it means. |
| Query.ExtractFlatIsExtract | src/exec/executor.cpp:176-195 | The search for an indexed equality in the array ends and finds what it finds on the expression. |
| Query.ExtractIsFirst | src/exec/executor.cpp:176-195 | It is the first of the conditions joined by AND that compares a column, indexed and first of its name, with a literal for equality; one is found if there is one, and none below OR. |
| Query.ExtractSound | src/exec/executor.cpp:176-195 | Every row on which the clause evaluates to true satisfies the extracted equality, through nested AND and parentheses. |
| Selection.SelectedIsMeaning | src/sql/where_eval.cpp:43-66 | For one predicate, or without errors, the rows selected alone are those that the clause means. |
| Denotations.SelectedIsMeant | src/sql/where_eval.cpp:43-113 | The rows selected alone are those whose contents satisfy the clause. |
| Denotations.NumbersSelected | src/sql/where_eval.cpp:23-94 | Of a column of integers `> a` selects the greater ones, `< a` the smaller ones and NULL, BETWEEN those between. |
| Selection.ErrorNeverHelps | src/sql/where_eval.cpp:59-66 | An error left by an earlier row never makes a clause true, and changes nothing for one predicate. |
| Selection.FilterWithin | src/exec/executor.cpp:336-341 | Whatever errors rows raise, filtering lists only rows that are selected alone, each once. |
| Selection.FilterExactIff | src/exec/executor.cpp:336-341 | Looking at rows in some order lists exactly those of them that are selected alone if and only if the clause is absent or one predicate, or among the rows looked at none that raises an error comes before one that is selected alone. |
| Selection.PicksSelected | src/exec/executor.cpp:197-209 | A statement picks only rows selected alone, and all of them if the index answers or the clause is steady. |
| Selection.IndexChangesNoAnswer | src/exec/executor.cpp:197-209 | For a steady clause filtering the proposed rows selects the same rows, and as many, as filtering all rows. |
| StickyErrors.ErrorHidesRow | src/sql/where_eval.cpp:59-66 | An indexed equality AND a LIKE, on a table with a NULL in the other column: the index answers and SELECT always lists the one row, while a scan that comes across the NULL first finds none, so COUNT depends on the order of the scan. |
| StickyErrors.HidingOrder | src/sql/where_eval.cpp:59-66 | For every clause that is not steady some order of all rows selects nothing although rows are selected alone. |
| StickyErrors.EveryOrderSelectsIff | src/exec/executor.cpp:336-341 | All visiting orders of all rows select exactly the rows selected alone if and only if the clause is absent or one predicate, or no row raises an error, or no row is selected alone. |
| StickyErrors.ProposalsSelectIff | src/exec/executor.cpp:377-385 | Filtering what `candidate_rows` proposes gives exactly the rows selected alone, whatever is proposed, if and only if the index finds the value of the extracted equality or the clause is steady. |
| Execution.LitToVal | src/sql/where_eval.cpp:9-13 | The value of a literal, its string interned. |
| Execution.EvalTest | src/sql/where_eval.cpp:68-109 | Testing a predicate on a cell is true exactly if the contents of the row satisfy it, and leaves an error exactly if they cannot decide it. |
| Execution.EvalRow | src/sql/where_eval.cpp:43-47 | On a stored row and without an earlier error the clause evaluates to true exactly if the contents of the row satisfy it. |
| Execution.EvalNode | src/sql/where_eval.cpp:49-113 | The recursion over the array, interning as it goes, gives what the specification gives on the pool as it was. |
| Execution.ExtractIndexEq | src/exec/executor.cpp:176-195 | The first indexed equality of the array, its literal as a value. |
| Execution.IndexAnswers | src/exec/executor.cpp:197-209 | The index lists the key exactly if some stored row has the value of the extracted equality, and then names the one row that has. |
| Execution.CandidateRows | src/exec/executor.cpp:197-209 | Proposed is the one row whose contents satisfy the first indexed equality that the clause implies, or every stored row once if there is no such row; in either case every row that the clause selects is among them. |
| Execution.FilterIds | src/exec/executor.cpp:321-327 | The loop over proposed rows is the specified filtering, errors passed on. |
| Execution.SelectIds | src/exec/executor.cpp:377-387 | SELECT lists some of the rows whose contents satisfy the clause, each once; all of them if the index answers or the clause is steady. |
| Execution.CountRows | src/exec/executor.cpp:333-352 | COUNT is what filtering some listing of all rows gives, never more than the number of rows whose contents satisfy the clause, and for a steady clause exactly that. |
| UpdateSpec.AssignCell | src/exec/executor.cpp:301-305 | A cell not in SET keeps its value; one that is gets the same value in every row. |
| UpdateSpec.AssignLast | src/exec/executor.cpp:301-305 | Of several assignments to one cell the last stays. |
| UpdateSpec.SecondClashes | src/exec/executor.cpp:296-307 | With an indexed column in SET, a second matched row always clashes with the first. |
| UpdateSpec.UpdateOkStep | src/exec/executor.cpp:296-307 | One turn of the loop and the verdict on the rest agree with the verdict on the whole. |
| UpdateSpec.UpdateLoopIsOverwrite | src/exec/executor.cpp:296-307 | Whatever order rows are visited in, the loop succeeds exactly when the bulk overwriting is admissible (with an indexed column in SET: at most one matched row), and has then done exactly that. |
| PartialUpdates.StopPoint | src/exec/executor.cpp:296-307 | A loop that fails stops at a row that the table as it is by then does not admit, and not at the first if that is admitted alone. |
| PartialUpdates.LoopInterrupted | src/exec/executor.cpp:296-307 | What such a loop leaves is the table with the rows before that one, fewer than all matched, overwritten. |
| PartialUpdates.FailedUpdateAtomicIff | src/exec/executor.cpp:296-307 | A failing UPDATE leaves the table unchanged in every visiting order if and only if each matched row on its own could not be overwritten or already has the values. |
| PartialUpdates.UpdateKeepsPart | src/exec/executor.cpp:306-307 | SET of an indexed column on two rows fails and keeps the first row overwritten. |
| Mutation.DeleteRows | src/exec/executor.cpp:311-325 | DELETE succeeds and leaves exactly the rows that it did not pick, in rows and indexes; it picks rows whose contents satisfy the clause, and if the index answers or the clause is steady all of these. |
| Mutation.AssignRow | src/exec/executor.cpp:301-305 | The new version of a row is the old one with the cells of SET assigned in order; an unknown column stops it. |
| Mutation.AssignedMeans | src/exec/executor.cpp:301-305 | The new version has in each column the value of the last literal that SET gives for it, and otherwise what was there. |
| Mutation.UpdateMeans | src/exec/executor.cpp:296-307 | The bulk overwriting, said of literals: every matched row is replaced by that new version of it and no other row changes. |
| Mutation.UpdateOne | src/exec/executor.cpp:296-307 | One row is overwritten, or the table is unchanged, and exactly when. |
| Mutation.UpdateTurn | src/exec/executor.cpp:296-307 | A turn of the loop keeps the rows overwritten so far and those still to select together equal to all picked rows, although the table changes under the clause; a turn that fails leaves what was overwritten so far. |
| Mutation.UpdateRows | src/exec/executor.cpp:290-309 | UPDATE succeeds exactly when the bulk overwriting of the rows picked is admissible, and then each of them has become the version that SET describes, also when SET changes cells that the clause reads; when it fails exactly the rows before the one that stopped it are overwritten, none for an unknown column; the rows picked satisfy the clause, and if the index answers or the clause is steady they are all that do. |
| Insertion.BuildRow | src/exec/executor.cpp:272-286 | The row of a tuple: in each column the last literal given for it, the default where that is NULL or missing, and NULL where there is no default; fails exactly on a wrong count or an unknown column. |
| Insertion.RowOfMeans | src/exec/executor.cpp:272-285 | Column by column: the value of the last literal given for the column unless that is NULL; otherwise the default of the column if it has one; otherwise NULL. |
| Insertion.AddRowsAre | src/exec/executor.cpp:271-287 | The rows added stand under the next ids in order, the others where they were. |
| Insertion.DefaultFillsIn | src/exec/executor.cpp:281-285 | With a default of 0 for price, a tuple that gives id and title alone gets price 0. |
| Insertion.InsertTuple | src/exec/executor.cpp:271-287 | One turn of the loop stores the row of the next tuple under the next id, or says why it may not. |
| Insertion.InsertRows | src/exec/executor.cpp:266-289 | INSERT stores the rows of a prefix of the tuples, defaults filled in, under consecutive ids; it succeeds exactly if that is all of them, else the next tuple is malformed or its row inadmissible; when it fails the table is unchanged if and only if the first tuple is refused by the table as it was. |
| Insertion.RefusedStable | src/exec/executor.cpp:272-286 | Whether a tuple is refused does not depend on the strings interned for it, so it can be asked before the statement. |
| Insertion.FailedInsertIff | src/exec/executor.cpp:286-287 | What a failed INSERT leaves is the table as it was, ids included, if and only if its first tuple is refused. |
| Insertion.InsertKeepsPart | src/exec/executor.cpp:286-287 | Two tuples with the same indexed value fail and keep the first row. |
| Statements.EffectStable | src/exec/executor.cpp:236-325 | Executed again with a larger pool, a statement has the same effect: same rows, same values, same ids. |
| Statements.DefiniteStable | src/sql/where_eval.cpp:49-113 | Whether the index answers a clause or the clause is steady does not depend on strings interned later. |
| Statements.PicksStable | src/sql/where_eval.cpp:49-113 | Nor does what can be picked. |
| Outcomes.InsertVerdictIsEffect | src/exec/executor.cpp:266-289 | The verdict of the insertion loop is the effect of the whole statement. |
| Outcomes.UpdateVerdictIsEffect | src/exec/executor.cpp:290-309 | The verdict of the update loop is the effect of the whole statement. |
| Outcomes.OutcomeIsEffect | src/exec/executor.cpp:236-325 | However a statement ends, if its clause is answered by an index or steady it succeeded exactly when it has an effect, and had that effect. |
| StatementMeanings.ColumnsAreDeclared | src/exec/executor.cpp:244-252 | The columns of a new table have the names, types, NOT NULL and INDEXED marks declared, and as default the value of the literal declared. |
| StatementMeanings.OutcomeIsDone | src/exec/executor.cpp:236-325 | What has become of the database when a statement succeeded: a new empty table with the columns declared; one table fewer; rows of the tuples, defaults filled in, under new ids; rows whose contents satisfy the clause replaced by their new versions, or gone; nothing else changed. |
| Databases.Database.AddTable | src/core/database.cpp:5-13 | A new name gets an empty table, a name in use is refused, and no other table changes. |
| Databases.Database.RemoveTable | src/core/database.cpp:15-22 | Exactly the named table goes, or nothing. |
| Databases.Database.DeclareColumns | src/exec/executor.cpp:246-251 | The columns have the names, types, NOT NULL and INDEXED marks declared, and as default the value of the literal declared, its string interned. |
| Databases.Database.TableChanged | src/core/table.cpp:7-19 | A change to one table and the pool leaves every other table valid and as it was. |
| Databases.Database.Execute | src/exec/executor.cpp:236-325 | Every statement keeps all tables valid and ends in one of the ways it can, failures half-way and clause errors included; one that succeeded has done what it says to declarations, cells and rows; if the index answers its clause or the clause is steady it succeeds exactly when it has an effect, and then the database is what the effect says. |
| Journals.SanitizeLine | src/core/journal.cpp:23-28 | Newlines, carriage returns and bars become blanks in place, other characters stay. |
| Journals.Journal.Append | src/core/journal.cpp:30-35 | The text grows by time, bar, database, bar, statement and newline, database and statement cleaned. |
| Journals.Journal.Read | src/core/journal.cpp:45-68 | The loop gives the records that the specification reads line by line, passing over lines without two bars or without a 64-bit number. |
| Journals.NumeralIsRead | src/core/journal.cpp:58-62 | A 64-bit number written in decimal is read back as itself. |
| Journals.RecordsSplit | src/core/journal.cpp:45-68 | Reading a finished text followed by another is reading both. |
| Journals.UnsignedIs | src/core/journal.cpp:58-62 | A number is blanks, perhaps a sign, and digits, and what follows is not looked at; none without digits or from 2^64 on; behind a minus sign it is the complement to 2^64. |
| Journals.LineParts | src/core/journal.cpp:52-65 | Time, database and statement are what stands before, between and behind the first two bars; with fewer bars, or no number, the line is passed over. |
| Journals.AppendsAreRead | src/core/journal.cpp:30-68 | After any appends to a journal that is empty or ends in a newline, reading gives the old records and then the appended ones, cleaned, in order and none lost. |
| Journals.PlainSurvives | src/core/journal.cpp:23-68 | The originals come back if and only if no field holds a newline, a carriage return or a bar. |
| Journals.AppendIsReadIff | src/core/journal.cpp:48-62 | One append to any file is read after the old records, cleaned, if and only if the unfinished last line is empty, or holds no bar and reads as the time of the record when written in front of it. |
| Journals.AppendsAreReadIff | src/core/journal.cpp:48-62 | For any number of appends all is read in order and none lost if and only if that holds of the first record. |
| Journals.RecordLost | src/core/journal.cpp:58-62 | Behind a line without bars that spoils the number, the record is lost. |
| Journals.TornLineSwallows | src/core/journal.cpp:48-62 | Behind the unfinished line "x" a record is lost. |
| Journals.ZeroLineTakes | src/core/journal.cpp:48-62 | Behind the unfinished line "0" the same record is read properly. |
| Replay.TimedSortsToItself | src/exec/executor.cpp:431-432 | Records with strictly increasing times have only one ordered permutation, so the unstable sort leaves them alone. |
| Replay.ChosenAre | src/exec/executor.cpp:439-441 | Replayed are exactly the records of the database up to the time, in their order. |
| Replay.ChosenAt | src/exec/executor.cpp:439-441 | The next record replayed is the next one that was executed. |
| Replay.RunLive | src/exec/executor.cpp:147-157 | Statements executed one by one: the trace says what each did, and the journal gains exactly those that succeeded. |
| Replay.ReplaySteps | src/exec/executor.cpp:439-446 | Executed again, the next statement of a flawless run succeeds and leads to the state it led to before. |
| LiveReplay.PruneIsFlawless | src/exec/executor.cpp:147-157 | A run whose failed statements changed nothing goes, without them, through the same states. |
| LiveReplay.ChosenSucceeded | src/exec/executor.cpp:439-441 | The journaled records up to a time are the successful ones among all statements up to it. |
| LiveReplay.JournalHoldsRun | src/exec/executor.cpp:147-157 | The journal of such a run, of statements that cleaning leaves alone, holds exactly the run without its failed statements. |
| LiveReplay.StateAtTime | src/exec/executor.cpp:421-449 | The state of that shorter run after the records up to a time is the state of the whole run then. |
| Replay.Revert | src/exec/executor.cpp:421-449 | From a journal holding a flawless run (every statement succeeded, every clause answered by an index or steady), dropping all tables and executing again the records up to a time gives the tables, rows and row ids that the live run had after its last statement up to that time, that is, after its first m if these are the ones up to it; without the hinted table nothing changes. |
| LiveReplay.LiveThenRevert | src/exec/executor.cpp:421-449 | From end to end: run live, with statements that fail, journal, revert to a time: if each statement that failed changed nothing and the clauses of the others were answered by an index or steady, the database is what it was after the first m statements, those up to that time. |
| LiveReplay.HalfInsertEnds | src/exec/executor.cpp:286-287 | An INSERT of two equal indexed values always ends failed, with the first row kept, and in no other way. |
| LiveReplay.HalfInsertLost | src/exec/executor.cpp:147-157 | After CREATE TABLE and that INSERT the live table holds the row, while the journal holds CREATE TABLE alone, so that what REVERT executes again ends in an empty table. |
| Base64Url.Alphabets | src/auth/jwt.cpp:14-32 | The characters of the two alphabets are capitals, small letters, digits, and plus and slash, or dash and underscore. |
| Base64Url.ValueIsPlace | src/auth/jwt.cpp:38-50 | A character has the value s exactly if it is number s of the standard alphabet. |
| Base64Url.CodeIsBits | src/auth/jwt.cpp:18-26 | Read as a number in base 64 the code is the bytes read as a number in base 256, followed by the zero bits that complete the last character. |
| Base64Url.CodeLength | src/auth/jwt.cpp:13-33 | n bytes take the least number of characters that holds 8n bits, without padding. |
| Base64Url.EmittedIsCode | src/auth/jwt.cpp:18-26 | What the encoder writes byte by byte, and the completed last character, is the code by groups of three bytes of section 5 of RFC 4648. |
| Base64Url.PushByteBits | src/auth/jwt.cpp:19-25 | The wrapped 32-bit accumulator still holds the last byte and the four bits before it, and adding the byte never overflows. |
| Base64Url.PushSextetBits | src/auth/jwt.cpp:51-57 | The same for decoding. |
| Base64Url.TakenIsEmit | src/auth/jwt.cpp:19-26 | The characters taken from the accumulator are those the code asks for. |
| Base64Url.Encode | src/auth/jwt.cpp:13-33 | Encoding gives the unpadded code in the URL-safe alphabet, for every byte string. |
| Base64Url.Finish | src/auth/jwt.cpp:27-32 | Padding, rewriting the alphabet and stripping the padding give exactly the URL-safe text. |
| Base64Url.PadText | src/auth/jwt.cpp:27-27 | Padding adds the fewest characters that make the length a multiple of four. |
| Base64Url.TakenIsComplete | src/auth/jwt.cpp:51-57 | The byte taken from the accumulator is the one that the sextets complete. |
| Base64Url.Decode | src/auth/jwt.cpp:35-61 | Decoding gives the bytes completed by the longest prefix in the alphabet. |
| Base64Url.CodeRoundTrip | src/auth/jwt.cpp:13-61 | Decoding the code of any bytes gives the bytes. |
| Base64Url.RoundTrip | src/auth/jwt.cpp:13-61 | Decoding what was encoded gives the original, for every byte string. |

## Left out

- StringPools.StringPool.Intern: ids are slot numbers without bound here; the 32-bit truncation is the subject of `StringPools.TruncatedIdResolves` alone, and all else holds while the pool has fewer than 2^32 strings.
- Databases.Database.Execute: for a clause that no index answers and that is not steady the rows picked depend on the order of a hash table; the outcome is then one that some order allows, not a single one.
- LiveReplay.LiveThenRevert: of runs in which a failed statement kept a part, or the rows picked depended on the order of a hash table, nothing is said after the replay; the first kind is lost on REVERT in `LiveReplay.HalfInsertLost`.
- Insertion.InsertRows: the text of error messages is left out; faults are values.
- Replay.Revert: the statement parser is a parameter, applied to the text as journaled; trimming and the closing semicolon are part of that parameter. CREATE DATABASE and DROP DATABASE records, which the source journals and cannot replay, are no statements of the model, and qualified table names are left out.
- Base64Url.Encode: shifts of negative numbers, which C++17 leaves open, are taken as wrapping and arithmetic, as compilers implement them.
- Replay.RunLive: statements that change nothing are not journaled by the source and are no statements of the model; permission checks come before execution and are left out.
- Integer literals and cells: unbounded integers stand for 64-bit ones; literals beyond 64 bits are an error of the parser model, where the source throws out of its own error type.
- Row ids: the wrap-around at 2^64 is not modelled.
- LIKE: matching a regular expression is a parameter with three outcomes (match, no match, invalid pattern).
- SUM and AVG, projections, aliases and JSON: results are sets of row ids; floating-point formatting belongs to the library.
- `parse_ts_string`: times are numbers.
- Statement parsing beyond WHERE, the catalog of databases, permissions, the job queue, telemetry and persistence: plain maps and plumbing.
- `Table::rebuild_indexes`: nothing in the repository calls it.
- Sockets, threads and the pool's lock: the engine is modelled sequentially.
- Token signing, password hashing and random numbers: calls into a library.
- File access: a journal is its text; a file that cannot be opened is not modelled.
- Memory management of nodes: a cleared tree is dropped, not freed.
