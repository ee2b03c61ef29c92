# keelsql in Dafny

keelsql is a small SQL engine over an ordered key/value store. This project models its relational
core and proves what the repository relies on:

- **Encoding.** Values, rows and keys as bytes: invertible, prefix-free, ordered like the values, and laid
  out as documented (`Bytes`, `Values`, `KeyCodec`, `Keys`, `RowCodec`, `Layout`, `Ranges`).
- **Storage and transactions.** The write buffer and the merging iterator over a snapshot; commits that
  reach the store one key at a time; every interleaving of transactions (`Storage`, `Transactions`,
  `Interleavings`).
- **Rows and indexes.** Row writes with their index entries, UPDATE and DELETE running under their own
  scan, INSERT, and the session around them (`Schema`, `Dml`, `Mutators`, `Access`, `Statements`,
  `Sessions`, `RowPlans`); the catalog, the schema statements and serial runs of both kinds of
  statement (`Catalog`, `Ddl`, `SchemaRuns`). A `Connection` (`Connections`) dispatches statements and
  keeps, as ghost state, the serial run it has been through: each of its methods is proved to extend
  that run by one statement, so what holds over every run holds of whatever is called.
- **Meaning.** What comparison, sorting and arithmetic do in terms of numbers and first differences
  (`Semantics`), what satisfies and what refutes a condition in two-valued terms (`Conditions`) and what
  raises an error (`Faults`, `Subterms`); the evaluator (`Ast`, `Eval`) and LIKE (`LikeMatch`) are proved
  against that.
- **Queries.** Search arguments and path choice, the operators with the bounded heap, and the theorem
  that the plan built for a SELECT delivers exactly what the naive plan delivers (`Sorting`, `Streams`,
  `Operators`, `Planner`, `Rewriting`, `Masks`, `Select`, `Equivalence`); what each operator delivers row
  by row (`Delivery`) and what a whole statement is about (`Answers`); hash aggregation (`Aggregates`)
  and its result columns, function by function (`AggregateColumns`).
- **Text.** The precedence-climbing parser against the minimal-parenthesis printer (`Grammar`,
  `Parser`, `Roundtrip`), and the tree it makes of operators, signs, NOT and the postfix predicates
  (`Precedences`).

Code that changes fields in place is a class with methods proved against a specification; the
properties are lemmas about the specifications. A FLOAT is its 64-bit pattern, compared as IEEE
754-2019 compares; an INT wraps at 64 bits; identifiers and TEXT are byte strings. What the Go runtime
supplies (float arithmetic, the conversion of an INT to a FLOAT, UTF-8 decoding) is a `Host` record
about which nothing is assumed but that the conversion yields no NaN and no -0.0.

## Where the code does not do what its documentation says

Each of these is modelled as the code has it, with a counterexample at a concrete input and the exact
condition under which the documented behaviour holds.

- An index range without a lower bound starts at NULL, and the predicate it replaced is gone:
  `WHERE k < 5` can return rows whose k is NULL (`NullStrays`; exactly when: `AccessPathExact`,
  `StatementTargets`).
- -0.0 and 0.0 are equal to SQL and different keys to the encoding (`ZerosDisagree`,
  `EncodeOrderExact`). A scan for `f >= 0.0` misses -0.0 (`NegativeZeroMissed`; exactly when:
  `LowerBoundExact`, `UpperBoundExact`, `KeyBytesSelects`). An UPDATE that moves a primary key from
  one zero to the other leaves the old row behind and overwrites a row already there
  (`ZeroKeyMoves`; exactly when: `UpdateKeepsInStep`, `RunUpdate`).
- keycodec/value.go:46 says that a NaN encodes above +Inf. One with its sign bit set encodes below
  everything (`NaNDisagrees`), so that an ORDER BY left to the scan puts it first instead of last
  (`NaNOutOfOrder`; exactly when: `SortProvided`) and a half-open scan misses or adds it
  (`LowerBoundExact`, `UpperBoundExact`).
- LIKE takes a `%` in the text as the character the pattern's `%` stands for (`PercentMissed`; exactly
  when: `LikeExact`).
- `a LIKE (b = c)` prints without its parentheses (`PatternMoves`; exactly when: `RoundTripExact`).
- Two transactions that overlap on a row can leave an index entry without a row
  (`SecondWriterStrays`; exactly when: `OverlappingUpdates`, `CommitConsistentExactly`), although
  exec/operators.go:164-166 calls that impossible.
- Identifier counters wrap at 2^32 (`CounterRunsOver`, `IndexCounterRunsOver`; exactly when:
  `CreateKeepsInv`, `CreateIndexKeepsInv`).

## Model

| member | source | states |
|---|---|---|
| Bytes.CmpTransitive | storage/storage.go:206-221 | byte order is transitive, and strictly so when one step is strict |
| Bytes.CmpDiverge | keycodec/keys.go:116-131 | strings that differ at a common position compare the same whatever is appended |
| Bytes.BEOrder | keycodec/value.go:101-113 | big-endian encodings compare as the numbers do |
| Bytes.CmpIsLex | types/value.go:214-215 | byte order says which string is a proper prefix of the other or has the smaller byte where they first differ |
| Values.OrderTransitive | types/value.go:230-251 | the sort order is transitive on all values, NaNs included |
| Values.OrderRange | types/value.go:230-251 | the sort order is antisymmetric and total |
| Values.PlainEqual | types/value.go:253-290 | without NaN and -0.0, values that sort as equal are identical |
| Values.Coerce | types/value.go:292-301 | a coerced value is NULL or of the wanted kind, and stays free of NaN and -0.0 |
| Values.CoerceMeans | types/value.go:292-301 | NULL and a value of the kind stay as they are, an INT becomes its FLOAT, and everything else is refused |
| Semantics.PlaceIsNumber | types/value.go:266-290 | finite bit patterns lie in the order of the numbers they stand for, the zeros together |
| Semantics.CompareMeans | types/value.go:201-219 | compares INT with FLOAT, and each of INT, FLOAT, TEXT and BOOL with its own kind, by number, first differing byte or truth; nothing else compares |
| Semantics.CompareOpMeans | types/ops.go:157-182 | a comparison of two values that are there is TRUE or FALSE as the order says, and UNKNOWN with a NULL |
| Semantics.OrderMeans | types/value.go:224-251 | ORDER BY puts NULL first, then the kinds in turn, each in its own order |
| Semantics.QuoRem | types/ops.go:38-72 | quotient and remainder with x = y*q + r, the remainder smaller than the divisor in magnitude and of the sign of x |
| Semantics.ArithMeans | types/ops.go:9-113 | NULL in, NULL out; INT results are congruent modulo 2^64 to the exact ones, division truncates, FLOAT results are the host's; exactly when there is a result |
| Semantics.NegMeans | types/ops.go:72-84 | the negative modulo 2^64, or the FLOAT with the other sign |
| KeyCodec.Encode | keycodec/value.go:88-131 | the loop appends the encoding, escapes and terminator included |
| KeyCodec.EncodeAll | keycodec/value.go:133-142 | a tuple's encoding is its fields' encodings in sequence |
| KeyCodec.Decode | keycodec/value.go:144-203 | decodes the first value and returns the rest, or fails, as the specification does |
| KeyCodec.Skip | keycodec/value.go:205-244 | succeeds exactly when decoding does and leaves the same tail |
| KeyCodec.DecodeAll | keycodec/value.go:246-262 | exactly n values and nothing after them |
| KeyCodec.DecodeEncode | keycodec/value.go:144-203 | decoding inverts encoding under any suffix |
| KeyCodec.DecodeAllEncodeAll | keycodec/value.go:246-262 | decoding a tuple inverts encoding it |
| KeyCodec.EncodeOrder | keycodec/value.go:40-86 | encodings compare as the values do, floats in IEEE total order, and none is a prefix of another |
| KeyCodec.EncodeOrderExact | types/value.go:230-290 | bytes compare as the sort order exactly on pairs without differing zeros or NaNs out of place |
| KeyCodec.ZerosDisagree | keycodec/value.go:106-113 | -0.0 and 0.0 sort as equal and encode as less |
| KeyCodec.NaNDisagrees | keycodec/value.go:40-86 | a NaN with a sign bit sorts after every number and encodes before it |
| KeyCodec.EncodeAllPrefixFree | keycodec/value.go:133-142 | no tuple's encoding is a prefix of another of the same length |
| KeyCodec.EncodeAllOrder | keycodec/value.go:133-142 | encoded tuples compare as the tuples sort, field by field, if and only if their first differing fields agree or tie and the rest happens to fall the same way |
| KeyCodec.EncodeInjective | keycodec/value.go:88-131 | equal encodings come from equal values |
| Layout.ValueLayout | keycodec/value.go:40-113 | the tag bytes and payloads: one byte, or eight big-endian bytes of the value plus 2^63, or of the bits with the sign bit or all bits flipped |
| Layout.TextLayout | keycodec/value.go:114-131 | TEXT as it is, 0x00 as 0x00 0xFF, and 0x00 0x01 at the end |
| Layout.KeyLayout | keycodec/keys.go:10-97 | the prefix byte, identifiers in four big-endian bytes, then the encoded values |
| Keys.RowKeyRoundTrip | keycodec/keys.go:61-79 | the primary key comes back out of a row key |
| Keys.IndexKeyRoundTrip | keycodec/keys.go:92-114 | value and primary key come back out of an index key |
| Keys.RowKeyInjective | keycodec/keys.go:61-65 | a row key determines its table and primary key |
| Keys.IndexKeyInjective | keycodec/keys.go:92-97 | an index key determines table, index, value and primary key |
| Keys.KeySpacesDisjoint | keycodec/keys.go:10-30 | no key lies under two of the catalog, row and index prefixes |
| Keys.BelowPrefixEnd | keycodec/keys.go:116-131 | below the prefix's end means before the prefix or under it |
| Keys.ComputePrefixEnd | keycodec/keys.go:116-131 | the backward loop returns the bound that makes [prefix, end) exactly the keys under the prefix |
| RowCodec.DecodeRowMasked | keycodec/row.go:35-67 | decoding the wanted columns and skipping the others equals decoding all and blanking the others |
| RowCodec.DecodeMaskedEncodeRow | keycodec/row.go:18-67 | a stored row read through a mask is the row with unwanted columns NULL |
| RowCodec.EncodeRowInjective | keycodec/row.go:18-33 | rows of one width with one stored form are one row |
| Ranges.IntersectIsConjunction | plan/range.go:75-102 | membership in an intersection is membership in both ranges |
| Ranges.EmptyHoldsNothing | plan/range.go:62-73 | a range found empty contains no value |
| Ranges.NotEmptyHolds | plan/range.go:62-73 | with two inclusive bounds a range is not found empty exactly if it contains both |
| Ranges.KeyBytesExact | plan/range.go:121-150 | a key is scanned exactly when its value lies in the range by byte order, for every suffix and every kind of bound |
| Ranges.KeyBytesSelects | plan/range.go:121-150 | a scan returns, of all values, exactly those that satisfy the range, if and only if it does so of -0.0, 0.0 and a NaN with a sign bit |
| Ranges.LowerBoundExact | plan/range.go:121-150 | a half-line upwards is scanned as asked exactly unless it is `>= 0.0` or `> -0.0`, and misses a NaN with a sign bit exactly if its bound is a FLOAT |
| Ranges.UpperBoundExact | plan/range.go:121-150 | a half-line downwards is scanned as asked exactly unless it is `<= -0.0` or `< 0.0`, and adds such a NaN exactly if its bound is a FLOAT |
| Ranges.KeyBytesStaysInside | plan/range.go:121-150 | no scan of a range leaves the keys under its prefix |
| Ranges.NegativeZeroMissed | plan/range.go:121-150 | -0.0 satisfies `f >= 0.0` and is not scanned |
| Storage.ListingUnique | storage/memory.go:61-84 | a map has one ascending listing |
| Storage.SortEntries | storage/storage.go:181-196 | sorting a map's entries yields that listing |
| Storage.Buffer.Put | storage/storage.go:155-163 | records a write and keeps the cache honest |
| Storage.Buffer.Entries | storage/storage.go:178-196 | returns the sorted listing of the map; a stale cache is replaced and never rewritten |
| Storage.Buffer.RangeEntries | storage/storage.go:203-221 | the slice returned lists exactly the mutations inside the bounds |
| Storage.Search | storage/storage.go:206-221 | binary search for the first entry not before a bound |
| Storage.MergeListsOverlay | storage/storage.go:260-312 | merging base and buffer, tombstones hiding, lists the base overridden by the buffer |
| Storage.OverlayIter.Next | storage/storage.go:281-312 | yields the merged listing one entry at a time |
| Storage.OverlayIter.Step | storage/storage.go:281-312 | one turn of the loop takes the next entry of either side off what remains |
| Storage.Overlay.Get | storage/storage.go:243-254 | agrees key by key with the view a scan shows |
| Storage.Overlay.Scan | storage/storage.go:256-262 | a scan will yield exactly the view's listing inside the bounds |
| Storage.ChurnUnderScan | storage/storage.go:128-221 | puts, deletes, listings and resets after a scan was opened leave its remaining output unchanged |
| Storage.CommitInstallsView | keelsql.go:165-192 | applying the sorted entries one by one turns an unchanged base into exactly the view |
| Schema.KeyOfUnique | keycodec/keys.go:57-97 | a key of a table concerns one primary key only |
| Schema.OwnedByOne | keycodec/keys.go:10-22 | no key belongs to tables with different identifiers |
| Schema.RepresentsFrame | exec/dml.go:22-30 | what a store holds for a table depends on the table's own keys only |
| Schema.RepresentsUnique | exec/dml.go:22-30 | a store holds at most one set of rows for a table |
| Dml.BufferedWritesShow | storage/storage.go:225-262 | buffering writes changes the view as performing them would |
| Dml.InsertKeepsInStep | exec/dml.go:37-54 | the writes of an insert add the row and its entries and nothing else |
| Dml.DeleteKeepsInStep | exec/dml.go:86-93 | the writes of a delete remove the row and its entries and nothing else |
| Dml.UpdateKeepsInStep | exec/dml.go:56-84 | an update's writes leave the old row out, the new one in and indexes in step exactly when equal primary keys are identical; otherwise some rows are in step only if there is no index |
| Mutators.ValidateRow | exec/dml.go:114-137 | coerces and checks column by column, rewriting the row in place; the result, or the first column that is refused and why |
| Mutators.ValidateMeans | exec/dml.go:114-137 | on success each column is what storing its value makes of it, NULL only where allowed; otherwise the error is that of the first column refused, or of the number of values |
| Mutators.ValidateTyped | exec/dml.go:114-137 | a row that passes has every column of its kind or, where allowed, NULL |
| Mutators.ValidateIdentity | exec/dml.go:114-137 | a row that is already typed passes unchanged |
| Mutators.Mutator.Insert | exec/dml.go:37-54 | writes row and entries, or refuses and writes nothing |
| Mutators.Mutator.Update | exec/dml.go:56-84 | moves or rewrites the row with all its entries, or refuses and writes nothing |
| Mutators.Mutator.Delete | exec/dml.go:86-93 | removes the entries and the row |
| Mutators.Mutator.WriteIndexes | exec/dml.go:95-112 | one entry per index, added or removed |
| Mutators.InsertTakesEffect | exec/dml.go:37-54 | a successful insert adds exactly the validated row, under a key that was free |
| Mutators.UpdateTakesEffect | exec/dml.go:56-84 | a successful update exchanges exactly the two rows |
| Mutators.ZeroKeyMoves | exec/dml.go:62-84 | the row -0.0 updated to 0.0: accepted with or without a row 0.0 there, the old row stays, any other is overwritten, and nothing is in step any more |
| Mutators.DeleteTakesEffect | exec/dml.go:86-93 | a delete takes exactly that row out |
| Access.EntryStandsFor | exec/operators.go:149-177 | every scanned key, of the table or an index, stands for a row inside the bounds |
| Access.RowIsScanned | exec/operators.go:114-177 | every row inside the bounds is scanned |
| Access.ScanVisitsOnce | exec/operators.go:114-177 | no row is scanned twice |
| Access.PathKeyOrder | plan/build.go:204-211 | scanned keys compare as the rows do by path column, then primary key |
| Statements.Scan.Next | exec/operators.go:114-177 | each call fetches the row behind the next key of a list frozen at the start |
| Statements.ScanVisits | exec/operators.go:149-177 | a scan visits each row in its bounds exactly once |
| Statements.FetchNext | exec/operators.go:149-177 | under a statement's own writes a row not yet visited is still found as it was, so the missing-row error is unreachable |
| Statements.EvalSets | exec/dml.go:196-205 | on success every column assigned to is its last right-hand side on the row as it was and every other is unchanged; it fails exactly if a right-hand side does, with the error of the first |
| Statements.SetsMean | exec/dml.go:196-205 | the same of the assignments as a function, for every list of them |
| Statements.ImageMeans | exec/dml.go:182-211 | the image of a row, column by column: the last right-hand side assigned to it on the old row, or the old value, as the column stores it |
| Statements.SwapOneMore | exec/dml.go:182-211 | exchanging one more row for its image keeps keys distinct and every other row in place |
| Statements.SwapKeepsCount | exec/dml.go:182-211 | exchanging rows for images changes no count |
| Statements.RunUpdate | exec/dml.go:182-211 | every row matching at the start is replaced once by its image, described column by column from what it was then, rows and indexes in step, if equal old and new keys of these rows are identical, and in a table without two equal keys only if; an error is that of a row that stops it; no key outside the table changes |
| Statements.SafeKeysTold | exec/dml.go:62-84 | equal old and new keys are identical whenever the primary key is no FLOAT or no assignment is to it |
| Statements.RunDelete | exec/dml.go:213-232 | exactly the matching rows and their entries go, and no key outside the table changes |
| Transactions.Tx.constructor | keelsql.go:148-163 | a transaction starts from the store as it is, with nothing buffered |
| Transactions.Tx.Commit | keelsql.go:165-192 | the store becomes itself overridden by the buffer, passing through one state a key; a finished transaction is refused |
| Transactions.Tx.Rollback | keelsql.go:194-204 | the buffer is dropped and the store untouched |
| Transactions.CommitMerges | keelsql.go:165-192 | over a store unchanged on the touched keys a commit merges the rows and keeps indexes in step |
| Transactions.CommitConsistentExactly | keelsql.go:121-139 | a commit leaves the table consistent if and only if the index entries of the rows it touched, other than those it wrote, are as in its snapshot |
| Transactions.OverlappingUpdates | keelsql.go:128-133 | two overlapping updates of a row keep the indexes in step if and only if the first changed no indexed column or agreed with the second about it |
| Transactions.SecondWriterStrays | keelsql.go:128-133 | a row [1, 5] set to 6 by one transaction and to 7 by another: the entry of 6 stays, the row says 7, and nothing is in step |
| Interleavings.StepInv | keelsql.go:148-204 | every step of every transaction keeps the invariant: rows and indexes in step between commits and in each view, one commit at a time, every touched row key buffered; a commit of nothing takes no lock |
| Interleavings.RunInv | keelsql.go:148-204 | the invariant holds at every state of every interleaving |
| Interleavings.StoreInStep | keelsql.go:55-62 | between commits the store is a whole-commit state with every index in step |
| Interleavings.ViewInStep | keelsql.go:121-139 | each transaction's view has every index in step at every moment |
| Interleavings.SnapshotIsWhole | keelsql.go:148-163 | every snapshot is the store after a whole number of commits |
| Interleavings.LiveCommitExact | keelsql.go:121-139 | at any moment of any run a transaction's commit over any consistent store leaves the table consistent if and only if the entries of its rows that it did not write are as in its snapshot |
| Interleavings.CommitIsSteps | keelsql.go:165-192 | the states Tx.Commit passes through are those of the machine from the lock to its release |
| Interleavings.ViewIsStable | keelsql.go:121-133 | corollary of the snapshot being a value: nothing another transaction does changes what one reads |
| Sessions.RunInsert | exec/dml.go:157-180 | one new row per VALUES row under free, distinct keys, holding in each column listed the value given for it and NULL elsewhere, and nothing outside the table; an error is that of the row it stops at |
| Sessions.StoredMeans | exec/dml.go:157-180 | column by column: a listed column stores the value of the VALUES entry that stands at its place, an unlisted one NULL |
| Sessions.WithRowsCount | exec/dml.go:157-180 | new rows only add to the table |
| Sessions.Session.Begin | conn.go:108-115 | opens a transaction on the store as it is, or refuses a second one |
| Sessions.Session.Commit | conn.go:117-126 | publishes the transaction's writes and closes it |
| Sessions.Session.Rollback | conn.go:128-137 | closes the transaction and leaves the database alone |
| Sessions.Session.Update | conn.go:218-249 | on its own an UPDATE takes full effect or none, in a transaction only the view changes, either way only in keys of its table; full effect if equal old and new keys of the rows found are identical, and in a table without two equal keys only if |
| Sessions.Session.Delete | conn.go:218-249 | the same of DELETE |
| Sessions.Session.Insert | conn.go:218-249 | the same of INSERT |
| Catalog.CreateKeepsInv | catalog/catalog.go:243-261 | a new table is empty and every other keeps its rows; catalog, store and identifiers stay sound exactly while the counter has room |
| Catalog.DropKeepsInv | conn.go:301-315 | a dropped table leaves no key behind and every other table the rows it had |
| Catalog.CreateIndexKeepsInv | conn.go:317-332 | a new index with entries for the rows there leaves all tables their rows, and keeps everything in step exactly while its counter has room |
| Catalog.CounterRunsOver | catalog/catalog.go:336-344 | with the counter at 2^32-1 a CREATE TABLE breaks the invariant |
| Catalog.IndexCounterRunsOver | catalog/catalog.go:298-301 | with a table's index counter at 2^32-1 a CREATE INDEX does |
| Catalog.DropIndexKeepsInv | conn.go:334-348 | a dropped index leaves no entry behind, all tables their rows and everything else in step |
| Catalog.RowsKeepInv | exec/dml.go:145-155 | row statements on one table keep the catalog in step and every other table's rows |
| Catalog.DeleteRange | exec/dml.go:289-310 | collecting first and deleting afterwards removes exactly the keys in the range |
| Catalog.DropTableData | exec/dml.go:275-287 | exactly the table's rows and entries go |
| Ddl.Define | catalog/catalog.go:354-381 | accepts exactly the column lists with distinct names and one primary key, and makes that column NOT NULL |
| Ddl.SchemaCatalog.Create | catalog/catalog.go:243-261 | assigns the counter's identifier, moves the counter, and records both in the store |
| Ddl.SchemaCatalog.Drop | catalog/catalog.go:263-276 | forgets the table in memory and in the store |
| Ddl.SchemaCatalog.FindIndex | catalog/catalog.go:230-241 | finds an index of that name on any table, or there is none |
| Ddl.SchemaCatalog.AddIndex | catalog/catalog.go:278-308 | records the index with a fresh number, if the name is free and the column exists |
| Ddl.SchemaCatalog.RemoveIndex | catalog/catalog.go:310-334 | forgets exactly the index of that name |
| Ddl.SchemaCatalog.BumpID | catalog/catalog.go:336-344 | stored and in-memory counter move together, wrapping at 2^32 |
| Ddl.Load | catalog/catalog.go:150-187 | reading the catalog back gives the tables and the counter that were recorded; it fails exactly when an entry does not decode to a table with its key in range or the counter is not four bytes |
| Ddl.BuildIndex | exec/dml.go:238-267 | adds exactly the entries the rows call for, and over rows in place cannot fail |
| Ddl.CreateTable | conn.go:289-299 | the statement with IF NOT EXISTS: exactly the counter and the schema entry are written, and catalog and store stay sound |
| Ddl.DropTable | conn.go:301-315 | the statement with IF EXISTS: exactly the table's keys and its schema entry go |
| Ddl.CreateIndex | conn.go:317-332 | the statement with IF NOT EXISTS: the schema entry and one index entry per row, or nothing |
| Ddl.DropIndex | conn.go:334-348 | the statement with IF EXISTS: exactly the index's entries go and the schema entry changes |
| SchemaRuns.StatementKeepsSound | conn.go:267-351 | every schema or row statement keeps the invariant |
| SchemaRuns.StatementKeepsRows | conn.go:267-351 | a table that a statement neither drops nor writes to keeps its rows, whatever becomes of its indexes |
| SchemaRuns.StatementChangesSchema | conn.go:267-351 | which tables there are after a statement, with the columns defined, and whose indexes changed and how |
| SchemaRuns.RunKeepsSound | conn.go:267-351 | over every serial run the catalog matches the store, every index its table, and no key is an orphan |
| SchemaRuns.IdsNeverReused | catalog/catalog.go:243-261 | no two tables of a run get one identifier |
| SchemaRuns.IndexCounterGrows | catalog/catalog.go:298-301 | a table found under one name and identifier at two points of a run was there all the while, and its index counter only went up |
| SchemaRuns.IndexIdsNeverReused | catalog/catalog.go:278-308 | no two indexes of one table ever get one number, whatever is dropped in between |
| SchemaRuns.MutationWritesRows | exec/dml.go:22-112 | one row write over a view is a row statement's change |
| RowPlans.ResolveSets | plan/build.go:380-391 | resolves every assignment in order, or reports a name that does not resolve |
| RowPlans.Resolved | plan/build.go:380-391 | each assignment is to the column of the name written, with the value written |
| RowPlans.PlanInsert | plan/build.go:104-134 | the positions an INSERT fills, if its columns exist, none is listed twice and every VALUES row has one entry for each |
| RowPlans.InsertColumns | plan/build.go:104-134 | the columns are those named, in the order named, or without names all in table order |
| RowPlans.PlanTarget | plan/build.go:393-403 | a cheapest path and the filter for the conjuncts it does not take care of |
| RowPlans.PlannedTargets | plan/build.go:370-426 | what that path and filter find is what the whole clause keeps if and only if the filter keeps no row the path misjudges |
| RowPlans.UpdateWhere | plan/build.go:370-404 | an UPDATE planned and run: what it replaces on success is what its WHERE clause keeps if and only if no misjudged row passes; in step exactly as RunUpdate says |
| RowPlans.SafeTold | plan/build.go:380-391 | an UPDATE of a table whose key is no FLOAT, or that does not assign to it, always has its keys told apart |
| RowPlans.DeleteWhere | plan/build.go:406-426 | a DELETE planned and run removes on success the rows its WHERE clause keeps if and only if no misjudged row passes |
| Connections.Connection.CreateTable | conn.go:267-299 | refused in a transaction; otherwise the run goes on with a CREATE TABLE, or nothing changes |
| Connections.Connection.DropTable | conn.go:301-315 | refused in a transaction; otherwise the run goes on with a DROP TABLE, or nothing changes |
| Connections.Connection.CreateIndex | conn.go:317-332 | refused in a transaction; otherwise the run goes on with a CREATE INDEX, or nothing changes |
| Connections.Connection.DropIndex | conn.go:334-348 | refused in a transaction; otherwise the run goes on with a DROP INDEX, or nothing changes |
| Connections.Connection.Update | conn.go:218-249 | the run goes on with a write to one table's rows, as the WHERE clause says, or outside a transaction with a statement that failed and changed nothing; not so only if writes were kept whose equal keys are not identical |
| Connections.Connection.Delete | conn.go:218-249 | the same of DELETE |
| Connections.Connection.Insert | conn.go:218-249 | the same of INSERT |
| Connections.Connection.Commit | conn.go:117-126 | what the connection saw is what the database holds |
| Connections.Connection.Rollback | conn.go:128-137 | the run is taken back to where the transaction began |
| Connections.Connection.Sound | conn.go:104-149 | after any calls in any order, seen and stored alike: the catalog matches the store, every index its table, and no key is an orphan |
| Connections.Open | keelsql.go:65-82 | a database that any run has led to reopens with the schema it was closed with |
| LikeMatch.Match | types/ops.go:106-143 | the loop decides the matcher's recursive definition on every input within (text+1)(pattern+1) turns |
| LikeMatch.CodeLikeSound | types/ops.go:106-143 | whatever the code accepts SQL's LIKE matches |
| LikeMatch.CodeLikeComplete | types/ops.go:106-143 | on text without `%` the code accepts whatever SQL's LIKE matches |
| LikeMatch.PercentMissed | types/ops.go:121-134 | the text `%` matches the pattern `%_`, and the code says it does not |
| LikeMatch.TrapSprings | types/ops.go:121-134 | for any text with a `%` there is a pattern the code gets wrong |
| LikeMatch.LikeExact | types/ops.go:106-143 | code and SQL agree on all patterns if and only if the text has no `%` |
| Eval.EvalReads | exec/eval.go:42-150 | a value depends only on the columns the expression mentions |
| Eval.PredicateReads | exec/eval.go:155-300 | a condition's answer, too, depends only on the columns it mentions; what the answer is, ConditionMeans says |
| Conditions.ExprMeans | exec/eval.go:36-150 | an expression has a value exactly when its parts have and the operator is defined on them, and it is the value of the operator |
| Conditions.ConditionMeans | exec/eval.go:152-300 | TRUE if and only if the condition is satisfied, FALSE if and only if it is refuted, UNKNOWN otherwise: NOT exchanges the two, AND and OR are and/or, comparisons need both operands, BETWEEN is two of them, IS NULL is never unknown; and there is an answer exactly when the parts looked at have one |
| Conditions.InMeans | exec/eval.go:248-273 | IN is satisfied if some item is equal and refuted if all are known to differ; items after an equal one are not looked at |
| Conditions.LikeMeans | exec/eval.go:275-292 | LIKE on two texts is SQL's where the text has no `%`, and unknown with a NULL |
| Faults.ExprRaises | exec/eval.go:36-150 | the error of an expression is one that a part of it causes whose own operands have values |
| Faults.ConditionRaises | exec/eval.go:152-300 | so is that of a condition, or it is no truth value as a whole |
| Subterms.HasAggregateMeans | ast/ast.go:279-290 | an expression has an aggregate exactly if a call stands in it at any depth |
| Subterms.ColumnsMean | ast/ast.go:265-277 | the columns of an expression are those that stand in it at any depth |
| Subterms.RefsOkMeans | plan/build.go:701-724 | references resolve exactly if each, at any depth, names a column of the table, under its own name or none |
| Eval.SplitMeans | plan/build.go:656-667 | evaluating the conjuncts in order gives the clause's answer and errors |
| Eval.JoinConjunctsMeans | plan/build.go:669-679 | a rebuilt conjunction answers and fails as its list does |
| Planner.SargMeans | plan/build.go:532-615 | a search argument never fails and is TRUE exactly on non-NULL values in its range |
| Planner.SargsAre | plan/build.go:532-613 | which conjuncts are search arguments: comparisons of a column with a literal of its kind, from either side, and BETWEEN two such |
| Planner.RangeOnMeans | plan/build.go:474-488 | a value lies in a column's collected range exactly when every conjunct behind it is TRUE |
| Planner.CollectRanges | plan/build.go:474-488 | the loop collects, per column, the intersection and the conjuncts it accounts for |
| Planner.ChoosePath | plan/build.go:471-530 | the path chosen is a candidate, the cheapest, and the first of its cost |
| Planner.CostsAre | plan/build.go:489-530 | what each kind of path is thought to cost for a point, an interval, a half-line and the whole table |
| Planner.ComputeResidual | plan/build.go:453-463 | the conjuncts not consumed, in order |
| Planner.ResidualMeans | plan/build.go:453-463 | where the consumed conjuncts are TRUE, dropping them changes neither answer nor error |
| Planner.KeepsWhenAllTrue | plan/build.go:656-667 | a clause keeps a row exactly when each conjunct is TRUE |
| Rewriting.FilterNarrowed | plan/build.go:200-225 | where the clause raises no error, range and residual return what it keeps if and only if no misjudged row does harm; and then an error of theirs is one of the clause |
| Rewriting.MisjudgedAre | plan/build.go:532-593 | only a NULL under an open-below range, a zero beside a zero bound or a NaN with a sign bit is ever misjudged |
| Rewriting.ScanNarrows | exec/operators.go:20-35 | a narrower scan is the wider one with the keys outside left out |
| Rewriting.FullScanIsTable | exec/operators.go:114-177 | the unbounded scan of a path is every row once, in path order |
| Rewriting.NextFetched | exec/operators.go:114-177 | an open scan delivers the stream of fetched rows |
| Rewriting.NullStrays | plan/build.go:532-571 | `k < 5` on an indexed nullable column: any cheapest path, so the one chosen, is a range that returns a row whose k is NULL |
| Masks.MaskedEval | plan/build.go:213-220 | masking columns an expression does not mention changes no result |
| Masks.SortStreamMasked | plan/build.go:213-220 | sorting masked rows is masking sorted rows |
| Masks.ProjectMasked | plan/build.go:213-220 | projecting masked rows is projecting rows |
| Sorting.CompareItems | exec/operators.go:398-411 | the comparison loop decides which item comes first: by the first key on which they differ, as its direction has it, and by arrival if there is none |
| Sorting.LessMeans | exec/operators.go:398-411 | the order used throughout is that one: the first position at which the keys differ decides, above it under DESC and below it otherwise, then arrival |
| Sorting.SortedComesBefore | exec/operators.go:390-394 | in the sorted list every earlier item comes before every later one in that sense |
| Sorting.SortMultiset | exec/operators.go:390-394 | sorting loses and adds nothing |
| Sorting.SortInOrder | exec/operators.go:390-394 | the sort puts numbered items in the order that LessMeans describes |
| Sorting.OrderUnique | exec/operators.go:335-342 | items can be put in order in one way only |
| Sorting.TopHeap.Push | exec/operators.go:413-423 | a pushed item joins the heap and the heap order holds |
| Sorting.TopHeap.ReplaceRoot | exec/operators.go:381-384 | the root gives way to the new item and the heap order holds |
| Sorting.RootComesLast | exec/operators.go:413-423 | nothing in the heap comes after its root |
| Sorting.Offer | exec/operators.go:371-384 | after each item the heap holds exactly the first of everything seen |
| Streams.PushdownExact | plan/build.go:228-236 | the planner alone: a pushed-down limit, as a 64-bit sum, changes nothing under Limit if and only if the offset is not negative, the sum is, there are no more rows than the sum, or evaluating a sort key fails |
| Streams.PushdownKeepsResult | plan/build.go:228-236 | with what the parser lets through it changes nothing, wrapped sums included |
| Operators.FilterOp.Next | exec/operators.go:198-214 | delivers the rows on which the condition is TRUE, up to the first error |
| Operators.ProjectOp.Next | exec/operators.go:224-238 | delivers each row's expressions, up to the first error |
| Operators.LimitOp.Next | exec/operators.go:250-267 | skips, then stops without reading past the last row asked for |
| Operators.DistinctOp.Next | exec/operators.go:279-292 | delivers the first row of each encoding |
| Operators.SortOp.Next | exec/operators.go:318-331 | delivers the sorted input, or the start of it under a limit |
| Operators.SortOp.Load | exec/operators.go:344-396 | with or without the heap, what is kept is the start of the full sort |
| Delivery.FilterDelivers | exec/operators.go:198-214 | Filter: of the rows before the first without an answer, in order, exactly those that satisfy the condition, then that error |
| Delivery.ProjectDelivers | exec/operators.go:224-238 | Project: of each row the values of all expressions, up to the first row on which one fails, then the error of the first that does |
| Delivery.LimitDelivers | exec/operators.go:250-267 | Limit: the rows from max(offset, 0) on, at most count of them |
| Delivery.DistinctDelivers | exec/operators.go:279-292 | Distinct: the first row of every encoding, in input order, none missing |
| Delivery.DistinctIsDistinct | exec/operators.go:279-292 | so no two rows delivered have one encoding, and each that came in has its own delivered |
| Delivery.SortDelivers | exec/operators.go:344-411 | Sort: the rows that came in rearranged so that every earlier one precedes every later one by the keys' values and directions, then arrival; it fails exactly if the input does or a key fails on a row |
| Delivery.ExpandedAt | plan/build.go:166-182 | in the SELECT list each item stands where it was written, a star as all columns in table order |
| Select.MarkColumns | plan/build.go:691-699 | marks exactly the columns the expressions mention |
| Select.ExpandItems | plan/build.go:166-182 | writes stars out as columns, or reports a reference that does not resolve |
| Select.PlainSelect | plan/build.go:162-246 | refuses exactly the queries with unresolved references or aggregates in ORDER BY, and otherwise builds the rewritten plan on a cheapest path |
| Equivalence.SortProvided | plan/build.go:204-211 | rows in path order are a fixed point of the sort on the path's column, ties included, if and only if no NaN with a sign bit is among numbers |
| Equivalence.NaNOutOfOrder | plan/build.go:204-211 | two concrete rows in key order that the sort exchanges |
| Equivalence.KeptIsSorted | plan/build.go:204-211 | a Sort the planner drops would have left the filtered scan as it was if and only if no such NaN is among numbers |
| Equivalence.AccessPathExact | plan/build.go:471-593 | where the clause raises no error, range and residual return, once and in path order, exactly the rows it keeps, if and only if no misjudged row does harm; they raise no error of their own |
| Equivalence.ErrorFree | exec/operators.go:198-214 | a filtered full scan ends without error exactly if the clause raises none on any stored row |
| Equivalence.ParsedBounds | plan/build.go:532-593 | no range that a parsed clause gives rise to has a NaN for a bound |
| Equivalence.TameRewritable | plan/build.go:471-593 | on plain floats, a clause without errors lets the rewriting go through if and only if no NULL under an open-below range passes the residual |
| Equivalence.PlanMeansNaive | plan/build.go:162-246 | for every LIMIT and OFFSET the parser lets through, the plan delivers the same rows in the same order, and the same error, as full scan, whole filter, full sort, projection, DISTINCT and LIMIT, under the conditions of AccessPathExact and KeptIsSorted |
| Equivalence.PlanMeansNaiveAtAnyOffset | plan/build.go:162-246 | the same of the planner alone, where a negative offset meets the condition of PushdownExact |
| Equivalence.StatementTargets | plan/build.go:370-426 | UPDATE and DELETE through the chosen path concern exactly the rows their clause keeps if and only if the residual keeps no misjudged row, errors or not |
| Answers.TargetsMeet | plan/build.go:370-426 | the rows an UPDATE or DELETE is about are those that satisfy its WHERE clause |
| Answers.NaiveAnswers | plan/build.go:162-246 | the naive plan answers the query: all rows once, those that satisfy the clause, in the order of the keys, the SELECT list of each, the first of equal ones under DISTINCT, and of these what OFFSET and LIMIT leave |
| Answers.SelectAnswers | plan/build.go:162-246 | so does the plan that is built, under the conditions of PlanMeansNaive |
| Answers.PlanSorts | plan/build.go:204-236 | a plan sorts if and only if asked to and the path does not already, and how many rows the sort keeps |
| Aggregates.CountMeans | exec/aggregate.go:173-186 | COUNT is the number of rows, or of values present |
| Aggregates.SumMeans | exec/aggregate.go:188-219 | SUM of INTs is their sum modulo 2^64, and NULL without values |
| Aggregates.ExtremeMeans | exec/aggregate.go:247-274 | the accumulator of MIN and MAX returns a value present that no other beats |
| Aggregates.GatherFolds | exec/aggregate.go:55-100 | each result is the fold of its group's rows in input order |
| Aggregates.GatherKeys | exec/aggregate.go:68-87 | a group exists exactly when a row belongs to it, filed under its own values |
| Aggregates.AggregateOp.Next | exec/aggregate.go:38-51 | delivers the aggregated rows one by one |
| Aggregates.AggregateOp.Load | exec/aggregate.go:55-129 | the hash loop computes the aggregation, errors in the order the code meets them |
| Aggregates.AggregateIsPartition | exec/aggregate.go:12-22 | one row per distinct group in ascending key order, results over exactly its rows, all rows shared out, one row for an ungrouped input even if empty; what the results are, AggregateDelivers says |
| AggregateColumns.ColumnMeans | exec/aggregate.go:157-274 | over the arguments of a group: COUNT counts modulo 2^64, MIN and MAX are NULL without values and otherwise one of them with none before or after it, SUM of INTs is congruent to the sum and NULL without values, FLOAT sums and AVG are the host's in input order |
| AggregateColumns.AggregateDelivers | exec/aggregate.go:12-129 | every output row holds its group's values and, function by function, those results over the arguments of exactly its rows |
| Aggregates.BucketsPartition | exec/aggregate.go:55-100 | the groups share out the input rows, each row once |
| Aggregates.CountsAddUp | exec/aggregate.go:173-186 | the COUNT(*) results of all groups add up to the number of input rows modulo 2^64 |
| Aggregates.GroupsAscend | exec/aggregate.go:15-18 | ascending keys are ascending group tuples if and only if the tuples agree, as without NaN and -0.0 they do |
| Aggregates.GroupSumsAddUp | exec/aggregate.go:188-219 | group SUMs of INTs add up to the ungrouped SUM modulo 2^64 |
| Parser.TokenParser.Expr | parser/parser.go:622-661 | the climbing loop, cursor and lookahead included, reads what the grammar reads; which tree that is, ChainParses says |
| Parser.TokenParser.PostfixExpr | parser/parser.go:663-740 | IS, BETWEEN, IN and LIKE with their NOT, as the grammar has them |
| Parser.TokenParser.UnaryExpr | parser/parser.go:742-779 | prefix operators, signs folded into numeric literals |
| Parser.TokenParser.Primary | parser/parser.go:781-849 | literals, columns, calls and parentheses |
| Parser.TokenParser.FuncCall | parser/parser.go:857-891 | known aggregates only, not nested, a star only for COUNT |
| Parser.TokenParser.CountExpr | parser/parser.go:320-335 | a LIMIT or OFFSET is an expression that is a non-negative integer literal |
| Parser.TokenParser.LimitClauses | parser/parser.go:307-316 | the clauses as the grammar has them; what is missing is -1 and 0 |
| Parser.ParseLimits | plan/build.go:796-815 | no negative LIMIT or OFFSET comes out of a query |
| Parser.ParseExpr | parser/parser.go:622-661 | whatever is read is a producible tree and at least one token shorter |
| Parser.ParseTokens | parser/parser.go:92-104 | a whole expression and nothing after it |
| Precedences.ClassesOrdered | ast/print.go:40-56 | OR, AND, the comparisons, + and -, and * / % bind tighter in this order, with NOT between AND and the comparisons |
| Precedences.ChainParses | parser/parser.go:622-661 | `x p y q z ...` over any operands is read as the tree whose root is the last of the loosest operators, and so on below |
| Precedences.ThreeOperands | parser/parser.go:622-661 | of two operators the second takes the middle operand if it is of a tighter class, the first otherwise; `==` is read as `=` |
| Precedences.NotOver | parser/parser.go:742-752 | `NOT x p y` negates the whole unless p is AND or OR, and then x alone |
| Precedences.SignOperand | parser/parser.go:754-777 | a sign binds tighter than any operator: a minus goes into a number or stands before the operand, a plus is dropped |
| Precedences.SuffixOver | parser/parser.go:663-740 | `x p y` with a postfix predicate behind: about y after AND and OR, about the whole otherwise |
| Precedences.NullTestReads | parser/parser.go:663-740 | IS NULL and IS NOT NULL |
| Precedences.RangeReads | parser/parser.go:663-740 | [NOT] BETWEEN with arithmetic for bounds, the AND between them being its own |
| Precedences.MembersRead | parser/parser.go:663-740 | [NOT] IN with a list in parentheses |
| Precedences.PatternReads | parser/parser.go:663-740 | [NOT] LIKE with arithmetic for a pattern |
| Precedences.LiteralTokens | parser/parser.go:781-817 | what each literal token stands for, and which numbers are refused |
| Precedences.CallOperand | parser/parser.go:851-891 | an aggregate's name in any spelling calls it by its name in capitals |
| Precedences.AnyCase | parser/parser.go:851-863 | the spellings of a name: each letter large or small, and, beyond ASCII, a long s for S and a dotless i for I |
| Precedences.StarReads | parser/parser.go:869-875 | a star is for COUNT alone |
| Precedences.CallRefused | parser/parser.go:857-884 | no other name can be called and no aggregate stands inside another |
| Precedences.LimitsRead | parser/parser.go:307-335 | LIMIT n OFFSET m, each optional, with -1 and 0 for what is missing |
| Precedences.AndBeforeOr | parser/parser.go:622-661 | the concrete tree of `a = 1 OR b = 2 AND c = 3` |
| Precedences.InfixPrinted | ast/print.go:58-98 | the printer puts parentheses around a left operand exactly if it binds more loosely and around a right one exactly if it does not bind tighter |
| Precedences.PrefixPrinted | ast/print.go:84-92 | NOT puts them around AND and OR, a minus around every operator |
| Roundtrip.ExprParses | parser/parser.go:622-661 | a printed expression is read back whatever may follow it, at every precedence it is placed at |
| Roundtrip.PrintParses | ast/print.go:58-145 | every producible tree prints to something that parses, to its normal form |
| Roundtrip.NormalMass | ast/print.go:130-137 | the normal form differs exactly when a LIKE pattern is a comparison |
| Roundtrip.RoundTripExact | ast/print.go:58-145 | parsing the printed tree gives it back if and only if the tree is canonical |
| Roundtrip.PrintInjective | exec/eval.go:46-50 | canonical trees with one printed form are one tree |
| Roundtrip.ReparseStable | ast/print.go:1-15 | a parsed tree reads back unchanged if and only if no LIKE pattern in it is a comparison |
| Roundtrip.PatternMoves | ast/print.go:130-137 | the concrete tree that reads back as another |

## Left out

- PlanMeansNaive: assumes that the WHERE clause raises no error on a stored row, since a narrower scan may not come to the row that fails; misjudged rows and dropped sorts enter through their exact conditions.
- RunUpdate: on a table where two stored keys are equal to types.Equal, only that told keys suffice; the rows could also have exchanged keys.
- StepInv: assumes that transactions overlapping in time write disjoint primary keys and that no schema statement runs meanwhile; LiveCommitExact says what a commit does otherwise.
- CreateTable: keeps catalog and store sound while the 32-bit counter has room, which CreateKeepsInv shows to be the exact condition.
- CreateIndex: the same for a table's index counter, with CreateIndexKeepsInv.
- Load: every kind of corruption is one error, without its wording.
- Connection.Update: after kept writes whose keys types.Equal did not tell apart, nothing is said of later calls.
- Serial runs: of one connection; transactions of several are the interleavings, between which no schema statement runs.
- Planning errors in row statements: names that do not resolve are one error.
- AggregateDelivers: AVG and sums of FLOATs are the host's additions in input order, whose results are not modelled.
- ParseTokens: starts at tokens; lexing, positions, error wording and statement grammar outside expressions are not modelled, and every syntax error is one error. Printed text does not always lex back to the printed tokens: `- -a` prints as a comment, a backslash in TEXT and a keyword used as a name are printed bare.
- Grouped plans: the planning of GROUP BY queries, and evaluation over rows bound by printed text.
- Operator dispatch: an operator's input is any source of rows known by its stream; the tree is composed at the level of streams, and Close is not modelled.
- One class serves for table and index scans, with the path as a field.
- Accumulators: values inside the group map rather than objects of their own.
- The column names of an expression form a set; their order and the result headers are not modelled.
- The key/value store below: an ordered map with immutable snapshots whose single-key writes do not fail; crash atomicity is disclaimed by the repository.
- Go's heap and sort packages: sifting up and down as container/heap does it; sort.SliceStable and sort.Strings as the one ordered arrangement of their input.
- JSON: a pair of functions, the second undoing the first.
- ExprRaises: says that the error is one a part of the expression causes by itself, not that it is the first in evaluation order.
- Float arithmetic, the INT to FLOAT conversion and UTF-8 decoding: fields of `Host`.
- SELECT through a session, streaming cursors, EXPLAIN, the shell and table formatting.
