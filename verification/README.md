# Verified model of pydal

pydal is a database abstraction layer: tables and queries are Python objects, and
adapters turn them into statements of one database engine or another. This project
models the parts of pydal whose correctness rests on an argument longer than one
function, and proves that argument in Dafny. `dafny verify dfyconfig.toml` checks
everything.

## What is modelled

| files | part of pydal |
|---|---|
| Cascade.dfy | `Mongo.delete`: referential actions carried out by the client, over reference graphs with cycles |
| MongoQuery.dfy | the Mongo query documents, and negation pushed through them |
| Migration.dfy, MigrationStops.dfy, Migrator.dfy, MigrationHistory.dfy, MigrationValues.dfy | the migrator: statements per column key, stops between and inside keys, execution with its snapshot file, whole histories of `define_table` and the values that come through them |
| PoolProtocol.dfy, PoolProgress.dfy, ConnectionPool.dfy | the connection pool: every interleaving of threads, the lock they share, and what one call does |
| Text.dfy, QueryBuilder.dfy, QueryLexing.dfy, QueryRoundTrip.dfy, QueryTheorem.dfy, QueryVocabulary.dfy, QueryFields.dfy, QueryErrors.dfy, QueryDefaults.dfy | the natural-language query parser, its scanner, its operator vocabulary, the text and fields it mishandles, and the spacing it allows |
| Trees.dfy, Grouping.dfy, RowSets.dfy | result sets: `as_trees`, `group_by_value`, `find`, `exclude` |
| References.dfy | reference registration, with fields that wait for tables not yet defined |
| CsvImport.dfy | restoring tables from CSV with shifted ids |
| SqlLiterals.dfy, Like.dfy, SqlText.dfy | SQL text: literals, LIKE patterns, fully bracketed expressions |
| TableMaps.dfy, Joins.dfy | table maps, and the FROM clause of a select with `join=` or `left=` |
| CacheKey.dfy | the text hashed for the select cache |
| Tokens.dfy | the list-of-strings printer, parser and validator |
| Options.dfy | the optional values the others share |

Code that updates objects in place is modelled by classes and loops with the same
updates (`MongoAdapter`, `TableMigrator`, `Pools`, `Row`, `Group`, `Rows`, the two
`Database` classes, the parser's and scanner's loops). Each such method is proved against
a function of values, and the properties are lemmas about that function. Servers,
drivers, files and threads are values: a Mongo database is a map of records, an SQL table
a map of columns, the snapshot file one variable, threads are program counters.

## Where the code does not do what one might expect

The proofs also settle where a promise stops; each item names its lemma.

- A negation beneath a negation raises when the inner one applies to an and/or, because
  the document of the inner one is a list while the query tree has only one operand
  (`MongoQuery.NestedNegationRaises`; `MongoQuery.ExpandSucceedsIff` is the exact
  condition).
- SQLite keeps a column under its old name after a rename, so going back to that name is
  always rejected (`MigrationHistory.SqliteRenameBackRejected`).
- With `commit_on_alter_table` a stop between the statements of two keys is repaired by the
  next definition (`Migration.StopAndResume`). A stop inside the statements of one key never
  is: the snapshot already calls the key done, so its old or temporary column stays behind
  for good, or makes a later statement fail (`MigrationStops.StopInsideKey`, an equivalence).
- On the other engines a rejected migration commits nothing, yet it can leave a snapshot
  ahead of the database: exactly when, before the key it stopped at, some key had changed
  the snapshot and that key or a later one had nothing to execute
  (`Migrator.RejectedSnapshotIff`; `Migrator.SnapshotOutrunsCommit` is such a run).
- A connection just recycled can be in use by a second thread while the first thread's
  slot still names it (`PoolProtocol.RecycledConnectionNamedTwice`). Exclusive use
  holds all the same.
- The documentation of `close` says that a connection whose commit failed is dropped.
  With `really=False` it is neither pooled nor closed; and `close` raises KeyError on an
  adapter with a pool size whose URI never had a pool (`ConnectionPool.Pools.Close`), as
  after `get_connection(use_pool=False)` (`ConnectionPool.CloseMissesPool`).
- The comment in `group_by_value` says that `one_result` keeps the first row of a
  group; it keeps the last (`Grouping.PathReachesItsRows`).
- `find` with the limits (0, 0) returns every match; `RowSets.LimitsHonouredIff` is the exact
  condition.
- CSV import: a reference of a table's first row to the same table is not shifted, since
  the offset is known only after that row is stored (`CsvImport.ReferenceFollowsItsRow`
  says exactly which references follow their rows).
- The back-references do not depend on the order of definitions, but `_references` does:
  it holds a table's references to the tables defined before it, self references excluded
  (`References.ReferencesListed`), so two orders agree on it exactly when each target
  precedes the table in both or in neither (`References.ReferencesAgreeIff`).
- The documentation of `_build_from_clause` says that bare tables in `join=` and `left=` are
  rejected; the code joins them, as a cross join and as `LEFT JOIN ... ON TRUE`. Such a table
  is listed twice when a condition mentions it (`Joins.ListsOnceIff`).
- A condition that mentions a different table object under the name of the joined table
  is not reported as a name conflict (`Joins.JoinedNameConflictUnseen`); every other conflict
  is (`Joins.NoConflictIff`).
- An empty `belongs` renders as `(1=0)` without its operand, the only case in which two
  different trees render alike (`SqlText.SameTextIff`).
- Without parameters the cache key is not injective (`CacheKey.BareKeysCollide`;
  `CacheKey.BareKeysEqualIff` and `CacheKey.BareKeysOfOneUri` say exactly when keys collide).
  Such a key can also be that of a select with parameters, but only on a URI that begins
  with the prefix of those keys (`CacheKey.MixedKeysEqualIff`, `CacheKey.MixedKeysCollide`).
- A backslash in a token that must be quoted is lost: the printer does not escape it, the
  parser takes it for an escape (`Tokens.SlashLost`).
- Text that `IS_LIST_OF_STRINGS` formats can be taken for JSON when it is validated:
  `Tokens.BracketedIff` says when.
- The query parser drops whatever follows a query and does not begin with a word: a stray
  bracket, or a comma and a value behind a comparison. Only behind a membership test does a
  comma add to the query (`QueryErrors.TrailingTextIgnoredIff`, an equivalence;
  `QueryErrors.StrayTextIgnored`).
- The parser reads one line: a query is refused for any line break that does not follow its
  first word with nothing but blanks between (`QueryErrors.LineBreakRefused`,
  `QueryErrors.NotOverLineBreak`).
- A field name in the wrong case raises KeyError instead of a parse error, and nothing else
  raises it (`QueryErrors.ParseKeyErrorIff`). Of a printed query the first field that the
  table does not have decides (`QueryFields.ParsePrintAnyFields`).

## Model

| member | source | states |
|---|---|---|
| Cascade.MongoAdapter.DeleteMany | pydal/backends/mongo.py:546-551 | exactly the named records go, and the count is theirs |
| Cascade.MongoAdapter.FieldsToVisit | pydal/backends/mongo.py:531-536 | the two lists hold exactly the CASCADE and the SET NULL fields that refer to the table |
| Cascade.MongoAdapter.NullOut | pydal/backends/mongo.py:575-576 | one SET NULL field no longer points at the deleted records, and no other value changes |
| Cascade.MongoAdapter.NullOutAll | pydal/backends/mongo.py:575-576 | the loop over SET NULL fields clears all of them and keeps the invariant of the recursion |
| Cascade.MongoAdapter.CascadeField | pydal/backends/mongo.py:573-574 | the nested delete of one CASCADE field stays within the closure and leaves no record pointing at the deleted ones through it |
| Cascade.MongoAdapter.CascadeAll | pydal/backends/mongo.py:573-574 | so does the loop over CASCADE fields, later nested deletes included |
| Cascade.MongoAdapter.Delete | pydal/backends/mongo.py:515-577 | terminates on every reference graph; a record is removed exactly when it is matched or holds, in a CASCADE field, the id of a removed one, and exactly when such references lead from it to a matched record; of the survivors exactly the SET NULL fields that named a removed record become null; returns the number of matched records |
| Cascade.DeleteRemovesExactly | pydal/backends/mongo.py:573-574 | the closure, record by record: matched records, and those from which CASCADE references lead to one |
| Cascade.DeleteNullsExactly | pydal/backends/mongo.py:575-576 | a survivor's value is null exactly when it named a removed record in a SET NULL field, and unchanged otherwise |
| Cascade.ClosureIsLeastClosed | pydal/backends/mongo.py:573-574 | the closure is the least set that holds the matched records and every record that points into it through a CASCADE field |
| Cascade.CompletedIsAfterDelete | pydal/backends/mongo.py:553-577 | whatever order the recursion took, what it leaves is determined: exactly the closure removed, exactly the SET NULL fields into it nulled |
| Cascade.NestedClosureWithin | pydal/backends/mongo.py:573-574 | a delete nested in another, on the partly deleted database, reaches nothing outside the outer closure |
| Cascade.AfterDeleteCompletes | pydal/backends/mongo.py:515-577 | after a delete no CASCADE or SET NULL field points at a removed record |
| Cascade.DeleteKeepsIntegrity | pydal/backends/mongo.py:515-577 | a database without dangling references has none after a delete |
| Cascade.DeletesCompose | pydal/backends/mongo.py:515-577 | two deletes in a row are one delete of the union |
| MongoQuery.NegateSucceedsIff | pydal/backends/mongo.py:1086-1112 | a query can be negated exactly when it orders nothing against None and its own negations apply to comparisons |
| MongoQuery.ExpandSucceedsIff | pydal/backends/mongo.py:1086-1222 | a query expands exactly when it orders nothing against None and no negation beneath another applies to an and/or |
| MongoQuery.NegateIsComplement | pydal/backends/mongo.py:1086-1222 | a document matches exactly the records the query holds of, and the document of the negation exactly the others |
| MongoQuery.InvertedQuery | pydal/objects.py:2826-2829 | inverting a query without negations always expands, and to a document that matches exactly the other records |
| MongoQuery.InvertIsComplement | pydal/objects.py:2826-2829 | inverting any query gives one that holds of exactly the other records, and a document that matches them |
| MongoQuery.InvertExpandsIff | pydal/objects.py:2826-2829 | exactly when the inverted query expands; inverting twice gives the query back |
| MongoQuery.NestedNegationRaises | pydal/backends/mongo.py:1091-1101 | a negated and/or inside a negated and/or raises, whatever its operands |
| Migration.MoveColumn | pydal/migrator.py:557-567 | ADD, UPDATE, DROP move a column to a free name with its values converted |
| Migration.RebuildEffect | pydal/migrator.py:569-590 | the six statements through the temporary column give back one column of the same name, its values converted twice |
| Migration.KeyEffect | pydal/migrator.py:493-590 | all statements of one key apply, and what they do to the columns, for every branch |
| Migration.BoundaryStep | pydal/migrator.py:493-606 | from one key boundary to the next, as described independently of the statements |
| Migration.ApplicableIffNoClash | pydal/migrator.py:485-606 | every statement is applicable when it runs exactly when no key needs a column name that is taken at its turn |
| Migration.OrdinaryAccepted | pydal/migrator.py:493-606 | a definition whose column names are distinct, take no other column's name and avoid the names that end in __tmp is accepted on every engine: new, dropped, renamed and retyped columns |
| Migration.SnapshotAtBoundary | pydal/migrator.py:491-593 | at every boundary the snapshot is the new definition on the keys done and the old one on the rest; only SQLite keeps dropped keys |
| Migration.BoundaryConsistent | pydal/migrator.py:485-623 | at every boundary each snapshot key has its own existing column and all columns have as many cells as there are rows |
| Migration.MigrationResult | pydal/migrator.py:485-623 | without a clash the columns end as exactly the new names, each surviving key with its old values converted as its path converts them, and the snapshot as the new definition |
| Migration.StopAndResume | pydal/migrator.py:405-429 | stopping at any boundary and defining again reaches the database and the snapshot of the uninterrupted run |
| MigrationStops.UnknownRemains | pydal/migrator.py:493-606 | a column the snapshot does not know survives every run, and no new name can be equal to it |
| MigrationStops.LeftoverThere | pydal/migrator.py:557-590 | between the first and the last statement of a rename or rebuild the old or the temporary column is there |
| MigrationStops.StopInsideKey | pydal/migrator.py:599-615 | stopped after any statement of any key and defined again, the migration reaches the uninterrupted table exactly when it stopped before the first or after the last statement of the key; the snapshot it reaches is always the new definition |
| Migrator.TableMigrator.RunQuery | pydal/migrator.py:595-615 | the statements of a key are run or faked one by one; committed and snapshotted as they go exactly on engines with commit_on_alter_table, where a stop after m statements leaves the table after m statements and, from the first one on, the key's snapshot |
| Migrator.TableMigrator.KeysOf | pydal/migrator.py:485-488 | the new keys in their order, then those only the old side has in theirs |
| Migrator.TableMigrator.MigrateKey | pydal/migrator.py:493-618 | one turn of the loop: the key's statements, the new snapshot and flag, and how table, commits and snapshot file move, also when a statement is rejected |
| Migrator.ReachNext | pydal/migrator.py:493-618 | a turn that ends well keeps what holds between keys of table, commits, snapshot and flags |
| Migrator.RejectNext | pydal/migrator.py:599-618 | a rejected statement leaves the table after those that went through; with commit_on_alter_table that table and, from the first one on, the key's snapshot are durable; without it nothing is committed and the snapshot is the last one saved before the key |
| Migrator.RejectedSnapshotIff | pydal/migrator.py:599-618 | without commit_on_alter_table a rejected run commits nothing, and leaves a snapshot other than the one it found exactly when before its key some key changed the snapshot and that key or a later one had nothing to execute |
| Migrator.SnapshotOutrunsCommit | pydal/migrator.py:606-618 | a key added, a key left as it is and a key rejected: nothing is committed, and the snapshot names the added key |
| Migrator.TableMigrator.MigrateKeys | pydal/migrator.py:491-618 | the whole loop, with the committed table and the snapshot at every key boundary, and where a rejected statement stops it |
| Migrator.TableMigrator.MigrateTable | pydal/migrator.py:485-623 | the run ends as the sequence of statements says; an ordinary definition is never rejected; on engines that drop columns an accepted one leaves exactly the new columns, a new key's blank, an unchanged key's as it was, any other's values each cast once or, under the same name, twice, and the new definition as snapshot; with commit_on_alter_table the committed table and the snapshot are those of a key boundary after every key; a rejected run leaves the table, the committed table and the snapshot that the key and the statement it stopped at determine; faked, only the snapshot moves |
| Migrator.MigratedSays | pydal/migrator.py:493-590 | what an accepted run leaves, key by key and value by value |
| MigrationHistory.DefineKeepsAgreement | pydal/migrator.py:381-429 | a definition is accepted exactly when no key clashes, and then table and snapshot both say the new definition |
| MigrationHistory.OrdinaryDefine | pydal/migrator.py:381-429 | such a definition is accepted at any point of a history |
| MigrationHistory.HistoryAgrees | pydal/migrator.py:381-429 | over every history of definitions and row writes columns, cell counts and snapshot stay in agreement |
| MigrationValues.HistoryTold | pydal/migrator.py:381-429 | over every such history each key's snapshot entry and column are what its own definitions and writes make of them, whatever the other keys do |
| MigrationValues.ValuesCarried | pydal/migrator.py:493-590 | a key kept through several definitions holds its old values, each cast to all the types they assign in turn |
| MigrationHistory.SqliteDefine | pydal/migrator.py:512-531 | with column names kept per key a definition is never rejected, loses no column and no value, emits nothing for a known key and nothing when repeated |
| MigrationHistory.SqliteStep | pydal/migrator.py:421-429 | the snapshot gains exactly the keys of the definition |
| MigrationHistory.SqliteHistory | pydal/migrator.py:512-531 | over every such history the snapshot knows exactly the keys ever defined and the database has exactly their columns |
| MigrationHistory.SqliteColumnStays | pydal/migrator.py:512-531 | on SQLite a column once there occupies its name at every later boundary |
| MigrationHistory.SqliteRenameBackRejected | pydal/migrator.py:512-531 | after a rename, defining the old name again is rejected, whatever else the definitions say |
| PoolProtocol.InvKept | pydal/connection.py:83-213 | every step of every thread keeps the nine parts of the invariant |
| PoolProtocol.ExclusiveKept | pydal/connection.py:94-106 | no step puts one connection into active use by two slots |
| PoolProtocol.PoolKept | pydal/connection.py:195-202 | no step pools a connection twice, and a pooled one is named only by slots past their recycle step |
| PoolProtocol.ClosedKept | pydal/connection.py:207-211 | no step leaves a closed connection pooled or in active use |
| PoolProtocol.SizeKept | pydal/connection.py:197-200 | no step takes a pool over the size its adapters share |
| PoolProtocol.RunKeepsInv | pydal/connection.py:83-213 | the invariant holds after every interleaving from any state that has it |
| PoolProtocol.EveryInterleavingIsSafe | pydal/connection.py:83-213 | from the start, over every interleaving: exclusive use, no closed connection in use or pooled, no duplicates within or across pools, sizes kept |
| PoolProtocol.RecycledConnectionNamedTwice | pydal/connection.py:199-213 | a state in which two slots name one connection is reachable |
| PoolProgress.ThreadCanStep | pydal/connection.py:83-213 | every thread at work can go on, unless it waits for the lock while another holds it |
| PoolProgress.WorkShrinks | pydal/connection.py:94-106 | each step of the lock's holder uses up some of its remaining work or gives the lock back, and no other thread's step adds to it |
| PoolProgress.LockIsGivenBack | pydal/connection.py:94-106 | over every interleaving a thread takes a bounded number of steps before it gives the lock back |
| ConnectionPool.LastAlive | pydal/connection.py:94-99 | the connection the loop settles on is the last pooled one that passes its test |
| ConnectionPool.Pools.Take | pydal/connection.py:70-213 | what the calls do is a run of protocol steps |
| ConnectionPool.Pools.TryOne | pydal/connection.py:95-99 | the last pooled connection leaves the pool, passes or fails its test, and is left in the slot either way |
| ConnectionPool.Pools.PopAlive | pydal/connection.py:93-101 | every connection above the one settled on is discarded, the ones below stay, and the slot names the last one tried |
| ConnectionPool.Pools.TryPool | pydal/connection.py:87-101 | the pool is tried exactly when pooling is on and asked for |
| ConnectionPool.Pools.OpenFresh | pydal/connection.py:103-106 | without a pooled connection the slot gets the driver's, if it gives one |
| ConnectionPool.Pools.GetConnection | pydal/connection.py:70-108 | the slot's connection if it has one, else the last pooled one alive, else a fresh one; pools and slots end accordingly, and after a failed connector the slot names the last rejected connection if there was one |
| ConnectionPool.Pools.Recycle | pydal/connection.py:194-202 | the connection goes into the pool exactly when there is room; a missing pool is a KeyError that leaves the lock free |
| ConnectionPool.Pools.ActAndRecycle | pydal/connection.py:180-202 | after a failed action nothing is pooled |
| ConnectionPool.Pools.Close | pydal/connection.py:159-213 | the five outcomes of close, their exact conditions, and the slot, pool and closed set each leaves |
| ConnectionPool.CloseMissesPool | pydal/connection.py:194-202 | a connection opened without the pool on an adapter that pools cannot be closed: KeyError |
| ConnectionPool.Pools.Reconnect | pydal/connection.py:259-267 | which connection comes back and what becomes of slot, pool and closed set, in every case; with room in the pool a live connection comes straight back and nothing changes |
| QueryBuilder.FirstMatch | pydal/querybuilder.py:169-175 | the alternation takes the first token that matches and none before it does |
| QueryBuilder.FindClosingBracket | pydal/querybuilder.py:194-221 | the loop over level, quoting and previous character finds what the scan finds and raises when it finds nothing |
| QueryBuilder.ParseGroup | pydal/querybuilder.py:270-333 | the recursion on the bracketed substring, and the bare predicate with its operator and values, give what the grammar says, errors included |
| QueryBuilder.ParseQuery | pydal/querybuilder.py:223-354 | the stack-driven loop gives what the grammar says on every text, errors included |
| QueryLexing.ClosingBracketIsFirst | pydal/querybuilder.py:204-221 | the scanner stops exactly at the first place outside quotes where the depth returns to zero |
| QueryLexing.LongestTokenWins | pydal/querybuilder.py:167-175 | of all operator tokens that match, the reverse-sorted alternation takes the longest |
| QueryLexing.MatchedTextIsToken | pydal/querybuilder.py:253-258 | with its blanks collapsed, the matched text is the token |
| QueryLexing.OperatorLookupSucceeds | pydal/querybuilder.py:283-284 | the lookup of a matched operator never fails |
| QueryLexing.LeftoverStackUnreachable | pydal/querybuilder.py:352-353 | the internal leftover-stack error cannot happen, on any text |
| QueryTheorem.PrintIsNeutral | pydal/querybuilder.py:207-220 | printed text returns the scanner to its depth without ever closing an outer bracket, whatever its quoted values hold |
| QueryTheorem.BracketFound | pydal/querybuilder.py:270-272 | the scanner finds the bracket that closes printed text |
| QueryTheorem.TreeReads | pydal/querybuilder.py:263-351 | printed text is read back in front of any text that may follow it |
| QueryTheorem.ParsePrint | pydal/querybuilder.py:223-354 | parsing a printed tree gives its query: comparisons, null tests, membership lists, their values quoted or bare, lower/upper, not, left-associated and/or, brackets |
| QueryRoundTrip.BareLexed | pydal/querybuilder.py:128 | a bare value is read up to a blank, a comma or a double quote |
| QueryRoundTrip.BackslashLexed | pydal/querybuilder.py:128 | a quoted value may end in a backslash when no double quote follows |
| QueryRoundTrip.MatchedReaches | pydal/querybuilder.py:167-175 | an operator takes text of a bare value only when its next word begins the value |
| QueryLexing.CollapsedTextMatches | pydal/querybuilder.py:167-175 | any run of blanks matches a space of an operator |
| QueryErrors.DroppedIff | pydal/querybuilder.py:344-354 | what is left behind an atom is dropped, and the query stays as it is, exactly when no word begins it |
| QueryErrors.NoWordIff | pydal/querybuilder.py:125 | no word begins a text exactly when its first character is no letter, digit or underscore |
| QueryErrors.TrailingTextIgnoredIff | pydal/querybuilder.py:323-354 | text behind a printed query is accepted without a trace exactly when no word begins it and it is not a comma behind the values of a membership test |
| QueryErrors.CommaGoesOn | pydal/querybuilder.py:323-329 | with such a comma the text is refused or the query gets more values |
| QueryErrors.StrayTextIgnored | pydal/querybuilder.py:344-347 | a stray closing bracket behind any printed query is such text, and so are a comma and a value behind a comparison |
| QueryErrors.LineBreakRefused | pydal/querybuilder.py:125 | a query with a line break further on than right behind its first word is refused |
| QueryErrors.NotOverLineBreak | pydal/querybuilder.py:262-280 | so is one with a line break behind a not |
| QueryErrors.PredicateKeyErrorIff | pydal/querybuilder.py:275-292 | a predicate raises KeyError exactly when its first word is a field once lower-cased but not as written |
| QueryErrors.ParseKeyErrorIff | pydal/querybuilder.py:263-351 | the parser raises KeyError exactly when it comes to such a predicate, in brackets or behind connectives |
| QueryErrors.DefaultKeyErrorIff | pydal/querybuilder.py:83-123 | so it does with the built-in vocabulary, whatever the fields |
| QueryFields.ParsePrintAnyFields | pydal/querybuilder.py:275-280 | parsing a printed tree over any words as fields gives its query when the table has them all, and otherwise the error for the first it does not have: KeyError when only its case is wrong |
| QueryFields.PrintedKeyErrorIff | pydal/querybuilder.py:275-280 | so it raises KeyError exactly when the first such field is one of the table's but for capitals |
| QueryVocabulary.SortedGrammar | pydal/querybuilder.py:167-175 | any vocabulary of fit tokens, sorted as the parser sorts them, supports the round trip |
| QueryVocabulary.DefaultGrammarIsWellFormed | pydal/querybuilder.py:83-123 | the built-in operators and aliases are such a vocabulary |
| QueryDefaults.ComparisonParses | pydal/querybuilder.py:83-123 | with the built-in vocabulary a field, a symbol and a value, quoted or bare, are a comparison |
| QueryDefaults.SpacedComparison | pydal/querybuilder.py:128 | so they are with any blanks between them, or none |
| QueryDefaults.SpacedNegation | pydal/querybuilder.py:262-274 | a not may stand right before its bracket or any blanks before it |
| QueryDefaults.BlanksIgnored | pydal/querybuilder.py:238-262 | white space around a query changes nothing |
| QueryVocabulary.MeaningCollapses | pydal/querybuilder.py:334-335 | the query has no double negation and holds of the same records as the tree written out |
| Trees.RowWith | pydal/objects.py:3427-3429 | an id stands for a row of the set with that id, and for none exactly when there is none |
| Trees.IndexRows | pydal/objects.py:3427-3429 | the index maps each id to its row, and every children list is emptied |
| Trees.AsTrees | pydal/objects.py:3408-3436 | the roots and every row's children are the rows placed there, in order |
| Trees.ForestMeans | pydal/objects.py:3408-3436 | the roots are the rows whose parent is no row's id, the children of a row those whose parent is its id, unless a later row has the same id |
| Trees.PlacedOnce | pydal/objects.py:3430-3435 | every row is listed exactly once, among the roots or its parent's children |
| Trees.PlacedInOrder | pydal/objects.py:3430-3435 | siblings keep the input order |
| Trees.LevelCounts | pydal/objects.py:3430-3436 | a row is met at the depth of its parent chain, once, and nowhere else |
| Trees.ReachableIffChainLeaves | pydal/objects.py:3430-3436 | a row is reachable from the roots exactly when its parent chain leaves the row set |
| Trees.AcyclicFlattenIsPermutation | pydal/objects.py:3430-3436 | with acyclic parents the flattened forest is a permutation of the rows |
| Grouping.BuildFieldsStruct | pydal/objects.py:3994-4022 | one row put into the nested dictionaries changes them as the value-level grouping says, shares nothing between slots, and leaves everything untouched when a field is missing |
| Grouping.PutRow | pydal/objects.py:4005-4022 | below the slot of its value the row is put as the value-level grouping says, and no other slot changes |
| Grouping.BuildBelow | pydal/objects.py:4007-4010 | the recursive call fills a new dictionary or updates the one the slot holds |
| Grouping.Store | pydal/objects.py:4007-4020 | the slot is set, its list extended, or left to the update in place |
| Grouping.GroupByValue | pydal/objects.py:3986-4037 | no fields gives the rows themselves; otherwise the nested grouping, or an error exactly when a row lacks a field |
| Grouping.PutAt | pydal/objects.py:4005-4020 | adding a row changes what its own path of values reaches and no other path |
| Grouping.PathReachesItsRows | pydal/objects.py:3994-4037 | a path reaches exactly the rows with its values, in input order, and nothing when there are none; with one_result the last of them |
| Grouping.MatchingPlaces | pydal/objects.py:3994-4037 | those rows are picked by their values, one field at a time, and keep their order |
| Grouping.FlattenCounts | pydal/objects.py:3994-4037 | following a list of paths meets a row as often as the input has it when its path is listed, never otherwise |
| Grouping.FlattenIsPermutation | pydal/objects.py:3994-4037 | following every path once gives back every row once |
| RowSets.Rows.Find | pydal/objects.py:3854-3878 | the matches between the limits, by the loop that counts and breaks |
| RowSets.Rows.Exclude | pydal/objects.py:3880-3900 | removal while iterating leaves exactly the rows that do not match and returns the others, both in order |
| RowSets.FilterPlaces | pydal/objects.py:3854-3900 | the rows found or removed are exactly those that match, in the order they stood |
| RowSets.WindowMeans | pydal/objects.py:3864-3875 | which of the matches any limits give back |
| RowSets.ExcludeConserves | pydal/objects.py:3880-3900 | removed and kept rows are together the rows there were |
| RowSets.NothingLeftToFind | pydal/objects.py:3880-3900 | what exclude leaves has no match |
| RowSets.WindowPlaces | pydal/objects.py:3864-3875 | row i found is match number a + i, and rows are missing only past the last match |
| RowSets.LimitsHonouredIff | pydal/objects.py:3869-3875 | any limits select the matches with the numbers between them exactly when the upper one is positive or no match lies past the lower one |
| References.Database.CreateReferences | pydal/objects.py:638-717 | the lists emptied, then both loops with the pending list popped in between, and their errors; the table itself does not count as defined yet |
| References.Database.DefineTable | pydal/base.py:628-676 | references first, then the name; accepted exactly when the references to columns of defined tables find a keyed table with the column, and then each field is in its plain or list back-references once, or waits, and has its referent |
| References.RegisterStep | pydal/objects.py:644-687 | one field is linked, or made to wait when its target is not defined, itself included, and refused exactly when a defined target does not resolve it |
| References.AdoptionLinks | pydal/objects.py:688-717 | the fields popped are exactly those that wait for the new table, its own self references among them, and each is linked once |
| References.DefineKeepsDescription | pydal/objects.py:638-717 | a definition is accepted exactly when every reference between defined tables resolves, and the catalog then describes the enlarged set |
| References.DefineAllDescribes | pydal/base.py:604-676 | so for every sequence of definitions with distinct names |
| References.DefineAllRegisters | pydal/objects.py:634-717 | the same for every sequence of definitions, list by list |
| References.OrderDoesNotMatter | pydal/objects.py:638-717 | any two orders of the same definitions agree on acceptance, referents, back-reference multisets and pending fields |
| References.PendingKeysUndefined | pydal/objects.py:663-665 | between definitions the pending keys are exactly the undefined targets of reference fields |
| References.PendingInsideDefinition | pydal/objects.py:663-665 | so they are inside the first loop, where the table being defined is still undefined |
| References.ReferencesListed | pydal/objects.py:663-685 | `_references` lists a table's references to the tables defined before it, in field order, self references excluded, whatever is defined later |
| References.LinkedPlaces | pydal/objects.py:685 | they keep the order of the fields |
| References.ReferencesAgreeIff | pydal/objects.py:663-685 | two orders give a table the same `_references` exactly when each of its targets precedes it in both or in neither |
| References.ReferencesDependOnOrder | pydal/objects.py:663-685 | two tables, one of which refers to the other, are such a case in either order |
| CsvImport.Database.InsertAt | pydal/objects.py:1304-1307 | inserting and deleting until the id is reached terminates, and leaves the row once at the larger of its first and its wanted id |
| CsvImport.Database.ImportTable | pydal/objects.py:1258-1307 | where each row ends up: increasing ids are kept in a table that has not passed the first of them and are moved by one constant otherwise; earlier records are untouched, nothing else is there, cells are kept and reference cells moved by what is known of their tables |
| CsvImport.Database.ImportAll | pydal/base.py:998-1017 | the sections are imported in order with a shared offset map; an unknown table is refused |
| CsvImport.ImportedRows | pydal/objects.py:1294-1307 | one new record per CSV row with its values, at increasing new ids; earlier records untouched; nothing else |
| CsvImport.ShiftedIffIncreasing | pydal/objects.py:1296-1307 | every row lands at its CSV id plus one constant exactly when the CSV ids increase |
| CsvImport.OffsetsAfter | pydal/base.py:999-1017 | after some sections the offset map has exactly the non-empty tables among them, each with its constant |
| CsvImport.RowOfSection | pydal/base.py:1001-1017 | after every section each row of each table is where its section put it |
| CsvImport.ReferenceFollowsItsRow | pydal/objects.py:1245-1249 | a reference points at the same logical row after import exactly when its table came earlier, or is the same table past its first row, or was not shifted |
| SqlLiterals.LiteralReadsBack | pydal/backend_base.py:1091-1092 | a quoted literal decodes to its string exactly when no quote follows it |
| SqlLiterals.NatReadsBack | pydal/backend_base.py:1094-1096 | a decimal number is read back exactly when no digit follows it |
| Like.StartsWithIsPrefix | pydal/backend_base.py:2238-2251 | a string satisfies the emitted predicate exactly when it has the search string as prefix, whatever either contains |
| Like.EndsWithIsSuffix | pydal/backend_base.py:2238-2259 | likewise for suffixes |
| Like.ContainsIsSubstring | pydal/backend_base.py:2274-2313 | likewise for substrings, case-sensitively |
| Like.LikeHonoursWildcards | pydal/backend_base.py:2208-2221 | like without an escape argument treats percent and underscore as wildcards and every other character, backslash included, as itself |
| Like.WildcardsMean | pydal/backend_base.py:2208-2221 | a percent stands for any text, an underscore for any character, anything else for itself |
| SqlText.ReadsBack | pydal/backend_base.py:2167-2398 | from its rendering followed by a suffix a reader recovers the tree exactly when the suffix does not go on with a bare number or a bare literal; brackets and columns take any suffix |
| SqlText.NormalRendersAlike | pydal/backend_base.py:2192-2193 | operands of empty belongs tests do not show in the text |
| SqlText.SameTextIff | pydal/backend_base.py:2167-2398 | two trees render alike exactly when they differ at most there |
| TableMaps.MergeTablemaps | pydal/helpers/methods.py:95-119 | the union, the longer map first, refused exactly when two different tables share a name |
| TableMaps.MergedIsUnion | pydal/helpers/methods.py:107-119 | the merged map has every entry of both, each name once, nothing else |
| Joins.ItemMap | pydal/backend_base.py:1297-1304 | the map of join targets, refused exactly when two targets share a name but not the object |
| Joins.MergeConditions | pydal/backend_base.py:1307-1309 | the tables of all conditions merged, refused exactly when they disagree |
| Joins.PopAll | pydal/backend_base.py:1310-1313 | the joined tables leave the mentioned ones |
| Joins.BuildJoinsForSelect | pydal/backend_base.py:1294-1324 | the classification, and exactly when it raises |
| Joins.ClauseJoinsItems | pydal/ast_translate.py:442-507 | the clause ends with the items, left joins for left=, cross and inner joins for join=, each condition with its table |
| Joins.ClauseMeans | pydal/backend_base.py:1294-1324 | tables listed and errors raised, in terms of the items |
| Joins.WholeMap | pydal/ast_translate.py:464-473 | every table of the cross product is found in the merged map, as the same object |
| Joins.BuildFromClause | pydal/ast_translate.py:442-507 | lists exactly the tables of the query, the items and their conditions, each item joined by its kind with its own condition; raises exactly when two of those tables share a name where the code looks, or when all of them are joined |
| Joins.ListsTheUsedTables | pydal/ast_translate.py:442-507 | the clause lists every table of the query, the join targets and the conditions, and nothing else |
| Joins.ListsOnceIff | pydal/ast_translate.py:467-507 | no table is listed twice exactly when the targets have distinct names and no condition mentions a bare join table |
| Joins.NoAnchorIff | pydal/ast_translate.py:467-469 | the missing-anchor error is raised exactly when every table used is itself joined |
| Joins.NoConflictIff | pydal/ast_translate.py:459-489 | the tables of the query, the targets and the conditions are free of name conflicts exactly when the code raises none and the joined tables agree with those mentioned under their names |
| Joins.JoinedNameConflictUnseen | pydal/backend_base.py:1310-1313 | a second object under the name of a joined table goes unseen |
| CacheKey.AppendParams | pydal/backend_base.py:1599-1604 | the loop appends type name and repr of each parameter, length-prefixed |
| CacheKey.SelectCacheKey | pydal/backend_base.py:1586-1606 | the text before hashing, with and without parameters |
| CacheKey.KeyOfOne | pydal/backend_base.py:1586-1606 | the whole text for one parameter and for none |
| CacheKey.PartCancels | pydal/backend_base.py:1591-1593 | a length-prefixed part delimits itself, whatever follows |
| CacheKey.KeyIsInjective | pydal/backend_base.py:1595-1606 | for parameterised statements equal keys mean equal URI, SQL, parameter count, types, reprs and rows flag |
| CacheKey.BareKeysCollide | pydal/backend_base.py:1588-1589 | without parameters different selects share a key |
| CacheKey.BareKeysEqualIff | pydal/backend_base.py:1588-1606 | two keys without parameters are equal exactly when the longer URI is the other followed by a beginning of what the other's select adds, and its own select adds the rest |
| CacheKey.BareKeysOfOneUri | pydal/backend_base.py:1588-1606 | on one URI only when one SQL text is the other followed by the mark of the rows flag |
| CacheKey.MixedKeysEqualIff | pydal/backend_base.py:1586-1606 | a key with parameters is that of a select without exactly when the latter's URI begins with the prefix and goes on with a beginning of the parts, and its select adds the rest |
| CacheKey.MixedKeysCollide | pydal/backend_base.py:1586-1606 | every select with parameters on one URI shares its key with some select without |
| Tokens.ParseTokens | pydal/validators.py:110-142 | the character loop with its three variables computes the scan over the line |
| Tokens.SeparatorSplits | pydal/validators.py:110-142 | outside quotes a comma, a semicolon or a blank ends a token |
| Tokens.PlainIsOneToken | pydal/validators.py:110-142 | nothing else does |
| Tokens.UnquotedIff | pydal/validators.py:102-108 | exactly the tokens with a separator or a double quote are put between quotes |
| Tokens.FormatGrows | pydal/validators.py:1438-1443 | a further token comes behind a comma and a blank |
| Tokens.ParseFormat | pydal/validators.py:1438-1443 | a list of non-empty, trimmed tokens, none of which both needs quoting and has a backslash, comes back from its formatted line |
| Tokens.SlashLost | pydal/validators.py:102-127 | a token that is quoted and has a backslash is misread, and nothing later on the line can make up for it |
| Tokens.ComesBackIffFaithful | pydal/validators.py:102-142 | a list comes back exactly when every token is such |
| Tokens.BracketedIff | pydal/validators.py:1423-1443 | a formatted list is handed to the JSON reader exactly when its first token begins and its last one ends with the bracket, both unquoted |
| Tokens.ValidatedIffFaithful | pydal/validators.py:1423-1443 | any other list is validated to itself exactly when every token is such |

## Left out

- Cascade.MongoAdapter.Delete: scalar references only. `list:reference` fields, whose cascade the code does not continue, before/after callbacks, common filters and computed fields are not modelled, and the matched records are given by a predicate instead of a query document.
- MongoQuery.NegateIsComplement: aggregation-pipeline comparisons, bool operands of and/or and the nested-select error of belongs are not modelled; documents match two-valuedly, with a missing field equal to null.
- Migration.MigrationResult: values of a rebuilt column pass two conversions, as the code stores them twice; what a conversion does to a value is a parameter of the engine.
- Migrator.TableMigrator.MigrateTable: Oracle's quoted names, geometry columns, the log file and the file lock are not modelled.
- MigrationStops.StopInsideKey: a stop counts once the snapshot of the last committed statement is saved; one between a commit and that save is not modelled.
- MigrationHistory.SqliteHistory: holds for histories in which each key keeps one column name of its own; SqliteRenameBackRejected shows what happens otherwise.
- PoolProtocol.EveryInterleavingIsSafe: says nothing about the health of a connection. After a failed connector the slot may still name a rejected one. `close_all_instances` is a sequence of closes and has no step of its own.
- ConnectionPool.Pools.GetConnection: states the outcome when no other thread steps during the call; what holds under interleaving is EveryInterleavingIsSafe.
- QueryTheorem.ParsePrint: string fields only, ASCII text, one line. A quoted value has a backslash before every double quote and none at its end (BackslashLexed covers that end); a bare one has no blank, double quote or comma, is not the beginning of a longer operator, and has balanced brackets where the query around it is bracketed. Boolean tests, other field types with their value validation and translated `not`/`and`/`or` are not modelled or not printed.
- QueryErrors.TrailingTextIgnoredIff: the text behind is one line, after at most one space; text glued to a bare value belongs to the value.
- MigrationValues.HistoryTold: for engines that drop columns; what SQLite keeps is stated by MigrationHistory.SqliteDefine and SqliteHistory.
- Trees.PlacedOnce: for rows that are distinct objects; two rows with one id are allowed, and the last one then owns the children, as in the code.
- Grouping.GroupByValue: a dictionary's iteration order is not modelled, so flattening is stated along any list of the paths. Values that cannot be dictionary keys are not modelled.
- CsvImport.Database.ImportTable: no id_map, no unique column, no transform, no lines of the wrong length, no cells that do not parse; `list:reference` columns pass as other cells.
- CsvImport.Database.Delete: removes the one record. The adapters that carry out cascades in Python (SQLite, Mongo) would also delete records whose unshifted reference equals an id passed over.
- References.Database.DefineTable: eager definitions without redefine; what a refused definition leaves behind is not stated; reserved words, common fields and lazy tables are not modelled.
- Like.ContainsIsSubstring: string columns and case-sensitive search; `ilike`, list columns, Expression arguments and the escaping of other engines are not modelled.
- SqlText.ReadsBack: names without a double quote; json comparisons, casts, sub-selects, functions other than LOWER and UPPER, and the type conversion of values by `represent` are not modelled. Numbers are integers.
- Joins.BuildFromClause: the tables of a query or a condition are given; common filters and table expressions do not appear.
- CacheKey.KeyIsInjective: the text before hashing; that MD5 has no collisions is not claimed.
- Tokens.ValidatedIffFaithful: what the JSON reader does with bracketed text is a parameter.
- Text.dfy classifies ASCII characters; Unicode whitespace, letters and case folding are not modelled.
- Drivers, cursors, transactions of other clients, virtual fields, caching models, uploads, the REST interface, the remaining validators, Firestore, and the select templates of the other dialects are not part of this model.
