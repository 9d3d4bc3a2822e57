# Change-data pipeline: model and proofs

The repository carries row changes from one PostgreSQL database to another: a producer decodes
pgoutput messages from WAL packets, turns each row change into a JSON record with a routing key and
hands it to Kafka; a consumer puts the records through a bounded queue, and a writer thread prints
SQL for a replica. This project models that path, as the code has it, and proves what it keeps.

`dafny verify dfyconfig.toml` checks everything.

| files | what they hold |
|---|---|
| `Bytes`, `Numerals`, `Counted`, `Members`, `Identifiers` | machine integers, cursor-threaded readers, decimal numerals, counted repetition, member names in order, folded names, key words and the catalogue's names |
| `PgOutput`, `WireFormat`, `WireTheorems` | the decoder, the message format of section 53.9 of the PostgreSQL 17 documentation as an encoder, and round trips, prefixes and whole streams |
| `SafeQueue` | the queue under its mutex, and the interleaving of any number of threads inside `push` and `pop` |
| `Changes`, `Replicator`, `Acknowledgement` | change records and routing keys, the producer as a class and as a state machine, and what its acknowledged positions mean (section 53.4) |
| `Sql`, `WriterSql` | SQL printed with proper quoting and a reader for it (whatever is printed reads back, whatever reads is printed); the texts the writer builds, and when they read back as what is meant |
| `Replica`, `Effects` | the replica as tables of row multisets, the writer and the consumer as classes, and the effect of each kind of record |
| `History`, `Production`, `Convergence` | source histories, what the producer makes of them, and when the replica follows them |
| `Logs`, `Delivery`, `PartialDelivery`, `EndToEnd` | delivery with only the order of equal keys kept, complete or under way, and the whole pipeline |
| `IntendedPipeline`, `IntendedDelivery`, `FailingInputs` | updates as they are meant, in order and reordered, and concrete inputs on which the code falls short |
| `ConfigManager` | the configuration file and the restart position kept in it |

Methods follow the code's loops and fields. Each is proved to compute a function, and the theorems
are about these functions.

What the database server does with a text that is neither one of the writer's four statements nor
refused by every server is a parameter, `Replica.Server`; so is what it does where it would have to
convert a value to a column's type. Nothing is assumed of it: a theorem with a `server` holds whatever
that server makes of these. The words the server's parser expects (`Sql`) and the words the writer
sends (`WriterSql`, `Replica`) are written down separately.

## Where the code and its intention part

The code is modelled as it is written. Where that makes a promise fail, the project has a concrete
input for the failure and the exact condition under which the promise is kept.

- An Update that carries an old tuple is decoded with the old values as the new ones, and the byte
  that is tested for `O` is the high byte of the column count (`UpdateDecodedAsIntended`; input:
  `FullUpdateLosesTheNewRow`).
- The SET clause lacks its equals signs, so the server's parser takes no UPDATE the writer sends as
  the one that is meant (`UpdateIsNeverIntended`), and none at all if the names are plain
  (`UpdateNeverReads`). With them it would (`UpdateWouldReadBack`), and with old tuples decoded as
  well, updates with an old tuple would be followed (`IntendedPipelineConverges`); those without one
  still would not (`UpdateWithoutOldFindsNothing`). Reordering would be harmless to updates that keep
  their key (`AnyDeliveryConvergesAsMeant`), and not to those that change it (`ChangedKeyBreaksOrder`).
- A DELETE puts its key value between quotes unescaped, and selects by one rendered column
  (`DeleteReadsBack`, `StruckIsUndoubled`). As long as key values stay inside the quotes, reordering by
  Kafka is harmless exactly as long as none of them reads as another row's key
  (`IndependentExactlyIfUncrossed`; input: `QuotedKeyBreaksOrder`).
- A key value that ends the quotes before it ends itself makes another statement of the DELETE
  (`BreaksOutOrStaysInside`), and what it does is the server's business (`BrokenDeleteIsLeftToServer`):
  `x' OR 'a'='a` names every row. Its order against every insertion can matter, whichever key and table
  that has (`BrokenKeyMayBreakOrder`; input: `BrokenKeyBreaksOrder`). Removed keys free of single quotes
  are harmless on every server (`AnyDeliveryConverges`).
- So the replica follows a history on every server exactly if no removed row has a single quote in its
  key text or shares it, and no update changes a rendered row (`ConvergesOnEveryServer`). If removed
  keys stay inside the quotes, that is so on each server by itself (`ConvergesExactlyIfFaithful`;
  inputs: `UpdateIsLost`, `QuotedRemovalIsLost`, `SharedKeyRemovesBoth`).
- Table names go into the statements unquoted: a table the server takes for something else, such as
  `order`, never arrives (`UnnamedTableNeverReads`, `UnnamedNeverArrives`; inputs: `OrderIsNoTable`,
  `ReservedTableIsLost`).
- Whether a table is there is asked by its name alone, in all schemas: a table named like a view of
  `information_schema`, such as `columns`, is never created and never arrives
  (`CataloguedTableStaysAway`, `CataloguedNeverArrives`; input: `CataloguedTableIsLost`). The theorems
  on convergence are for tables named otherwise (`PlainRelation`).
- A boolean in an INSERT prints as 1 or 0 (`InsertReadsBack`; input: `BooleanReadsAsInteger`). The
  column created for it is BOOLEAN and does not take the number: of the first rows of tables, exactly
  those without a boolean arrive (`FirstRowArrives`).
- The applied position moves past packets that failed, and is then acknowledged
  (`AcknowledgementIsSafe`; input: `OvertakenFailureIsAcknowledged`); packets with the position of an
  earlier one are acknowledged before they come (`AcknowledgedInTime`; input: `SecondAtAcknowledged`);
  the restart position starts ahead of it (`PositionsOrdered`, `RisingIsOrdered`; input:
  `RestartFallsBehindConfigured`).
- Positions are kept and printed in decimal; the server reads them as hexadecimal
  (`ServerReadsPosition`; input: `TenIsSixteen`).
- NULL and an unchanged TOASTed value become the texts `NULL` and `TOAST` (`RenderInjective`; each
  failing input: `AmbiguousHasDouble`).

An access the code does not check (a byte past the end of the buffer, a column past the end of the
relation, the null result of `parseMessage`) counts as an exception at that place, which ends the
packet's handling and nothing else.

## Model

| member | source | states |
|---|---|---|
| Bytes.ReadUint64IsBase256 | producer_azs/pgoutput_parser.cpp:41-90 | the 64-bit read put together from two words is the base-256 value of its eight bytes, and the signed read is the same number modulo 2^64 |
| Bytes.LsnOrder | producer_azs/pgoutput_parser.cpp:47-52 | positions compare as 64-bit numbers exactly as their high and low halves compare lexicographically |
| Bytes.ReadStringAt | producer_azs/pgoutput_parser.cpp:57-77 | a NUL-terminated name standing anywhere in a buffer is read back and the cursor stops right behind its NUL |
| PgOutput.PgOutputParser.ScanString | producer_azs/pgoutput_parser.cpp:57-77 | the byte loop computes `ReadString`, exceptions included |
| PgOutput.PgOutputParser.ParseTuple | producer_azs/pgoutput_parser.cpp:215-245 | the loop of the overload without columns computes `DecodeTuple`, which the round trips are about |
| PgOutput.PgOutputParser.ParseTupleFor | producer_azs/pgoutput_parser.cpp:247-289 | the loop of the overload with columns computes `DecodeTuple`, which the round trips are about |
| PgOutput.PgOutputParser.ParseRelation | producer_azs/replication_message.cpp:51-100 | the column loop computes `DecodeRelation`: every field, or an exception at the first read that fails |
| PgOutput.PgOutputParser.ParseUpdate | producer_azs/replication_message.cpp:253-289 | the peek behind the tag byte and both tuples as `DecodeUpdate` has them |
| PgOutput.PgOutputParser.ParseMessage | producer_azs/pgoutput_parser.cpp:93-178 | the decoded message (a Truncate counts as one that is not taken), and a cache changed only by a relation message that parsed, under that relation's id |
| Counted.ManyRoundTrip | producer_azs/pgoutput_parser.cpp:220-242 | if one item reads back, so does any number of them laid out one behind the other, up to their exact end |
| WireTheorems.TupleRoundTrip | producer_azs/pgoutput_parser.cpp:215-289 | both overloads read an encoded tuple back as its rendering and stop at its exact end, whatever stands around it |
| WireTheorems.RelationRoundTrip | producer_azs/replication_message.cpp:51-100 | an encoded Relation is read back field by field, all columns included, up to its exact end |
| WireTheorems.CommitRoundTrip | producer_azs/replication_message.cpp:119-153 | an encoded Commit is read back field by field, up to its exact end |
| WireTheorems.BeginRoundTrip | producer_azs/replication_message.cpp:14-39 | position and timestamp of an encoded Begin are read back; its xid is not handed out |
| WireTheorems.MessageRoundTrip | producer_azs/pgoutput_parser.cpp:93-178 | every message whose first tuple, if it is an Update, does not have 20224 to 20479 columns decodes as the format intends, an Update with an old tuple excepted, which yields its first tuple as the new one |
| WireTheorems.UpdateDecodedAsIntended | producer_azs/replication_message.cpp:253-289 | an Update is decoded as intended if and only if: without an old tuple, its column count's high byte is not the letter O; with one, both are empty, or the old count's high byte is O and the new tuple is 20046 empty texts (the relation then being cached) |
| WireTheorems.FullUpdateLosesTheNewRow | producer_azs/replication_message.cpp:263-275 | concrete input: the old row of a full-image Update comes out as its new row |
| WireTheorems.OverloadsAgree | producer_azs/pgoutput_parser.cpp:215-289 | the two overloads fail together and consume the same bytes; with columns there is one value per declared column; the values agree if and only if every tag is n, u or t |
| WireTheorems.OtherTagIsEmpty | producer_azs/pgoutput_parser.cpp:215-289 | a column with another tag than n, u and t gives an empty value to the overload with columns, and none to the other |
| WireTheorems.TupleExtends | producer_azs/pgoutput_parser.cpp:215-289 | a tuple that decodes does so unchanged in every longer buffer |
| WireTheorems.RelationExtends | producer_azs/replication_message.cpp:51-100 | a Relation that decodes does so unchanged in every longer buffer |
| WireTheorems.NoProperPrefixTuple | producer_azs/pgoutput_parser.cpp:215-289 | no proper prefix of an encoded tuple decodes |
| WireTheorems.NoProperPrefixRelation | producer_azs/replication_message.cpp:51-100 | no proper prefix of an encoded Relation decodes |
| WireTheorems.NoProperPrefixDecodes | producer_azs/pgoutput_parser.cpp:93-173 | no proper prefix of any encoded message (an Update without an old tuple) decodes |
| WireTheorems.RenderInjective | producer_azs/pgoutput_parser.cpp:220-242 | tuples whose texts avoid `NULL` and `TOAST` render alike only if they are equal |
| WireTheorems.AmbiguousHasDouble | producer_azs/pgoutput_parser.cpp:226-231 | every other tuple renders like some different tuple |
| WireTheorems.StreamRoundTrip | producer_azs/pgoutput_parser.cpp:93-178 | decoding any stream recovers every encoded message in it, nothing for packets that do not parse, and leaves the cache that maps each id to the last relation sent for it, which those packets do not touch |
| WireTheorems.FailsAlike | producer_azs/pgoutput_parser.cpp:93-173 | whether a packet parses does not depend on the relations known |
| WireTheorems.OnlySixTypes | producer_azs/pgoutput_parser.cpp:93-178 | a message comes out only for the type bytes B, C, R, I, U and D, each of its own kind |
| SafeQueue.SafeQueue.Push | consumer_bo/safe_queue.h:15-23 | one pass under the mutex: appends exactly if there is room, else changes nothing |
| SafeQueue.SafeQueue.Pop | consumer_bo/safe_queue.h:25-36 | one pass under the mutex: takes the oldest element exactly if there is one |
| QueueProtocol.InvStep | consumer_bo/safe_queue.h:15-36 | every step of every thread (call, lock, test, late notify, spurious wake-up) keeps the queue's contents, its bound, mutual exclusion and the account of owed wake-ups |
| QueueProtocol.QueueIsFifo | consumer_bo/safe_queue.h:15-36 | in every reachable state, popped followed by queued is pushed, and the bound holds |
| QueueProtocol.PopperTakesFront | consumer_bo/safe_queue.h:30-35 | a popper that finds an element leaves with the front one, and the queue loses that one only |
| QueueProtocol.CarriedIsPopped | consumer_bo/safe_queue.h:25-36 | over every run, the items that the poppers carry away, in lock order, are exactly those that left the queue |
| QueueProtocol.ReturnedIsCarried | consumer_bo/safe_queue.h:25-36 | over every run, the calls of a popper return what it took under the mutex, in order, but for the one under way |
| QueueProtocol.AppendedIsOffered | consumer_bo/safe_queue.h:15-23 | over every run and with any number of threads, what a pusher has put at the end of the queue is what it was called with, in order, but for an item it still holds |
| QueueProtocol.NoLostWakeup | consumer_bo/safe_queue.h:15-36 | while a popper sleeps there are no more elements than pending notifications and woken poppers; dually for pushers and free slots |
| QueueProtocol.SomeStepIsEnabled | consumer_bo/safe_queue.h:15-36 | a thread inside the queue that is not asleep never leaves the system stuck |
| QueueProtocol.RestIsJustified | consumer_bo/safe_queue.h:15-36 | when no thread can move, poppers sleep only on an empty queue and pushers only on a full one, and both kinds only if the capacity is zero |
| QueueProtocol.ComesToRest | consumer_bo/safe_queue.h:15-36 | left alone, the threads take a bounded number of steps, however they are scheduled |
| QueueProtocol.PoppedIsPrefixOfOffered | consumer_bo/safe_queue.h:15-36 | with one pushing thread, elements leave in the order in which they were handed to `push` |
| QueueProtocol.AllTakenAtRest | consumer_bo/safe_queue.h:15-36 | with one pushing thread, once nothing can move and a popper waits, everything offered has been popped |
| Changes.RowObjectIsRow | producer_azs/postgresql_replicator.cpp:429-436 | with distinct column names the handler's object maps each name to its value and holds nothing else |
| Changes.KeyIndexFrom | producer_azs/postgresql_replicator.cpp:575-594 | the key column is the first flagged one the row has, else the first column if the row has it, else none; it is always a member of the row |
| Changes.KeyByFlags | producer_azs/postgresql_replicator.cpp:575-594 | for columns with the flags that occur, 0 and 1: the first column with flag 1 that the row has gives the routing key, else the first column if the row has it, else there is none |
| Changes.FlaggedIdRoutes | producer_azs/postgresql_replicator.cpp:575-594 | concrete input: of a column without a flag and a flagged one behind it, the flagged one routes the row |
| Changes.WriteStringInjective | producer_azs/postgresql_replicator.cpp:580-581 | two texts are routed alike if and only if they are equal (escapes of control characters and non-ASCII bytes aside) |
| Changes.JsonStringReads | producer_azs/postgresql_replicator.cpp:580-581 | the text of a routing key is a JSON string that reads back as the value, whatever stands behind it |
| Effects.RowsAreCarried | consumer_bo/replication_consumer.h:88-113 | operation, table and every row object reach the writer as the handler built them: each column name with its value and nothing else |
| Effects.RowIsRoutedByKey | producer_azs/postgresql_replicator.cpp:575-594 | a full row is routed by the value of its first flagged column (or of its first column) |
| Convergence.RowKeepsItsRoute | producer_azs/postgresql_replicator.cpp:440-441 | a row's INSERT, its DELETE under either image and an UPDATE that keeps the key have the same routing key and primary column |
| Replicator.PostgresqlReplicator.FillRow | producer_azs/postgresql_replicator.cpp:429-436 | the loop over the values builds the row's object, or runs past the columns |
| Replicator.PostgresqlReplicator.ExtractKeyOf | producer_azs/postgresql_replicator.cpp:575-594 | the search loop computes `ExtractKey` |
| Replicator.PostgresqlReplicator.HandleMessage | producer_azs/postgresql_replicator.cpp:391-410 | what is sent for a message is what `Handle` says, and nothing on an error; TRUNCATE aside |
| Replicator.PostgresqlReplicator.BuildReply | producer_azs/postgresql_replicator.cpp:327-365 | the buffer filled field by field is the 34-byte status update |
| Replicator.PostgresqlReplicator.SendStandbyStatusUpdate | producer_azs/postgresql_replicator.cpp:319-375 | without a connection nothing happens; else restart moves to applied, and one reply goes out unless sending it fails |
| Replicator.PostgresqlReplicator.ParsePacket | producer_azs/postgresql_replicator.cpp:224-317 | one packet is one step of the state machine, failing midway included |
| Replicator.PostgresqlReplicator.ReadReplicationMessages | producer_azs/postgresql_replicator.cpp:168-206 | the read loop is a run of the state machine over the packets and timeouts ahead of the first read error, which ends it |
| Acknowledgement.ReplyDecodes | producer_azs/postgresql_replicator.cpp:327-365 | the status update reads back, per section 53.4 of the PostgreSQL 17 documentation, as the three positions and the clock |
| Acknowledgement.RepliesAreTold | producer_azs/postgresql_replicator.cpp:319-375 | over every run, each reply has the position handled by then in all three fields, wherever restart was before, the clock of its event, and asks for no answer |
| Acknowledgement.RunIsTold | producer_azs/postgresql_replicator.cpp:224-375 | every run, told from its packets alone: the relations known, the received, applied and restart positions, and the sequence of acknowledged positions |
| Acknowledgement.SentIsTold | producer_azs/postgresql_replicator.cpp:249-317 | every run hands to Kafka the records of the packets that decode and fit, in order, and none for other packets or for rows of unknown relations |
| Acknowledgement.PositionsOrdered | producer_azs/postgresql_replicator.cpp:224-375 | whatever positions the packets carry: acknowledged positions never decrease if and only if those handled at the status updates rise; applied is at most received if and only if the last packet is not behind the last handled one; restart is at most applied if and only if what was handled at the last report is not ahead of what is handled now, or, without a report, the configured position has been reached |
| Acknowledgement.RiseIfConnected | producer_azs/postgresql_replicator.cpp:224-375 | with the connection up throughout, that is if and only if the positions of the handled packets rise |
| Acknowledgement.RisingIsOrdered | producer_azs/postgresql_replicator.cpp:224-375 | assuming positions that never fall back: applied is at most received, acknowledged positions never decrease, and restart is at most applied if and only if the configured position has been reached or some keepalive, timeout or handled packet met a connection; until then it is the configured one |
| Acknowledgement.RestartFallsBehindConfigured | producer_azs/postgresql_replicator.cpp:149-150 | concrete input: a keepalive after a start from position 5 acknowledges 0 |
| Acknowledgement.AcknowledgementIsSafe | producer_azs/postgresql_replicator.cpp:249-317 | over every run, each data packet at or below an acknowledged position was handled if and only if no status update goes out at or beyond the position of a packet that does not decode or whose tuple is wider than its relation |
| Acknowledgement.AcknowledgedInTime | producer_azs/postgresql_replicator.cpp:249-317 | over every run, as soon as a position is acknowledged each data packet of the run at or below it has come and been handled, if and only if, besides, no packet comes at or below a position that a status update has gone out at |
| Acknowledgement.SecondAtAcknowledged | producer_azs/postgresql_replicator.cpp:255-301 | concrete input: of two packets at position 1, the reply to the first acknowledges the second |
| Acknowledgement.SafeIfRising | producer_azs/postgresql_replicator.cpp:249-317 | if positions never fall back, that is a condition on three packets: the one that cannot be handled, a handled one at or beyond it, and a status update |
| Acknowledgement.WellFormedIsSafe | producer_azs/postgresql_replicator.cpp:249-317 | if every packet is a well-formed message of a handled type, no packet fails and everything acknowledged was handled |
| Production.HistoryIsAcknowledgedSafely | producer_azs/postgresql_replicator.cpp:249-317 | for the packets of every valid history, everything acknowledged was handled, after every prefix of the run |
| Acknowledgement.OvertakenFailureIsAcknowledged | producer_azs/postgresql_replicator.cpp:283-301 | concrete input: one reply goes out, it acknowledges 2, and the packet at 1 failed |
| Members.Sorted | consumer_bo/database_writer.cpp:103-103 | member names come once each, in ascending order, so the separately built lists align |
| Effects.SelectedByColumn | consumer_bo/database_writer.cpp:177-187 | a row is selected by the record's key column, or else by its first member in byte order |
| Members.AtMostIsByteOrder | consumer_bo/database_writer.cpp:103-103 | one name is not above another if and only if it is a prefix of it or has the lower byte where they first differ |
| WriterSql.InsertReadsBack | consumer_bo/database_writer.cpp:118-159 | INSERT reads back as the same table, names in order and values if and only if the table is an identifier, names have no double quote, no value is a boolean and there is a member |
| WriterSql.BooleanReadsAsInteger | consumer_bo/database_writer.cpp:150-152 | failing value: `true`, in any table and column, is read as the integer 1 |
| WriterSql.WrittenValuesTellApart | consumer_bo/database_writer.cpp:135-157 | two values print alike if and only if they are equal once booleans are taken for 1 and 0 |
| WriterSql.CreateReadsBack | consumer_bo/database_writer.cpp:98-116 | CREATE TABLE reads back as the same columns and types if and only if table and names are plain and there is a member |
| WriterSql.DeleteReadsBack | consumer_bo/database_writer.cpp:232-246 | DELETE reads back as meant if and only if the table is an identifier, the column has no double quote and the key value no single quote |
| WriterSql.UpdateNeverReads | consumer_bo/database_writer.cpp:190-218 | no UPDATE of a table with a plain name and columns without double quotes is a statement, whatever the values and the key are: the server refuses it at the table or at the first assignment |
| WriterSql.UpdateIsNeverIntended | consumer_bo/database_writer.cpp:190-218 | no UPDATE at all, whatever names and values it is built from, reads as the assignments and the condition it is built from |
| WriterSql.UnnamedTableNeverReads | consumer_bo/database_writer.cpp:101-248 | for a table name that is a number or a reserved word, none of the four texts is a statement, and the server refuses each at the name |
| WriterSql.OrderIsNoTable | consumer_bo/database_writer.cpp:159-159 | concrete input: `order`, in either case, is no table name |
| WriterSql.UpdateWouldReadBack | consumer_bo/database_writer.cpp:175-218 | a corrected text, not the one that is built: with the equals signs in place it would read back as the intended UPDATE, if and only if table, names and key value are plain and there is a member |
| WriterSql.TextsWordForWord | consumer_bo/database_writer.cpp:98-248 | the four texts, word for word, whatever table, members and key go into them |
| WriterSql.SelectedBy | consumer_bo/database_writer.cpp:187-187 | the selecting text is a string itself, the JSON text of another value, and empty for NULL or no member |
| WriterSql.OneTextWritten | consumer_bo/database_writer.cpp:118-218 | INSERT and UPDATE of one text or NULL, word for word |
| WriterSql.TextColumnCreated | consumer_bo/database_writer.cpp:98-116 | concrete input: the CREATE TABLE for a text in column `k` of table `t` |
| WriterSql.OneColumnCreated | consumer_bo/database_writer.cpp:76-116 | the CREATE TABLE for one column, word for word: TEXT for strings and NULL, BOOLEAN, and INTEGER or BIGINT by the 32-bit range |
| Replica.DatabaseWriter.BuildInsert | consumer_bo/database_writer.cpp:118-159 | the loop with its first-member flag builds `InsertText` |
| Replica.DatabaseWriter.BuildCreate | consumer_bo/database_writer.cpp:98-116 | the loop with its first-member flag builds `CreateText` |
| Replica.DatabaseWriter.BuildAssigns | consumer_bo/database_writer.cpp:190-216 | the loop builds the SET clause as it is written |
| Replica.DatabaseWriter.CreateTableIfNotExists | consumer_bo/database_writer.cpp:41-74 | the table afterwards; the catalogue query is case-sensitive against the folded name and, naming no schema, also finds the views of `information_schema` |
| Replica.DatabaseWriter.InsertRow | consumer_bo/database_writer.cpp:118-173 | the replica and the result after an INSERT |
| Replica.DatabaseWriter.UpdateRow | consumer_bo/database_writer.cpp:175-230 | the replica and the result after an UPDATE, an error step when there is no column to select by |
| Replica.DatabaseWriter.DeleteRow | consumer_bo/database_writer.cpp:232-261 | the replica and the result after a DELETE, an error step when there is no column to select by |
| Replica.DatabaseWriter.HandlerIncomingData | consumer_bo/database_writer.cpp:263-289 | the replica and the result after one message of any operation |
| Replica.ReplicationConsumer.SaveIntoQueue | consumer_bo/replication_consumer.h:88-118 | a record enters the queue as its message, exactly if there is room |
| Replica.ReplicationConsumer.LoadFromQueue | consumer_bo/replication_consumer.h:120-124 | the oldest message leaves the queue and is applied to the replica |
| Effects.CreateExecuted | consumer_bo/database_writer.cpp:52-116 | after CREATE TABLE the table stands under its folded name with a column of the member's type for each member; an existing one is untouched |
| Effects.ValueSuitsItsColumn | consumer_bo/database_writer.cpp:76-157 | every value but a boolean is taken by the column created for it, as it is written; a boolean is refused by its column; a column created for NULL takes every text |
| Effects.FirstRowArrives | consumer_bo/database_writer.cpp:52-173 | the first row of a new table, of any kinds of values, is stored as it is if and only if none is a boolean; otherwise the table stays empty and the call reports failure |
| Effects.InsertEffect | consumer_bo/database_writer.cpp:118-173 | an INSERT record of a plain relation (its name neither reserved nor one of the server's catalogue), from tuple to executed statement, adds exactly its row to text columns, creates the table if it is missing, and reports success |
| Effects.UpdateEffect | consumer_bo/database_writer.cpp:175-230 | an UPDATE record of a plain relation never changes the replica nor reports success, whichever tuples it was made of |
| Effects.UnnamedTableStaysAway | consumer_bo/database_writer.cpp:263-289 | no record of a table whose name the server takes for something else ever changes the replica |
| Effects.CataloguedTableStaysAway | consumer_bo/database_writer.cpp:41-74 | no insertion or update of a table named like a view of the catalogue reaches an empty replica |
| Effects.DeleteEffect | consumer_bo/database_writer.cpp:232-261 | a DELETE record whose key value stays inside its quotes removes, on every server, from an existing table exactly the rows with the struck text in the key column, creates none, and reports success if and only if there is a table and a struck text |
| Effects.NothingToExecute | consumer_bo/database_writer.cpp:263-289 | a message of another operation, or an UPDATE or DELETE without a column to select by, leaves the replica alone and reports failure |
| Effects.StruckIsUndoubled | consumer_bo/database_writer.cpp:246-246 | an unescaped key value strikes by a text if and only if it is that text with its single quotes doubled |
| Effects.BreaksOutOrStaysInside | consumer_bo/database_writer.cpp:246-246 | a key value leaves its quotes if and only if it is a text with its single quotes doubled, then a single quote, then something that does not begin with one |
| Effects.BrokenDeleteIsLeftToServer | consumer_bo/database_writer.cpp:246-248 | for such a key value (a comma behind the quote excepted) the text is not the DELETE of any key: its effect is whatever the server makes of it |
| Production.ChangeIsProduced | producer_azs/postgresql_replicator.cpp:391-569 | the packet of any change that can happen decodes, is handled, and yields exactly the change's record; the cache keeps knowing the described relations |
| Production.HistoryIsProduced | producer_azs/postgresql_replicator.cpp:168-317 | for every valid history, with keepalives and timeouts in between, exactly its records are handed to Kafka, in order, and no packet fails |
| Convergence.ChangeMirrors | consumer_bo/database_writer.cpp:118-289 | if the replica mirrors the source before a change whose removed key, if any, stays inside its quotes, it does so afterwards if and only if the change is faithful |
| Convergence.ConvergesExactlyIfFaithful | consumer_bo/database_writer.cpp:118-289 | for every valid history whose removed keys stay inside their quotes, on every server, the replica equals the rendered source tables after every prefix if and only if each change is faithful where it happens |
| Convergence.ConvergesOnEveryServer | consumer_bo/database_writer.cpp:118-289 | for every valid history, whatever its keys: the replica equals the rendered source tables after every prefix, on all servers, if and only if each change is faithful |
| Convergence.UnnamedNeverArrives | consumer_bo/database_writer.cpp:101-248 | whatever happens to tables whose names the server takes for something else, the replica stays empty |
| Convergence.CataloguedNeverArrives | consumer_bo/database_writer.cpp:41-74 | whatever happens to tables named like views of the catalogue, the replica stays empty (if there are removals, on a server that makes no table of other texts) |
| FailingInputs.UpdateIsLost | consumer_bo/database_writer.cpp:198-198 | concrete input: one row and one update of it, and the replica does not follow |
| FailingInputs.QuotedRemovalIsLost | consumer_bo/database_writer.cpp:246-246 | concrete input: one row whose key is a single quote, its removal, and the replica keeps it |
| FailingInputs.SharedKeyRemovesBoth | consumer_bo/database_writer.cpp:246-248 | concrete input: NULL and the text `NULL` share a key text, and removing one row removes both |
| FailingInputs.ReservedTableIsLost | consumer_bo/database_writer.cpp:101-159 | concrete input: one row of a table called `order`, and the replica stays empty |
| FailingInputs.CataloguedTableIsLost | consumer_bo/database_writer.cpp:43-58 | concrete input: one row of a table called `columns`, and the replica stays empty |
| IntendedPipeline.IntendedPipelineConverges | consumer_bo/database_writer.cpp:175-289 | as meant, with old tuples decoded and equals signs in place: the replica mirrors the source of every history whose removals and updates find their row by a key text of its own, updates with their old tuple and all values sent |
| IntendedPipeline.MeantIsHandled | producer_azs/postgresql_replicator.cpp:448-494 | the record of an update as meant is what the handler makes of the message as the format intends it |
| IntendedPipeline.UpdateWithoutOldFindsNothing | consumer_bo/database_writer.cpp:180-187 | even as meant, an UPDATE whose message has no old tuple selects by the empty text, and changes nothing unless a row has the empty key |
| IntendedDelivery.AnyDeliveryConvergesAsMeant | producer_azs/producer_librdkafka.cpp:60-97 | as meant, if updates keep the key text besides, the replica mirrors the source however the logs of different keys are interleaved |
| IntendedDelivery.ChangedKeyBreaksOrder | producer_azs/postgresql_replicator.cpp:448-494 | as meant, every update that changes its row's key is routed apart from the row's insertion, and their order matters |
| Logs.IndependentExactlyIfCommuting | producer_azs/producer_librdkafka.cpp:60-97 | a set of records gives the same state in every order that keeps each key's log, records with the empty key in no order at all, if and only if the pairs that are not kept in order commute; for any step on any state |
| Delivery.RecordIsWritten | consumer_bo/database_writer.cpp:118-289 | a record, a removal's key value staying inside its quotes, touches the rows of its own table only, and only an INSERT creates a table |
| Delivery.IndependentExactlyIfUncrossed | producer_azs/postgresql_replicator.cpp:575-594 | records of full rows whose removed keys stay inside their quotes are order independent, on every server, if and only if no DELETE's key value is the quote-doubled, different key value of an INSERT into the same table |
| Delivery.BrokenKeyMayBreakOrder | consumer_bo/database_writer.cpp:246-248 | a removed key that leaves its quotes (no comma following) and any insertion, of whatever key and table, give different replicas in their two orders on a server that takes the text for a DELETE of all rows |
| FailingInputs.QuotedKeyBreaksOrder | consumer_bo/database_writer.cpp:246-246 | concrete input: a pair of differently routed records whose order matters |
| FailingInputs.BrokenKeyBreaksOrder | consumer_bo/database_writer.cpp:246-248 | concrete input: the removed key `x' OR 'a'='a` and the inserted key `y` |
| Delivery.AnyDeliveryConverges | producer_azs/producer_librdkafka.cpp:60-97 | a faithful history ends in a mirroring replica however the logs of different keys are interleaved |
| PartialDelivery.PartialDeliveryShowsPrefixes | producer_azs/producer_librdkafka.cpp:60-97 | whatever part of a faithful history is delivered, in whatever interleaving of its keys' logs, the replica's rows with a key are the source's after some prefix |
| EndToEnd.AlwaysSomePrefix | consumer_bo/replication_consumer.h:67-124 | delivered in order, a faithful history leaves the replica, in every reachable state of the consumer's threads, equal to the source after some prefix |
| EndToEnd.AlwaysSomePrefixOfKey | consumer_bo/replication_consumer.h:67-124 | delivered with only the order of equal keys kept, the same holds key by key, in every reachable state |
| EndToEnd.PipelineConverges | consumer_bo/replication_consumer.h:67-124 | packets, producer, per-key ordered delivery, queue threads and writer together: once the consumer has come to rest, what the writer has executed makes the replica equal to the source |
| ConfigManager.ConfigManager.Load | producer_azs/config_manager.cpp:28-66 | the line loop with its skips computes `Loaded` over the file's lines |
| ConfigManager.ConfigManager.ParseLsn | producer_azs/config_manager.cpp:81-93 | both halves as `stoul` reads them, cut to 32 bits; zeros without a slash; an exception when a half is no number |
| ConfigManager.EntryRoundTrip | producer_azs/config_manager.cpp:38-64 | a printed entry loads back if and only if key and value are trimmed and the key is not empty, has no equals sign and no leading hash |
| ConfigManager.TrimCutsBlanks | producer_azs/config_manager.cpp:47-61 | exactly the blanks at both ends are cut off |
| ConfigManager.EntryWithBlanks | producer_azs/config_manager.cpp:40-64 | blanks around key and value do not count, and a line with a blank key gives nothing |
| ConfigManager.SkippedLines | producer_azs/config_manager.cpp:38-45 | comments and lines without an equals sign give nothing |
| ConfigManager.LastLine | producer_azs/config_manager.cpp:37-38 | a last line without a newline is a line like the others |
| ConfigManager.LinesRoundTrip | producer_azs/config_manager.cpp:37-38 | printed lines come back if and only if none contains a newline |
| ConfigManager.LoadRoundTrip | producer_azs/config_manager.cpp:28-66 | a file of plain entries loads as the map in which every key has the value of its last entry |
| ConfigManager.LsnRoundTrip | producer_azs/config_manager.cpp:81-93 | parsing undoes the decimal printing for all pairs of 32-bit halves |
| ConfigManager.StoulReads | producer_azs/config_manager.cpp:91-92 | what `stoul` makes of every text: space is skipped, a sign counts, digits are taken as far as they go, and there is no number without a digit or beyond 64 bits |
| ConfigManager.ParsedHalves | producer_azs/config_manager.cpp:81-93 | two numbers around a slash are cut to 32 bits each; no slash gives zeros, and a half that is no number an exception |
| ConfigManager.ServerReadsPosition | producer_azs/postgresql_replicator.cpp:149-155 | the server takes the printed position for the one that was meant if and only if both halves are below ten, if it rejects a half of more than eight digits |
| ConfigManager.TenIsSixteen | producer_azs/postgresql_replicator.cpp:149-151 | concrete input: the printed 0/10 is the server's position 16 |

## Left out

- TRUNCATE: the message's offset is never set, its relation ids are not consumed, and the consumer ignores the operation.
- PgOutput.PgOutputParser.ParseMessage: gives no message for a Truncate, because that message is left out.
- Replicator.PostgresqlReplicator.HandleMessage: has no case for TRUNCATE, because that message is left out.
- WireTheorems.BeginRoundTrip: does not recover the xid, which the code takes in host byte order and does not hand out.
- WireTheorems.MessageRoundTrip: does not cover an Update whose first tuple has 20224 to 20479 columns, because the code decodes it otherwise; `UpdateDecodedAsIntended` says how.
- WireTheorems.UpdateDecodedAsIntended: says nothing of an Update with an old tuple of 20224 to 20479 columns for a relation that is not cached, because the handler drops it either way.
- WriterSql.UpdateNeverReads: requires a plain table name and column names without double quotes, because other names can complete the text to a statement; `UpdateIsNeverIntended` has no such condition.
- WriterSql.UpdateWouldReadBack: is about a corrected text the code does not build.
- Replica.DatabaseWriter.CreateTableIfNotExists: of the schemas besides the writer's own, the query finds `information_schema` only; names that begin with `pg_` are shut out of the theorems (`IsSystemName`), and tables of further schemas would need a model of the search path.
- Effects.DeleteEffect: says nothing of a key value that leaves its quotes, because what that text does is the server's business.
- Convergence.ConvergesExactlyIfFaithful: requires removed keys that stay inside their quotes, or a server that does nothing with other texts; `ConvergesOnEveryServer` has no such condition.
- Delivery.IndependentExactlyIfUncrossed: requires the same of a pool's removals; what else can happen is `BrokenKeyMayBreakOrder`.
- ConfigManager.ServerReadsPosition: assumes that the server rejects a half of more than eight digits; one that keeps the low 32 bits would take 2182104640 to 2182104649 for themselves.
- IntendedPipeline.IntendedPipelineConverges: goes one way, because it is about a pipeline the code is not.
- Streamed, prepared, Type, Origin and Message messages and binary column values: the parser does not handle them.
- The namespace of a relation: decoded, but a record's schema field repeats the table name, and the consumer reads no schema at all.
- Timestamps, log output, statistics and sleeps; the clock is a parameter of the status update.
- libpq and librdkafka: connections, slots and publications, retries, delivery reports, offset commits. Kafka is per-key ordered logs; no claim is made about records it loses or repeats.
- JSON text: records are finite maps. Of the text only what routing needs is modelled: it tells different strings apart (control characters and non-ASCII bytes are not escaped in the model).
- Doubles, arrays and nested objects as row values: the producer writes strings only.
- The rest of the server's SQL: a text outside the four statement forms is left to the `Server` parameter, unless the server's parser must stop in it: at the name of the table, at an assignment without an equals sign, or in a literal without an end. Literals are those of `standard_conforming_strings`, texts have no NUL byte, identifiers are ASCII letters, digits and underscores, and a table without columns has no CREATE.
- The rest of the server's types: of the four that are created it is known which values they take as they are and which on no server; types besides, conversions and conditions on other columns than TEXT are the `Server` parameter's.
- The buffer of `escapeString` and `PQescapeStringConn`'s encodings: escaping is quote doubling.
- Schema changes in mid-stream, keys of several columns, tables whose folded names collide, tables named like one of the server's catalogue, column names with a double quote: preconditions of the convergence theorems (`GoodSchema`, `PlainRelation`).
- Destruction and shutdown of the threads, and the Kafka thread between `consume` and `saveIntoQueue`.
- Starvation: `ComesToRest` bounds the threads' own steps between calls and spurious wake-ups; fairness among sleepers of one kind is up to the library.
