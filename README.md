# Traction Rec import: command sequencing and clean-up, in Dafny

This project models two parts of the `openy_traction_rec_import` Drupal module.

The first part is the Drush commands around the import (`DrushCommands.php`):

- `import` runs a chain of guards around the importer's lock: enabled, then take the lock, then migrations healthy, then at least one JSON directory. It then calls `directoryImport` for each directory and releases the lock.
- `resetLock` frees the lock.
- `flushSessions` deletes every node of the `session` bundle.
- `fetch` runs the Traction Rec fetcher.
- `addCleanUpToQueue` and `addSyncActionToQueue` put items on the import queue.

The importer, the fetcher, the queue and the node storage are collaborators whose code is not part of this model. Each is an object whose answers are fields set before a command runs:

- `Importer.enabled`, `Importer.migrationsOk`, `Importer.directories`: the answers of `isEnabled`, `checkMigrationsStatus` and `getJsonDirectoriesList`.
- `Importer.failing`: the directories whose `directoryImport` throws.
- `Fetcher.throwing`: the fetch steps that throw.

Commands that change state are class methods. Each method is proved against a pure description, and the properties are proved about those descriptions. For `import` that description is `Commands.RunImport`.

The second part is the cleaner (`Cleaner.php`):

- `cleanBackupFiles` runs the shell pipeline `ls -t | tail -n +(L+1) | xargs rm -rf`. The model describes what the pipeline selects. The folder listing is given in name order without dot entries, as `ls` lists it without `-a`. `ls -t` is then a stable sort of that listing, newest first, so entries with equal times stay in name order. `tail -n +k` keeps the lines from the k-th on; `+0` and `+1` keep every line, and a negative count is refused, so nothing is kept. Entries that `rm` cannot remove are an input. Any such entry makes the pipeline fail, and that failure is logged as a warning.
- `deleteOrphanedParagraphs` selects up to `limit` ids of paragraphs whose parent id and parent type are both NULL. It splits them with `array_chunk(…, 50)` and deletes them from the paragraph storage chunk by chunk. An exception ends the loop and is caught. The model names where the exception happens with a `Fault`: nowhere, in the query, or in chunk k. The paragraph table is a sequence of rows in the order the database returns them. The properties about what a sweep leaves assume one row per paragraph id (see "## Left out").

## Where the code and the design intent differ

The model follows the code as written:

- The lock that `import` takes is released only after the directory loop completes. Three exits leave it held until an operator runs `reset-lock`: migrations running or stuck (DrushCommands.php:144-149), nothing to import (DrushCommands.php:153-157), and an exception from `directoryImport` (there is no `try`/`finally`). The design intent is that the lock is released on every exit. `Commands.RunImport`, `Commands.LeakedLockNeedsReset` and `Commands.HeldLockBlocksImports` state the code's behaviour.
- An exception from `directoryImport` is not caught. The loop stops at that directory and the exception escapes `import`. The later directories are not attempted. The design intent is that a failing directory is logged and the loop continues.
- The `--limit` option of `db-clean-up` is documented as defaulting to 10000 (DrushCommands.php:234), but the command declares no default for it. `cleanDatabase` has its own default of 5000 (Cleaner.php:106). That default applies only to a caller that omits the argument, and `databaseCleanUp` never omits it: it always passes `$options['limit']` (DrushCommands.php:240). So neither 10000 nor 5000 is what the command uses when `--limit` is not given. It passes NULL on to the query's `range(0, NULL)`, whose behaviour is not part of this model. `Cleaning.Cleaner.CleanDatabase` models the method itself: `None` stands for an omitted argument and gives 5000.
- The backup limit is any integer, and the code does not check it. A limit of 0 or -1 becomes `tail -n +1` or `tail -n +0`, which pass every entry to `rm`, so the whole folder is removed. A limit of -2 or less becomes a negative count such as `tail -n +-1`, which `tail` refuses. Nothing then reaches `rm`. `xargs` still runs `rm -rf` once with no operand, which succeeds, so no warning is logged. `Cleaning.RefusedLimitRemovesNothing` states this case.

## Model

| member | source | states |
|---|---|---|
| Common.FirstThrowing | modules/openy_traction_rec_import/src/Commands/DrushCommands.php:159-161 | the loop stops at the first step that throws: every earlier step succeeds, the step at the returned position throws, and the position is the length exactly when no step throws |
| Common.Attempted | modules/openy_traction_rec_import/src/Commands/DrushCommands.php:159-161 | the steps started form a prefix of the list; it is the whole list when none throws; otherwise it ends at a throwing step and every step before that one succeeded |
| Common.AttemptedUnique | modules/openy_traction_rec_import/src/Commands/DrushCommands.php:291-296 | any prefix that ends at the first throwing step is the attempted prefix |
| Commands.ImportCalls | modules/openy_traction_rec_import/src/Commands/DrushCommands.php:159-160 | one `directoryImport` call per directory, in list order, each with that directory and the command's options |
| Commands.RunImport | modules/openy_traction_rec_import/src/Commands/DrushCommands.php:129-167 | returns TRUE exactly when the directory loop is reached and no directory import throws; throws exactly when the loop is reached and one does; every other exit returns FALSE. Before the loop no directory is imported. In the loop, each directory up to the first throwing one is imported once, in list order, with the same options. The lock is held afterwards exactly when it was held before, or when this run took it and did not return TRUE. So a disabled importer leaves the lock untouched, and a failed acquire leaves another run's lock held. Nothing else changes |
| Commands.HeldLockBlocksImports | modules/openy_traction_rec_import/src/Commands/DrushCommands.php:137-142 | while the lock is held, any number of further imports change nothing |
| Commands.LeakedLockNeedsReset | modules/openy_traction_rec_import/src/Commands/DrushCommands.php:144-157 | the stuck-migrations and nothing-to-import exits return FALSE with the lock held; the next import is refused; after a lock reset the same import behaves as on a free lock |
| Commands.Importer.AcquireLock | modules/openy_traction_rec_import/src/Commands/DrushCommands.php:137 | succeeds exactly when the lock was free; the lock is held afterwards |
| Commands.Importer.ReleaseLock | modules/openy_traction_rec_import/src/Commands/DrushCommands.php:163 | the lock is free afterwards |
| Commands.Importer.DirectoryImport | modules/openy_traction_rec_import/src/Commands/DrushCommands.php:160 | logs one call with this directory and these options; throws exactly for the failing directories |
| Commands.Fetcher.Run | modules/openy_traction_rec_import/src/Commands/DrushCommands.php:292-294 | logs the step; throws exactly for the throwing steps |
| Commands.DrushCommands.constructor | modules/openy_traction_rec_import/src/Commands/DrushCommands.php:93-110 | the command object holds the given importer, fetcher, queue and node store |
| Commands.DrushCommands.Import | modules/openy_traction_rec_import/src/Commands/DrushCommands.php:129-167 | the exit and the importer's new state are those of `RunImport` on its old state |
| Commands.DrushCommands.ResetLock | modules/openy_traction_rec_import/src/Commands/DrushCommands.php:209-212 | the lock is free afterwards, whatever its state before; nothing else of the importer changes |
| Commands.DrushCommands.FlushSessions | modules/openy_traction_rec_import/src/Commands/DrushCommands.php:193-202 | the node store loses exactly its session nodes; `delete` is called once, with those ids, only when there is at least one |
| Commands.SessionIds | modules/openy_traction_rec_import/src/Commands/DrushCommands.php:196 | the query finds exactly the ids of the stored nodes of the `session` bundle |
| Commands.FlushKeepsOthers | modules/openy_traction_rec_import/src/Commands/DrushCommands.php:193-202 | after the flush a node is present exactly when it was present and is not a session; each kept node is unchanged; a second flush finds nothing |
| Commands.DrushCommands.Fetch | modules/openy_traction_rec_import/src/Commands/DrushCommands.php:250-257 | returns FALSE and fetches nothing when the fetcher is disabled; otherwise runs one full fetch, whose exception escapes |
| Commands.DrushCommands.AddCleanUpToQueue | modules/openy_traction_rec_import/src/Commands/DrushCommands.php:267-273 | appends exactly one clean-up item to the queue |
| Commands.DrushCommands.AddSyncActionToQueue | modules/openy_traction_rec_import/src/Commands/DrushCommands.php:285-308 | disabled fetcher: returns FALSE and changes nothing. Enabled fetcher: the three fetches run in order until one throws, and the exception is caught. One sync item naming the fetcher's JSON directory is appended exactly when none threw |
| Cleaning.TiesKeepListingOrder | modules/openy_traction_rec_import/src/Cleaner.php:89 | for every modification time, the entries with that time appear in the `ls -t` order exactly as in the folder listing, so `ls -t` is a stable sort |
| Cleaning.InsertKeepsTies | modules/openy_traction_rec_import/src/Cleaner.php:89 | inserting an entry puts it before the entries of equal time already listed, and keeps their order |
| Cleaning.InsertByMtime | modules/openy_traction_rec_import/src/Cleaner.php:89 | inserting into a newest-first list keeps it newest first and adds exactly the one entry |
| Cleaning.ListByMtime | modules/openy_traction_rec_import/src/Cleaner.php:89 | the `ls -t` order is newest first and is a permutation of the folder listing |
| Cleaning.NewestFirstPairwise | modules/openy_traction_rec_import/src/Cleaner.php:89 | in a newest-first list, every entry is at least as new as every later one |
| Cleaning.NewestFirstSplit | modules/openy_traction_rec_import/src/Cleaner.php:89-91 | cutting a newest-first list leaves nothing in the back part newer than anything in the front part |
| Cleaning.TailFrom | modules/openy_traction_rec_import/src/Cleaner.php:91 | `tail -n +k` gives nothing for a negative k. Otherwise it gives a suffix of the lines: all of them for k = 0 or 1, and the last `n - (k - 1)` of them (none, if k - 1 >= n) for larger k |
| Cleaning.Retained | modules/openy_traction_rec_import/src/Cleaner.php:84-93 | the number of entries the pipeline keeps: min(limit, n) for a positive limit, 0 for a limit of 0 or -1, and all n for a limit below -1; never more than n |
| Cleaning.Doomed | modules/openy_traction_rec_import/src/Cleaner.php:84-93 | the entries handed to `rm` are newest first, are taken from the folder listing, and are `n - Retained(limit, n)` in number |
| Cleaning.Kept | modules/openy_traction_rec_import/src/Cleaner.php:84-93 | the entries the pipeline leaves are newest first, are taken from the folder listing, and are `Retained(limit, n)` in number |
| Cleaning.DoomedAfterNewest | modules/openy_traction_rec_import/src/Cleaner.php:84-93 | because the limit is incremented before `tail -n +`, the entries handed to `rm` are the `ls -t` list from position `limit` on. There are none when the folder holds at most `limit` entries. All of them go when the limit is 0 or -1. None go when the limit is below -1, since `tail` refuses the negative count |
| Cleaning.RetentionPartition | modules/openy_traction_rec_import/src/Cleaner.php:87-93 | the kept and the doomed entries together are exactly the folder listing, and `limit` entries are kept (all of them, if fewer) |
| Cleaning.KeptAreNewest | modules/openy_traction_rec_import/src/Cleaner.php:84-93 | no doomed entry is newer than a kept entry |
| Cleaning.Deletable | modules/openy_traction_rec_import/src/Cleaner.php:93-96 | `rm` removes exactly the doomed entries it can remove, each at most as often as it is listed |
| Cleaning.CleanBackupFiles | modules/openy_traction_rec_import/src/Cleaner.php:76-101 | removes nothing and warns of nothing outside the command line or with backups disabled. Otherwise it removes every doomed entry it can and nothing else. A warning is logged exactly when some doomed entry cannot be removed; the function always returns, so nothing is thrown |
| Cleaning.RefusedLimitRemovesNothing | modules/openy_traction_rec_import/src/Cleaner.php:84-99 | a limit below -1 removes nothing and logs no warning, because `tail` refuses the negative count and the pipeline's status is that of `xargs`, which succeeds |
| Cleaning.SweepKeepsNewest | modules/openy_traction_rec_import/src/Cleaner.php:81-100 | after any sweep, the `limit` newest entries are all still in the folder |
| Cleaning.OrphanIds | modules/openy_traction_rec_import/src/Cleaner.php:115-118 | an id is selected exactly when some row with that id has a NULL parent id and a NULL parent type; the ids are distinct when the table's ids are |
| Cleaning.SelectOrphans | modules/openy_traction_rec_import/src/Cleaner.php:115-120 | the query gives the first min(limit, number of orphans) orphan ids, and every one of them is an orphan's id |
| Cleaning.RemoveIds | modules/openy_traction_rec_import/src/Cleaner.php:128-129 | deleting by id never adds rows, and no surviving row has one of the deleted ids |
| Cleaning.RemoveIdsMembers | modules/openy_traction_rec_import/src/Cleaner.php:128-129 | a row survives a delete exactly when it was in the table and its id is not among the deleted ids |
| Cleaning.Chunks | modules/openy_traction_rec_import/src/Cleaner.php:127 | every chunk holds 1 to n ids, and every chunk but the last holds exactly n |
| Cleaning.ChunksCount | modules/openy_traction_rec_import/src/Cleaner.php:127 | there are ceil(count / 50) chunks of 50 |
| Cleaning.ChunksFlatten | modules/openy_traction_rec_import/src/Cleaner.php:127 | concatenating the chunks in order gives the selection back |
| Cleaning.ChunksPrefix | modules/openy_traction_rec_import/src/Cleaner.php:127-130 | the first k chunks of 50 hold exactly the first 50·k ids, or all of them |
| Cleaning.DeletedChunks | modules/openy_traction_rec_import/src/Cleaner.php:127-134 | the chunks deleted are a prefix of the chunks of the selection: all of them without an exception, none when the query throws, and the first min(k, number of chunks) when chunk k throws |
| Cleaning.DeletedIsSelectionPrefix | modules/openy_traction_rec_import/src/Cleaner.php:126-134 | the ids deleted form a prefix of the selection. It is all of it after a full run, the chunks before chunk k after an exception in chunk k, and nothing when the query throws. It is never more than `limit` ids |
| Cleaning.NonOrphansUntouched | modules/openy_traction_rec_import/src/Cleaner.php:115-130 | a paragraph with a parent id or a parent type is never deleted |
| Cleaning.RemainingOrphans | modules/openy_traction_rec_import/src/Cleaner.php:115-130 | deleting the first m orphan ids leaves exactly the other orphans, in order |
| Cleaning.OrphansAfterSweep | modules/openy_traction_rec_import/src/Cleaner.php:126-134 | the orphans left are exactly those after the deleted prefix; after an exception in chunk k, the ids of chunk k and of every later chunk are still present |
| Cleaning.TwoRunsClearOrphans | modules/openy_traction_rec_import/src/Cleaner.php:113-130 | with 120 orphans and a limit of 100, one run deletes two chunks and leaves 20 orphans; a second run deletes those 20 in one chunk and leaves none |
| Cleaning.ParagraphStorage.Delete | modules/openy_traction_rec_import/src/Cleaner.php:128-129 | the rows with the given ids are gone; the call is logged |
| Cleaning.Cleaner.constructor | modules/openy_traction_rec_import/src/Cleaner.php:65-71 | the cleaner holds the given paragraph storage |
| Cleaning.Cleaner.CleanDatabase | modules/openy_traction_rec_import/src/Cleaner.php:106-108 | runs the orphan sweep with the given limit, or with 5000 when none is given. The table loses exactly the ids of the chunks that sweep deletes, and the storage's `delete` log gains exactly those chunks, in order |
| Cleaning.Cleaner.DeleteChunks | modules/openy_traction_rec_import/src/Cleaner.php:127-134 | deletes the chunks in order, one `delete` call each, up to the chunk that throws |
| Cleaning.Cleaner.DeleteOrphanedParagraphs | modules/openy_traction_rec_import/src/Cleaner.php:113-135 | returns FALSE exactly when the query succeeds and finds no orphan, and NULL otherwise. The table loses exactly the ids of the chunks deleted before the sweep ends, and `delete` is called once per such chunk, in order |

## Left out

- `rollback` (DrushCommands.php:175-185): it forwards to the migrate_tools rollback, a foreign call, and catches its exception. Its only other effect is logging.
- `cleanUp` and `databaseCleanUp` (DrushCommands.php:222-242): they print a message and call `Cleaning.CleanBackupFiles` and `Cleaning.Cleaner.CleanDatabase`.
- The internals of the importer (`isEnabled`, `acquireLock`, `checkMigrationsStatus`, `getJsonDirectoriesList`, `directoryImport`) and of the fetcher's HTTP calls: the importer and the fetcher are not part of this model. Their answers are inputs. The lock is a single flag that `acquireLock` takes exactly when it is free.
- Cross-process atomicity of the lock: the model is sequential.
- Logger and console messages, and the construction of the shell command string.
- `Cleaning.CleanBackupFiles`: does not model a failure of `cd` or `ls`, or file names containing newlines. The folder listing is an input, taken to be in `ls`'s name order (as the locale collates) and without dot entries. The model does not check that order.
- `Cleaning.CleanBackupFiles`: does not model a failing `realpath` (Cleaner.php:83). It returns FALSE, the command then starts with a bare `cd`, which goes to the home directory and succeeds, and the sweep runs there. The model always sweeps the backup folder.
- `Cleaning.NonOrphansUntouched`, `Cleaning.RemainingOrphans`, `Cleaning.OrphansAfterSweep`, `Cleaning.TwoRunsClearOrphans`: they assume one row per paragraph id, that is, no translations. The queried table `paragraphs_item_field_data` holds one row per translation, so an id can be returned once per language. `Cleaning.Cleaner.DeleteOrphanedParagraphs` itself does not assume this, and deletes repeated ids as the code does.
- `Cleaning.Cleaner.DeleteOrphanedParagraphs`: does not model an exception part-way through one chunk's `delete`. A chunk is either deleted whole or not at all. Ids that `loadMultiple` does not find are skipped, which is what deleting by id does here.
- `Cleaning.Cleaner.CleanDatabase`: the limit is a natural number or absent. The other values `databaseCleanUp` can pass from `--limit` (NULL when the option is not given, a negative number, a non-numeric string) are not modelled, because their effect depends on the database layer's `range`, which is not part of this model.
- `Commands.DrushCommands.AddSyncActionToQueue`: `getJsonDirectory()` and `createItem()` sit inside the same `try` as the three fetches (DrushCommands.php:291-307). The model takes them not to throw, so the only exceptions it catches are those of the fetches.
- The settings form (`src/Form/TractionRecSettings.php`): configuration UI only.
