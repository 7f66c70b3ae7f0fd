/** The Drush commands of the Traction Rec import module: the guarded import
    run around the importer's lock, the operator's lock reset, the session
    flush, the fetch command and the two commands that put work on the import
    queue. The importer, the fetcher, the queue and the node storage are
    collaborators whose code is not part of this model; each is an object whose
    answers are fields fixed before the command runs. */
module Commands {
  import opened Common

  /** The `--sync` option of the import command. */
  datatype Options = Options(sync: bool)

  /** One call of the importer's `directoryImport`. */
  datatype ImportCall = ImportCall(directory: string, options: Options)

  /** What the import command sees of the importer: its enabled flag, whether
      the import lock is held, the answer of the migration status check, the
      JSON directories it lists, the directories whose import throws, and the
      log of `directoryImport` calls made so far. */
  datatype ImporterState = ImporterState(
    enabled: bool,
    locked: bool,
    migrationsOk: bool,
    directories: seq<string>,
    failing: set<string>,
    calls: seq<ImportCall>)

  /** The `directoryImport` calls made for `dirs`, in order, all with `options`. */
  function ImportCalls(dirs: seq<string>, options: Options): (cs: seq<ImportCall>)
    ensures |cs| == |dirs|
    ensures forall i :: 0 <= i < |dirs| ==> cs[i].directory == dirs[i] && cs[i].options == options
  {
    seq(|dirs|, i requires 0 <= i < |dirs| => ImportCall(dirs[i], options))
  }

  /** The import command gets past all of its guards and into the directory loop. */
  predicate ReachesLoop(s: ImporterState)
  {
    s.enabled && !s.locked && s.migrationsOk && s.directories != []
  }

  /** The import command as a function of the importer's state: its exit and
      the importer's state afterwards. */
  function RunImport(s: ImporterState, options: Options): (res: (Exit, ImporterState))
    // TRUE exactly when the loop was reached and no directory import threw;
    // an exception escapes exactly when one did; every other exit is FALSE
    ensures res.0 == ReturnedTrue <==> ReachesLoop(s) && NoneThrow(s.directories, s.failing)
    ensures res.0 == Threw <==> ReachesLoop(s) && !NoneThrow(s.directories, s.failing)
    ensures res.0 != ReturnedNull
    // before the loop no directory is imported; in it, each directory up to the
    // first throwing one is imported once, in list order, with the same options
    ensures !ReachesLoop(s) ==> res.1.calls == s.calls
    ensures ReachesLoop(s) ==>
              res.1.calls == s.calls + ImportCalls(Attempted(s.directories, s.failing), options)
    // the lock is held afterwards exactly when it was held before or this run
    // took it and did not get to release it
    ensures res.1.locked <==> s.locked || (s.enabled && res.0 != ReturnedTrue)
    // nothing else of the importer changes
    ensures res.1 == s.(locked := res.1.locked, calls := res.1.calls)
  {
    if !s.enabled then (ReturnedFalse, s)
    else if s.locked then (ReturnedFalse, s)
    else
      var held := s.(locked := true);
      if !s.migrationsOk then (ReturnedFalse, held)
      else if s.directories == [] then (ReturnedFalse, held)
      else
        var attempted := Attempted(s.directories, s.failing);
        var after := held.(calls := s.calls + ImportCalls(attempted, options));
        if NoneThrow(s.directories, s.failing) then (ReturnedTrue, after.(locked := false))
        else (Threw, after)
  }

  /** Importing one more directory appends its one call. */
  lemma ImportCallsSnoc(dirs: seq<string>, i: nat, options: Options)
    requires i < |dirs|
    ensures ImportCalls(dirs[..i + 1], options) == ImportCalls(dirs[..i], options) + [ImportCall(dirs[i], options)]
  {
  }

  /** The run that reaches the loop and meets its first throwing directory at
      position i has imported the directories up to and including that one,
      and still holds the lock. */
  lemma RunImportThrows(s: ImporterState, options: Options, i: nat)
    requires ReachesLoop(s) && i < |s.directories|
    requires NoneThrow(s.directories[..i], s.failing) && s.directories[i] in s.failing
    ensures RunImport(s, options) ==
            (Threw, s.(locked := true, calls := s.calls + ImportCalls(s.directories[..i + 1], options)))
  {
    assert s.directories[..i + 1][..i] == s.directories[..i];
    AttemptedUnique(s.directories, s.failing, s.directories[..i + 1]);
  }

  /** The run that reaches the loop and meets no throwing directory has
      imported every directory and released the lock. */
  lemma RunImportCompletes(s: ImporterState, options: Options)
    requires ReachesLoop(s) && NoneThrow(s.directories, s.failing)
    ensures RunImport(s, options) == (ReturnedTrue, s.(calls := s.calls + ImportCalls(s.directories, options)))
  {
  }

  /** Once an import has left the lock held, every later import returns FALSE
      and imports nothing until the lock is reset, whatever the directories and
      the migration status are then. */
  lemma {:induction false} HeldLockBlocksImports(s: ImporterState, runs: seq<Options>)
    requires s.locked
    ensures ImportsAfter(s, runs) == s
  {
    if runs != [] {
      HeldLockBlocksImports(RunImport(s, runs[0]).1, runs[1..]);
    }
  }

  /** The importer's state after running the import command once per entry of `runs`. */
  function ImportsAfter(s: ImporterState, runs: seq<Options>): ImporterState
    decreases |runs|
  {
    if runs == [] then s else ImportsAfter(RunImport(s, runs[0]).1, runs[1..])
  }

  /** An import that finds nothing to import, or stuck migrations, leaves the
      lock held, and the next import is then refused; after a lock reset the
      same import runs. */
  lemma LeakedLockNeedsReset(s: ImporterState, options: Options)
    requires s.enabled && !s.locked && (!s.migrationsOk || s.directories == [])
    ensures RunImport(s, options).0 == ReturnedFalse
    ensures RunImport(s, options).1.locked
    ensures RunImport(RunImport(s, options).1, options).0 == ReturnedFalse
    ensures RunImport(RunImport(s, options).1.(locked := false), options) == RunImport(s, options)
  {
  }

  /** The importer service. Its lock is a single flag; `directoryImport`
      throws for the directories in `failing`. */
  class Importer {
    var enabled: bool
    var locked: bool
    var migrationsOk: bool
    var directories: seq<string>
    var failing: set<string>
    var calls: seq<ImportCall>

    function State(): ImporterState
      reads this
    {
      ImporterState(enabled, locked, migrationsOk, directories, failing, calls)
    }

    /** Takes the lock when it is free; reports whether it did. */
    method AcquireLock() returns (acquired: bool)
      modifies this`locked
      ensures acquired == !old(locked)
      ensures locked
    {
      acquired := !locked;
      locked := true;
    }

    /** Frees the lock, whoever holds it. */
    method ReleaseLock()
      modifies this`locked
      ensures !locked
    {
      locked := false;
    }

    /** Runs the migrations for one directory; reports whether it threw. */
    method DirectoryImport(dir: string, options: Options) returns (threw: bool)
      modifies this`calls
      ensures calls == old(calls) + [ImportCall(dir, options)]
      ensures threw == (dir in failing)
    {
      calls := calls + [ImportCall(dir, options)];
      threw := dir in failing;
    }
  }

  /** The steps of the Traction Rec fetcher that the commands call. */
  datatype FetchStep = FetchAll | ProgramsAndCategories | Classes | Sessions

  /** The three fetches the sync command makes, in the order it makes them. */
  const SyncSteps: seq<FetchStep> := [ProgramsAndCategories, Classes, Sessions]

  /** The Traction Rec fetcher: its enabled flag, the steps that throw, the
      JSON directory it reports, and the log of steps started so far. */
  class Fetcher {
    var enabled: bool
    var throwing: set<FetchStep>
    var jsonDirectory: string
    var performed: seq<FetchStep>

    /** Starts one fetch step; reports whether it threw. */
    method Run(step: FetchStep) returns (threw: bool)
      modifies this`performed
      ensures performed == old(performed) + [step]
      ensures threw == (step in throwing)
    {
      performed := performed + [step];
      threw := step in throwing;
    }
  }

  /** An item of the import queue. */
  datatype QueueItem = Cleanup | TractionRecSync(directory: string)

  /** A node of the content store; only its bundle matters here. */
  datatype Node = Node(bundle: string, title: string)

  const SessionBundle: string := "session"

  /** The ids of the nodes of the session bundle. */
  function SessionIds(nodes: map<nat, Node>): (ids: set<nat>)
    ensures ids <= nodes.Keys
    ensures forall id :: id in nodes && nodes[id].bundle == SessionBundle ==> id in ids
    ensures forall id :: id in ids ==> nodes[id].bundle == SessionBundle
  {
    set id | id in nodes && nodes[id].bundle == SessionBundle
  }

  /** Deleting the session nodes keeps exactly the other nodes, each as it
      was, and a second flush finds nothing to delete. */
  lemma FlushKeepsOthers(nodes: map<nat, Node>)
    ensures forall id :: id in nodes - SessionIds(nodes) <==>
              id in nodes && nodes[id].bundle != SessionBundle
    ensures forall id :: id in nodes - SessionIds(nodes) ==> (nodes - SessionIds(nodes))[id] == nodes[id]
    ensures SessionIds(nodes - SessionIds(nodes)) == {}
  {
  }

  /** The Drush command class. */
  class DrushCommands {
    const importer: Importer
    const fetcher: Fetcher
    var queue: seq<QueueItem>
    var nodes: map<nat, Node>
    /** The id sets passed to the node storage's `delete`, in call order. */
    var nodeDeletes: seq<set<nat>>

    /** Wires the command class to its collaborators, as the service container does. */
    constructor (importer: Importer, fetcher: Fetcher, queue: seq<QueueItem>, nodes: map<nat, Node>)
      ensures this.importer == importer && this.fetcher == fetcher
      ensures this.queue == queue && this.nodes == nodes && nodeDeletes == []
    {
      this.importer := importer;
      this.fetcher := fetcher;
      this.queue := queue;
      this.nodes := nodes;
      nodeDeletes := [];
    }

    /** The import command. The lock taken here is released only after every
        directory has been imported; the exits on stuck migrations, on an
        empty directory list and on an exception from `directoryImport` leave
        it held. */
    method Import(options: Options) returns (r: Exit)
      modifies importer
      ensures (r, importer.State()) == RunImport(old(importer.State()), options)
    {
      if !importer.enabled {
        return ReturnedFalse;
      }
      var acquired := importer.AcquireLock();
      if !acquired {
        return ReturnedFalse;
      }
      if !importer.migrationsOk {
        return ReturnedFalse;
      }
      var dirs := importer.directories;
      if dirs == [] {
        return ReturnedFalse;
      }
      ghost var s0 := old(importer.State());
      var i := 0;
      while i < |dirs|
        invariant 0 <= i <= |dirs|
        invariant NoneThrow(dirs[..i], importer.failing)
        invariant importer.State() == s0.(locked := true, calls := s0.calls + ImportCalls(dirs[..i], options))
      {
        var threw := importer.DirectoryImport(dirs[i], options);
        ImportCallsSnoc(dirs, i, options);
        assert importer.State() ==
               s0.(locked := true, calls := s0.calls + ImportCalls(dirs[..i + 1], options));
        if threw {
          RunImportThrows(s0, options, i);
          return Threw;
        }
        i := i + 1;
      }
      assert dirs[..i] == dirs;
      RunImportCompletes(s0, options);
      importer.ReleaseLock();
      return ReturnedTrue;
    }

    /** The reset-lock command: the lock is free afterwards, whatever its state before. */
    method ResetLock()
      modifies importer
      ensures importer.State() == old(importer.State()).(locked := false)
    {
      importer.ReleaseLock();
    }

    /** The session-flush command: deletes exactly the session nodes, calling
        the storage's `delete` only when there is at least one. */
    method FlushSessions()
      modifies this`nodes, this`nodeDeletes
      ensures nodes == old(nodes) - SessionIds(old(nodes))
      ensures nodeDeletes == old(nodeDeletes) +
                (if SessionIds(old(nodes)) == {} then [] else [SessionIds(old(nodes))])
    {
      var sessions := SessionIds(nodes);
      if sessions != {} {
        nodes := nodes - sessions;
        nodeDeletes := nodeDeletes + [sessions];
      }
    }

    /** The fetch-all command: FALSE when the fetcher is disabled; otherwise
        one full fetch, whose exception is not caught. */
    method Fetch() returns (r: Exit)
      modifies fetcher`performed
      ensures !fetcher.enabled ==> r == ReturnedFalse && fetcher.performed == old(fetcher.performed)
      ensures fetcher.enabled ==> fetcher.performed == old(fetcher.performed) + [FetchAll]
      ensures fetcher.enabled ==> r == (if FetchAll in fetcher.throwing then Threw else ReturnedNull)
    {
      if !fetcher.enabled {
        return ReturnedFalse;
      }
      var threw := fetcher.Run(FetchAll);
      r := if threw then Threw else ReturnedNull;
    }

    /** The queue-clean-up command: appends one clean-up item. */
    method AddCleanUpToQueue()
      modifies this`queue
      ensures queue == old(queue) + [Cleanup]
    {
      queue := queue + [Cleanup];
    }

    /** The queue-import-sync command: FALSE and no change when the fetcher is
        disabled; otherwise the three fetches run in order until one throws,
        the exception is caught, and one sync item naming the fetcher's JSON
        directory is queued only when none threw. */
    method AddSyncActionToQueue() returns (r: Exit)
      modifies this`queue, fetcher`performed
      ensures !fetcher.enabled ==>
                r == ReturnedFalse && queue == old(queue) && fetcher.performed == old(fetcher.performed)
      ensures fetcher.enabled ==>
                r == ReturnedNull &&
                fetcher.performed == old(fetcher.performed) + Attempted(SyncSteps, fetcher.throwing)
      ensures queue == old(queue) +
                (if fetcher.enabled && NoneThrow(SyncSteps, fetcher.throwing)
                 then [TractionRecSync(fetcher.jsonDirectory)] else [])
    {
      if !fetcher.enabled {
        return ReturnedFalse;
      }
      var threw := fetcher.Run(ProgramsAndCategories);
      if threw {
        AttemptedUnique(SyncSteps, fetcher.throwing, [ProgramsAndCategories]);
      } else {
        threw := fetcher.Run(Classes);
        if threw {
          assert [ProgramsAndCategories, Classes][..1] == [ProgramsAndCategories];
          AttemptedUnique(SyncSteps, fetcher.throwing, [ProgramsAndCategories, Classes]);
        } else {
          threw := fetcher.Run(Sessions);
          if threw {
            assert SyncSteps[..2] == [ProgramsAndCategories, Classes];
            AttemptedUnique(SyncSteps, fetcher.throwing, SyncSteps);
          } else {
            queue := queue + [TractionRecSync(fetcher.jsonDirectory)];
          }
        }
      }
      r := ReturnedNull;
    }
  }
}
