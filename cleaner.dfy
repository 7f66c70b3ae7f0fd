/** The Traction Rec cleaner: the retention sweep over the JSON backup folder
    and the chunked deletion of orphaned paragraphs.

    The backup sweep is the shell pipeline `ls -t | tail -n +(L+1) | xargs rm -rf`,
    modelled by what it selects. The paragraph sweep is a loop over chunks of at
    most 50 ids that deletes from the paragraph storage and stops at the first
    exception, which it catches. */
module Cleaning {
  import opened Common

  function Min(a: int, b: int): int
  {
    if a <= b then a else b
  }

  // ---------------------------------------------------------------------------
  // Backup retention
  // ---------------------------------------------------------------------------

  /** An entry of the backup folder: its name and modification time. */
  datatype Entry = Entry(name: string, mtime: int)

  /** Most recently modified first: no entry is older than the one after it. */
  predicate NewestFirst(es: seq<Entry>)
  {
    forall i :: 0 < i < |es| ==> es[i - 1].mtime >= es[i].mtime
  }

  /** Newest first, stated pairwise: an entry is at least as new as every later one. */
  lemma {:induction false} NewestFirstPairwise(es: seq<Entry>, i: nat, j: nat)
    requires NewestFirst(es) && i <= j < |es|
    ensures es[i].mtime >= es[j].mtime
    decreases j - i
  {
    if i < j {
      NewestFirstPairwise(es, i + 1, j);
    }
  }

  /** Puts `e` before the first entry that is not newer than it. */
  function InsertByMtime(e: Entry, es: seq<Entry>): (r: seq<Entry>)
    requires NewestFirst(es)
    ensures NewestFirst(r)
    ensures multiset(r) == multiset(es) + multiset{e}
    ensures |r| == |es| + 1
    ensures r[0] == e || (es != [] && r[0] == es[0])
  {
    if es == [] || e.mtime >= es[0].mtime then
      NewestFirstCons(e, es);
      [e] + es
    else
      var tail := es[1..];
      assert es == [es[0]] + tail;
      NewestFirstTail(es);
      var rest := InsertByMtime(e, tail);
      NewestFirstCons(es[0], rest);
      [es[0]] + rest
  }

  /** Dropping the newest entry keeps the rest newest first. */
  lemma NewestFirstTail(es: seq<Entry>)
    requires NewestFirst(es) && es != []
    ensures NewestFirst(es[1..])
  {
    forall i | 0 < i < |es| - 1
      ensures es[1..][i - 1].mtime >= es[1..][i].mtime
    {
      assert es[1..][i - 1] == es[i] && es[1..][i] == es[i + 1];
    }
  }

  /** An entry at least as new as the head of a newest-first list can go in front. */
  lemma NewestFirstCons(x: Entry, es: seq<Entry>)
    requires NewestFirst(es) && (es != [] ==> x.mtime >= es[0].mtime)
    ensures NewestFirst([x] + es)
  {
    var r := [x] + es;
    forall i | 0 < i < |r|
      ensures r[i - 1].mtime >= r[i].mtime
    {
      assert r[i] == es[i - 1];
      if i > 1 {
        assert r[i - 1] == es[i - 2];
      }
    }
  }

  /** The order of `ls -t`: newest first. Entries with equal times keep the
      order of the folder listing they come from. */
  function ListByMtime(es: seq<Entry>): (r: seq<Entry>)
    ensures NewestFirst(r)
    ensures multiset(r) == multiset(es)
    ensures |r| == |es|
  {
    if es == [] then []
    else
      assert es == [es[0]] + es[1..];
      InsertByMtime(es[0], ListByMtime(es[1..]))
  }

  /** The entries of `es` with modification time `t`, in their order in `es`. */
  function WithMtime(es: seq<Entry>, t: int): seq<Entry>
  {
    if es == [] then []
    else (if es[0].mtime == t then [es[0]] else []) + WithMtime(es[1..], t)
  }

  /** Inserting `e` puts it before every entry of its own time already there. */
  lemma {:induction false} InsertKeepsTies(e: Entry, es: seq<Entry>, t: int)
    requires NewestFirst(es)
    ensures WithMtime(InsertByMtime(e, es), t) == (if e.mtime == t then [e] else []) + WithMtime(es, t)
  {
    if es == [] || e.mtime >= es[0].mtime {
      WithMtimeCons(e, es, t);
    } else {
      var head, tail := es[0], es[1..];
      NewestFirstTail(es);
      InsertKeepsTies(e, tail, t);
      var rest := InsertByMtime(e, tail);
      assert InsertByMtime(e, es) == [head] + rest;
      assert es == [head] + tail;
      TiesBehindNewer(head, e, rest, tail, t);
    }
  }

  /** An entry newer than `e` stays in front of it without disturbing the
      order of the entries of any one time. */
  lemma TiesBehindNewer(head: Entry, e: Entry, rest: seq<Entry>, tail: seq<Entry>, t: int)
    requires head.mtime > e.mtime
    requires WithMtime(rest, t) == (if e.mtime == t then [e] else []) + WithMtime(tail, t)
    ensures WithMtime([head] + rest, t) == (if e.mtime == t then [e] else []) + WithMtime([head] + tail, t)
  {
    WithMtimeCons(head, rest, t);
    WithMtimeCons(head, tail, t);
    if head.mtime != t {
      assert WithMtime([head] + rest, t) == WithMtime(rest, t);
    } else {
      assert e.mtime != t;
    }
  }

  /** The entries of one time in a list with a new front entry. */
  lemma WithMtimeCons(x: Entry, es: seq<Entry>, t: int)
    ensures WithMtime([x] + es, t) == (if x.mtime == t then [x] else []) + WithMtime(es, t)
  {
    assert ([x] + es)[1..] == es;
  }

  /** `ls -t` keeps entries of equal time in the order of the listing: for
      every time, the entries with that time appear in the same order. */
  lemma {:induction false} TiesKeepListingOrder(es: seq<Entry>, t: int)
    ensures WithMtime(ListByMtime(es), t) == WithMtime(es, t)
  {
    if es != [] {
      TiesKeepListingOrder(es[1..], t);
      InsertKeepsTies(es[0], ListByMtime(es[1..]), t);
    }
  }

  /** `tail -n +k`: the lines from the k-th on, counting from 1. `+0` and `+1`
      both give every line; a negative count is refused by `tail`, which then
      prints nothing. */
  function TailFrom<T>(lines: seq<T>, k: int): (r: seq<T>)
    ensures k < 0 ==> r == []
    ensures 0 <= k ==> |r| == |lines| - Min(if k <= 1 then 0 else k - 1, |lines|)
    ensures 0 <= k ==> r == lines[|lines| - |r|..]
  {
    if k < 0 then []
    else if k <= 1 then lines
    else if k - 1 >= |lines| then []
    else lines[k - 1..]
  }

  /** How many of the newest entries a retention limit keeps out of n. A limit
      of -1 or 0 keeps none; a limit below -1 keeps all of them, because the
      incremented limit is a negative count that `tail` refuses. */
  function Retained(limit: int, n: nat): (keep: nat)
    ensures keep <= n
    ensures 0 < limit ==> keep == Min(limit, n)
    ensures -1 <= limit <= 0 ==> keep == 0
    ensures limit < -1 ==> keep == n
  {
    if limit < -1 then n else if limit <= 0 then 0 else Min(limit, n)
  }

  /** `tail -n +(limit + 1)` skips exactly the first `Retained` lines. */
  lemma TailSkipsRetained<T>(lines: seq<T>, limit: int)
    ensures TailFrom(lines, limit + 1) == lines[Retained(limit, |lines|)..]
  {
    if limit < -1 {
      assert lines[|lines|..] == [];
    } else if limit <= 0 {
      assert lines[0..] == lines;
    } else if limit >= |lines| {
      assert lines[|lines|..] == [];
    }
  }

  /** A slice of a newest-first list is newest first. */
  lemma NewestFirstSlice(es: seq<Entry>, a: nat, b: nat)
    requires NewestFirst(es) && a <= b <= |es|
    ensures NewestFirst(es[a..b])
  {
    forall i | 0 < i < b - a
      ensures es[a..b][i - 1].mtime >= es[a..b][i].mtime
    {
      assert es[a..b][i - 1] == es[a + i - 1] && es[a..b][i] == es[a + i];
    }
  }

  /** The entries the pipeline hands to `rm`: the limit is incremented first
      and then given to `tail -n +`. They are newest first, all from the
      folder, and all but the `Retained` newest ones. */
  function Doomed(listing: seq<Entry>, limit: int): (d: seq<Entry>)
    ensures NewestFirst(d)
    ensures multiset(d) <= multiset(listing)
    ensures |d| == |listing| - Retained(limit, |listing|)
  {
    var sorted := ListByMtime(listing);
    var keep := Retained(limit, |listing|);
    TailSkipsRetained(sorted, limit);
    CutNewestFirst(sorted, keep);
    TailFrom(sorted, limit + 1)
  }

  /** Both parts of a newest-first list cut anywhere are newest first and
      together hold exactly its entries. */
  lemma CutNewestFirst(sorted: seq<Entry>, keep: nat)
    requires NewestFirst(sorted) && keep <= |sorted|
    ensures NewestFirst(sorted[..keep]) && NewestFirst(sorted[keep..])
    ensures multiset(sorted[..keep]) <= multiset(sorted) && multiset(sorted[keep..]) <= multiset(sorted)
  {
    NewestFirstSlice(sorted, 0, keep);
    NewestFirstSlice(sorted, keep, |sorted|);
    assert sorted[..keep] == sorted[0..keep] && sorted[keep..] == sorted[keep..|sorted|];
    MultisetSplit(sorted, keep);
  }

  /** With the increment, `tail` skips exactly the `limit` newest entries:
      the doomed entries are the listing in `ls -t` order from position
      `limit` on, and none when the folder holds at most `limit` entries.
      A limit of -1 or 0 dooms every entry; a limit below -1 dooms none. */
  lemma DoomedAfterNewest(listing: seq<Entry>, limit: int)
    ensures Doomed(listing, limit) == ListByMtime(listing)[Retained(limit, |listing|)..]
    ensures |listing| <= limit ==> Doomed(listing, limit) == []
    ensures -1 <= limit <= 0 ==> multiset(Doomed(listing, limit)) == multiset(listing)
    ensures limit < -1 ==> Doomed(listing, limit) == []
  {
    var sorted := ListByMtime(listing);
    assert |sorted| == |listing|;
    TailSkipsRetained(sorted, limit);
    if limit < -1 || limit >= |listing| {
      assert sorted[|listing|..] == [];
    } else if limit <= 0 {
      assert sorted[0..] == sorted;
    }
  }

  /** The entries the pipeline does not hand to `rm`: the `Retained` newest
      ones, newest first, all from the folder. */
  function Kept(listing: seq<Entry>, limit: int): (k: seq<Entry>)
    ensures NewestFirst(k)
    ensures multiset(k) <= multiset(listing)
    ensures |k| == Retained(limit, |listing|)
  {
    var sorted := ListByMtime(listing);
    var keep := Retained(limit, |listing|);
    CutNewestFirst(sorted, keep);
    sorted[..keep]
  }

  /** Kept and doomed entries split the folder: together they are the whole
      listing, and the kept ones are `limit` many (or all, if fewer). */
  lemma RetentionPartition(listing: seq<Entry>, limit: int)
    ensures multiset(Kept(listing, limit)) + multiset(Doomed(listing, limit)) == multiset(listing)
    ensures |Kept(listing, limit)| == Retained(limit, |listing|)
  {
    var sorted := ListByMtime(listing);
    var keep := Retained(limit, |listing|);
    assert keep <= |sorted|;
    DoomedAfterNewest(listing, limit);
    assert Kept(listing, limit) == sorted[..keep];
    MultisetSplit(sorted, keep);
  }

  /** Cutting a sequence in two splits its multiset. */
  lemma MultisetSplit<T>(s: seq<T>, k: nat)
    requires k <= |s|
    ensures multiset(s[..k]) + multiset(s[k..]) == multiset(s)
  {
    assert s[..k] + s[k..] == s;
  }

  /** The kept entries are the newest ones: no doomed entry is newer than a kept one. */
  lemma KeptAreNewest(listing: seq<Entry>, limit: int)
    ensures forall k, d :: k in Kept(listing, limit) && d in Doomed(listing, limit) ==> k.mtime >= d.mtime
  {
    DoomedAfterNewest(listing, limit);
    NewestFirstSplit(ListByMtime(listing), Retained(limit, |listing|));
  }

  /** Cutting a newest-first list anywhere leaves nothing in the back part
      newer than anything in the front part. */
  lemma NewestFirstSplit(sorted: seq<Entry>, keep: nat)
    requires NewestFirst(sorted) && keep <= |sorted|
    ensures forall k, d :: k in sorted[..keep] && d in sorted[keep..] ==> k.mtime >= d.mtime
  {
    forall k, d | k in sorted[..keep] && d in sorted[keep..]
      ensures k.mtime >= d.mtime
    {
      var i :| 0 <= i < keep && sorted[..keep][i] == k;
      var j :| 0 <= j < |sorted| - keep && sorted[keep..][j] == d;
      NewestFirstPairwise(sorted, i, keep + j);
    }
  }

  /** The doomed entries that `rm -rf` manages to remove. */
  function Deletable(es: seq<Entry>, undeletable: set<string>): (r: seq<Entry>)
    ensures multiset(r) <= multiset(es)
    ensures forall e :: e in r <==> e in es && e.name !in undeletable
  {
    if es == [] then []
    else
      assert es == [es[0]] + es[1..];
      (if es[0].name in undeletable then [] else [es[0]]) + Deletable(es[1..], undeletable)
  }

  /** What a backup sweep does: the entries removed, and whether the warning
      about a failed removal is logged. */
  datatype Sweep = Sweep(removed: seq<Entry>, warning: bool)

  /** The backup clean-up. It does nothing outside the command line or when
      backups are disabled. Otherwise it removes the doomed entries, except the
      ones named in `undeletable`; any of those makes the pipeline fail, which
      is logged as a warning and not raised. */
  function CleanBackupFiles(cli: bool, backupEnabled: bool, limit: int,
                            listing: seq<Entry>, undeletable: set<string>): (s: Sweep)
    ensures !cli || !backupEnabled ==> s == Sweep([], false)
    ensures multiset(s.removed) <= multiset(Doomed(listing, limit))
    ensures forall e :: e in s.removed ==> e.name !in undeletable
    ensures cli && backupEnabled ==>
              forall e :: e in Doomed(listing, limit) && e.name !in undeletable ==> e in s.removed
    ensures s.warning <==>
              cli && backupEnabled && exists e :: e in Doomed(listing, limit) && e.name in undeletable
  {
    if !cli || !backupEnabled then Sweep([], false)
    else
      var doomed := Doomed(listing, limit);
      Sweep(Deletable(doomed, undeletable), exists e :: e in doomed && e.name in undeletable)
  }

  /** After a sweep the `limit` newest entries are all still there: what is
      removed comes out of the older part of the listing only. */
  lemma SweepKeepsNewest(cli: bool, backupEnabled: bool, limit: int,
                         listing: seq<Entry>, undeletable: set<string>)
    ensures multiset(Kept(listing, limit)) <=
            multiset(listing) - multiset(CleanBackupFiles(cli, backupEnabled, limit, listing, undeletable).removed)
  {
    RetentionPartition(listing, limit);
  }

  /** A limit below -1 reaches `tail` as a negative count, which it refuses:
      nothing reaches `rm`, and since `xargs` still runs `rm -rf` once with no
      operand, which succeeds, no warning is logged either. */
  lemma RefusedLimitRemovesNothing(cli: bool, backupEnabled: bool, limit: int,
                                   listing: seq<Entry>, undeletable: set<string>)
    requires limit < -1
    ensures CleanBackupFiles(cli, backupEnabled, limit, listing, undeletable) == Sweep([], false)
  {
    DoomedAfterNewest(listing, limit);
  }

  // ---------------------------------------------------------------------------
  // Orphaned paragraphs
  // ---------------------------------------------------------------------------

  /** A row of the paragraph table: its id and its parent reference. */
  datatype Paragraph = Paragraph(id: nat, parentId: Option<nat>, parentType: Option<string>)

  /** A paragraph whose parent id and parent type are both NULL. */
  predicate IsOrphan(p: Paragraph)
  {
    p.parentId.None? && p.parentType.None?
  }

  /** The table's primary key: no two rows share an id. */
  predicate DistinctIds(rows: seq<Paragraph>)
  {
    forall i, j :: 0 <= i < j < |rows| ==> rows[i].id != rows[j].id
  }

  predicate Distinct(xs: seq<nat>)
  {
    forall i, j :: 0 <= i < j < |xs| ==> xs[i] != xs[j]
  }

  /** Some orphan row has this id. */
  predicate HasOrphan(rows: seq<Paragraph>, id: nat)
  {
    exists p :: p in rows && p.id == id && IsOrphan(p)
  }

  /** The ids of the orphan rows, in the order the database returns them. */
  function OrphanIds(rows: seq<Paragraph>): (ids: seq<nat>)
    ensures forall id :: id in ids <==> HasOrphan(rows, id)
    ensures |ids| <= |rows|
    ensures DistinctIds(rows) ==> Distinct(ids)
  {
    if rows == [] then []
    else
      var rest := OrphanIds(rows[1..]);
      assert rows == [rows[0]] + rows[1..];
      assert forall id :: HasOrphan(rows, id) <==>
        (rows[0].id == id && IsOrphan(rows[0])) || HasOrphan(rows[1..], id);
      assert DistinctIds(rows) ==> DistinctIds(rows[1..]) && forall q :: q in rows[1..] ==> q.id != rows[0].id;
      if IsOrphan(rows[0]) then
        var ids := [rows[0].id] + rest;
        assert DistinctIds(rows) ==> rows[0].id !in rest;
        assert forall j :: 0 < j < |ids| ==> ids[j] == rest[j - 1];
        ids
      else rest
  }

  /** The query: at most `limit` orphan ids. */
  function SelectOrphans(rows: seq<Paragraph>, limit: nat): (sel: seq<nat>)
    ensures |sel| == Min(limit, |OrphanIds(rows)|)
    ensures sel <= OrphanIds(rows)
    ensures forall id :: id in sel ==> HasOrphan(rows, id)
  {
    var ids := OrphanIds(rows);
    ids[..Min(limit, |ids|)]
  }

  /** The rows left after deleting the ones whose id is in `ids`, in table order. */
  function RemoveIds(rows: seq<Paragraph>, ids: seq<nat>): (r: seq<Paragraph>)
    ensures |r| <= |rows|
    ensures forall i :: 0 <= i < |r| ==> r[i].id !in ids
  {
    if rows == [] then []
    else (if rows[0].id in ids then [] else [rows[0]]) + RemoveIds(rows[1..], ids)
  }

  /** A row survives a delete exactly when its id is not among the deleted ids. */
  lemma {:induction false} RemoveIdsMembers(rows: seq<Paragraph>, ids: seq<nat>)
    ensures forall p :: p in RemoveIds(rows, ids) <==> p in rows && p.id !in ids
  {
    if rows != [] {
      RemoveIdsMembers(rows[1..], ids);
      assert rows == [rows[0]] + rows[1..];
    }
  }

  /** `array_chunk($xs, n)`: consecutive pieces of n elements, the last one
      holding the remainder. */
  function Chunks<T>(xs: seq<T>, n: nat): (cs: seq<seq<T>>)
    requires n > 0
    ensures forall i :: 0 <= i < |cs| ==> 0 < |cs[i]| <= n
    ensures forall i :: 0 <= i < |cs| - 1 ==> |cs[i]| == n
    decreases |xs|
  {
    if xs == [] then []
    else if |xs| <= n then [xs]
    else
      var rest := Chunks(xs[n..], n);
      var cs := [xs[..n]] + rest;
      assert forall i :: 0 < i < |cs| ==> cs[i] == rest[i - 1];
      cs
  }

  /** There are ceil(|xs| / 50) chunks of 50. */
  lemma {:induction false} ChunksCount<T>(xs: seq<T>)
    ensures |Chunks(xs, ChunkSize)| == (|xs| + ChunkSize - 1) / ChunkSize
    decreases |xs|
  {
    if |xs| > ChunkSize {
      ChunksCount(xs[ChunkSize..]);
    }
  }

  /** The chunks put back together. */
  function Flatten<T>(css: seq<seq<T>>): seq<T>
  {
    if css == [] then [] else css[0] + Flatten(css[1..])
  }

  lemma {:induction false} FlattenAppend<T>(a: seq<seq<T>>, b: seq<seq<T>>)
    ensures Flatten(a + b) == Flatten(a) + Flatten(b)
  {
    if a == [] {
      assert a + b == b;
    } else {
      assert (a + b)[1..] == a[1..] + b;
      FlattenAppend(a[1..], b);
    }
  }

  /** Putting the chunks back together in order gives the list back. */
  lemma {:induction false} ChunksFlatten<T>(xs: seq<T>, n: nat)
    requires n > 0
    ensures Flatten(Chunks(xs, n)) == xs
    decreases |xs|
  {
    if xs != [] && |xs| > n {
      ChunksFlatten(xs[n..], n);
      assert xs == xs[..n] + xs[n..];
    }
  }

  /** The first k chunks of 50 hold the first 50 * k elements (or all of them). */
  lemma {:induction false} ChunksPrefix<T>(xs: seq<T>, k: nat)
    ensures Flatten(Chunks(xs, ChunkSize)[..Min(k, |Chunks(xs, ChunkSize)|)]) ==
            xs[..Min(k * ChunkSize, |xs|)]
    decreases |xs|
  {
    var cs := Chunks(xs, ChunkSize);
    if xs == [] || k == 0 {
    } else if |xs| <= ChunkSize {
      assert cs[..1] == [xs];
    } else {
      var rest := Chunks(xs[ChunkSize..], ChunkSize);
      ChunksPrefix(xs[ChunkSize..], k - 1);
      assert cs[..Min(k, |cs|)] == [xs[..ChunkSize]] + rest[..Min(k - 1, |rest|)];
      assert xs[..Min(k * ChunkSize, |xs|)] ==
             xs[..ChunkSize] + xs[ChunkSize..][..Min((k - 1) * ChunkSize, |xs| - ChunkSize)];
    }
  }

  const ChunkSize: nat := 50
  const DefaultLimit: nat := 5000

  /** Where the sweep is interrupted: not at all, by the query itself, or by
      the load or delete of chunk `chunk` (counting from 0). */
  datatype Fault = NoFault | QueryFails | ChunkFails(chunk: nat)

  /** The chunks deleted before the sweep ends: a prefix of the chunks of the
      selection; all of them without a fault, none when the query throws, and
      the ones before chunk k when chunk k throws. */
  function DeletedChunks(rows: seq<Paragraph>, limit: nat, fault: Fault): (d: seq<seq<nat>>)
    ensures d <= Chunks(SelectOrphans(rows, limit), ChunkSize)
    ensures fault == NoFault ==> d == Chunks(SelectOrphans(rows, limit), ChunkSize)
    ensures fault == QueryFails ==> d == []
    ensures fault.ChunkFails? ==> |d| == Min(fault.chunk, |Chunks(SelectOrphans(rows, limit), ChunkSize)|)
  {
    var cs := Chunks(SelectOrphans(rows, limit), ChunkSize);
    match fault
    case NoFault => cs
    case QueryFails => []
    case ChunkFails(k) => cs[..Min(k, |cs|)]
  }

  /** The number of selected ids deleted before the sweep ends. */
  function DeletedCount(rows: seq<Paragraph>, limit: nat, fault: Fault): nat
  {
    var n := |SelectOrphans(rows, limit)|;
    match fault
    case NoFault => n
    case QueryFails => 0
    case ChunkFails(k) => Min(k * ChunkSize, n)
  }

  /** What is deleted is a prefix of the selection: all of it after a full
      run, the chunks before the failing one after an exception, nothing when
      the query fails; never more than `limit` ids. */
  lemma DeletedIsSelectionPrefix(rows: seq<Paragraph>, limit: nat, fault: Fault)
    ensures Flatten(DeletedChunks(rows, limit, fault)) ==
            SelectOrphans(rows, limit)[..DeletedCount(rows, limit, fault)]
    ensures DeletedCount(rows, limit, fault) <= limit
    ensures fault == NoFault ==> Flatten(DeletedChunks(rows, limit, fault)) == SelectOrphans(rows, limit)
  {
    var sel := SelectOrphans(rows, limit);
    match fault
    case NoFault =>
      ChunksFlatten(sel, ChunkSize);
    case QueryFails =>
    case ChunkFails(k) =>
      ChunksPrefix(sel, k);
  }

  /** Deleting ids removes nothing from the rows whose id is not among them. */
  lemma {:induction false} RemoveIdsAgree(rows: seq<Paragraph>, a: seq<nat>, b: seq<nat>)
    requires forall p :: p in rows ==> (p.id in a <==> p.id in b)
    ensures RemoveIds(rows, a) == RemoveIds(rows, b)
  {
    if rows != [] {
      RemoveIdsAgree(rows[1..], a, b);
    }
  }

  /** Deleting in two steps is deleting the union. */
  lemma {:induction false} RemoveIdsTwice(rows: seq<Paragraph>, a: seq<nat>, b: seq<nat>)
    ensures RemoveIds(RemoveIds(rows, a), b) == RemoveIds(rows, a + b)
  {
    if rows != [] {
      RemoveIdsTwice(rows[1..], a, b);
      var once := RemoveIds(rows[1..], a);
      if rows[0].id in a {
        assert RemoveIds(rows, a) == once;
      } else {
        assert RemoveIds(rows, a) == [rows[0]] + once;
        assert ([rows[0]] + once)[1..] == once;
        assert RemoveIds([rows[0]] + once, b) ==
               (if rows[0].id in b then [] else [rows[0]]) + RemoveIds(once, b);
      }
    }
  }

  /** Deleting the first m orphan ids leaves exactly the other orphans, in order. */
  lemma {:induction false} RemainingOrphans(rows: seq<Paragraph>, m: nat)
    requires DistinctIds(rows)
    requires m <= |OrphanIds(rows)|
    ensures OrphanIds(RemoveIds(rows, OrphanIds(rows)[..m])) == OrphanIds(rows)[m..]
  {
    if m == 0 {
      RemoveNothing(rows);
      assert OrphanIds(rows)[..0] == [];
    } else {
      var n := if IsOrphan(rows[0]) then m - 1 else m;
      TailOrphans(rows, m);
      RemainingOrphans(rows[1..], n);
      if IsOrphan(rows[0]) {
        OrphanHeadStep(rows, m);
      } else {
        ParentHeadStep(rows, m);
      }
    }
  }

  /** The other rows keep distinct ids and hold all the orphans but the first
      row's. */
  lemma TailOrphans(rows: seq<Paragraph>, m: nat)
    requires DistinctIds(rows) && 0 < m <= |OrphanIds(rows)|
    ensures rows != [] && DistinctIds(rows[1..])
    ensures (if IsOrphan(rows[0]) then m - 1 else m) <= |OrphanIds(rows[1..])|
  {
    DistinctTail(rows);
    OrphanIdsCons(rows);
  }

  /** When the first row is an orphan, deleting the first m orphan ids is
      deleting the first m - 1 orphan ids of the other rows, so the orphans
      left are those left among the other rows. */
  lemma OrphanHeadStep(rows: seq<Paragraph>, m: nat)
    requires DistinctIds(rows) && 0 < m <= |OrphanIds(rows)| && IsOrphan(rows[0])
    requires DistinctIds(rows[1..]) && m - 1 <= |OrphanIds(rows[1..])|
    requires OrphanIds(RemoveIds(rows[1..], OrphanIds(rows[1..])[..m - 1])) == OrphanIds(rows[1..])[m - 1..]
    ensures OrphanIds(RemoveIds(rows, OrphanIds(rows)[..m])) == OrphanIds(rows)[m..]
  {
    var tail, rest := rows[1..], OrphanIds(rows[1..]);
    OrphanHeadSplit(rows, m);
    RemoveHeadRow(rows, rest[..m - 1]);
    calc {
      OrphanIds(RemoveIds(rows, OrphanIds(rows)[..m]));
      OrphanIds(RemoveIds(rows, [rows[0].id] + rest[..m - 1]));
      OrphanIds(RemoveIds(tail, rest[..m - 1]));
      rest[m - 1..];
      OrphanIds(rows)[m..];
    }
  }

  /** When the first row is an orphan, its id comes first among the orphan ids. */
  lemma OrphanHeadSplit(rows: seq<Paragraph>, m: nat)
    requires rows != [] && IsOrphan(rows[0]) && 0 < m <= |OrphanIds(rows)|
    ensures OrphanIds(rows)[..m] == [rows[0].id] + OrphanIds(rows[1..])[..m - 1]
    ensures OrphanIds(rows)[m..] == OrphanIds(rows[1..])[m - 1..]
  {
    OrphanIdsCons(rows);
  }

  /** With distinct ids, deleting the first row's id together with others is
      dropping the first row and deleting the others from the rest. */
  lemma RemoveHeadRow(rows: seq<Paragraph>, ids: seq<nat>)
    requires DistinctIds(rows) && rows != []
    ensures RemoveIds(rows, [rows[0].id] + ids) == RemoveIds(rows[1..], ids)
  {
    DistinctTail(rows);
    HeadIdRemoved(rows, [rows[0].id] + ids);
    AbsentIdIgnored(rows[1..], rows[0].id, ids);
  }

  /** A row whose id is deleted goes. */
  lemma HeadIdRemoved(rows: seq<Paragraph>, ids: seq<nat>)
    requires rows != [] && rows[0].id in ids
    ensures RemoveIds(rows, ids) == RemoveIds(rows[1..], ids)
  {
    assert RemoveIds(rows, ids) == [] + RemoveIds(rows[1..], ids);
  }

  /** Deleting an id that no row has changes nothing. */
  lemma AbsentIdIgnored(rows: seq<Paragraph>, id: nat, ids: seq<nat>)
    requires forall q :: q in rows ==> q.id != id
    ensures RemoveIds(rows, [id] + ids) == RemoveIds(rows, ids)
  {
    RemoveIdsAgree(rows, [id] + ids, ids);
  }

  /** When the first row has a parent, it stays, and the orphans left are
      those left among the other rows. */
  lemma ParentHeadStep(rows: seq<Paragraph>, m: nat)
    requires DistinctIds(rows) && 0 < m <= |OrphanIds(rows)| && !IsOrphan(rows[0])
    requires DistinctIds(rows[1..]) && m <= |OrphanIds(rows[1..])|
    requires OrphanIds(RemoveIds(rows[1..], OrphanIds(rows[1..])[..m])) == OrphanIds(rows[1..])[m..]
    ensures OrphanIds(RemoveIds(rows, OrphanIds(rows)[..m])) == OrphanIds(rows)[m..]
  {
    var p, tail := rows[0], rows[1..];
    DistinctTail(rows);
    OrphanIdsCons(rows);
    var rest := OrphanIds(tail);
    var gone := OrphanIds(rows)[..m];
    assert gone == rest[..m];
    assert !HasOrphan(tail, p.id);
    assert p.id !in rest;
    var left := RemoveIds(tail, gone);
    assert RemoveIds(rows, gone) == [p] + left;
    assert ([p] + left)[1..] == left;
    OrphanIdsCons([p] + left);
    assert OrphanIds(rows)[m..] == rest[m..];
  }

  /** The rows after the first keep distinct ids, none of them the first row's. */
  lemma DistinctTail(rows: seq<Paragraph>)
    requires DistinctIds(rows) && rows != []
    ensures DistinctIds(rows[1..])
    ensures forall q :: q in rows[1..] ==> q.id != rows[0].id
  {
    forall i, j | 0 <= i < j < |rows| - 1
      ensures rows[1..][i].id != rows[1..][j].id
    {
      assert rows[1..][i] == rows[i + 1] && rows[1..][j] == rows[j + 1];
    }
    forall q | q in rows[1..]
      ensures q.id != rows[0].id
    {
      var j :| 0 <= j < |rows| - 1 && rows[1..][j] == q;
      assert rows[j + 1] == q;
    }
  }

  /** The orphan ids of a non-empty table: the first row's id if it is an
      orphan, then those of the other rows. */
  lemma OrphanIdsCons(rows: seq<Paragraph>)
    requires rows != []
    ensures OrphanIds(rows) == (if IsOrphan(rows[0]) then [rows[0].id] else []) + OrphanIds(rows[1..])
  {
  }

  lemma {:induction false} RemoveNothing(rows: seq<Paragraph>)
    ensures RemoveIds(rows, []) == rows
  {
    if rows != [] {
      RemoveNothing(rows[1..]);
    }
  }

  /** A paragraph that has a parent, in id or in type, is never deleted. */
  lemma NonOrphansUntouched(rows: seq<Paragraph>, limit: nat, fault: Fault)
    requires DistinctIds(rows)
    ensures forall p :: p in rows && !IsOrphan(p) ==>
              p in RemoveIds(rows, Flatten(DeletedChunks(rows, limit, fault)))
  {
    DeletedIsSelectionPrefix(rows, limit, fault);
    var deleted := Flatten(DeletedChunks(rows, limit, fault));
    RemoveIdsMembers(rows, deleted);
    forall p | p in rows && !IsOrphan(p)
      ensures p.id !in deleted
    {
      assert forall q :: q in rows && q.id == p.id ==> q == p;
      assert !HasOrphan(rows, p.id);
    }
  }

  /** After an exception in chunk k, the ids of chunk k and of every later
      chunk are all still in the table, and the orphans left are exactly the
      ones after the deleted prefix. */
  lemma OrphansAfterSweep(rows: seq<Paragraph>, limit: nat, fault: Fault)
    requires DistinctIds(rows)
    ensures var after := RemoveIds(rows, Flatten(DeletedChunks(rows, limit, fault)));
            && OrphanIds(after) == OrphanIds(rows)[DeletedCount(rows, limit, fault)..]
            && forall id :: id in SelectOrphans(rows, limit)[DeletedCount(rows, limit, fault)..] ==>
                 HasOrphan(after, id)
  {
    DeletedIsSelectionPrefix(rows, limit, fault);
    var m := DeletedCount(rows, limit, fault);
    var sel := SelectOrphans(rows, limit);
    assert sel[..m] == OrphanIds(rows)[..m];
    RemainingOrphans(rows, m);
    var after := RemoveIds(rows, Flatten(DeletedChunks(rows, limit, fault)));
    forall id | id in sel[m..]
      ensures HasOrphan(after, id)
    {
      assert id in OrphanIds(rows)[m..];
    }
  }

  /** 120 orphans with a limit of 100: two chunks of 50 go, 20 orphans stay;
      a second run deletes those 20 in one chunk and leaves none. */
  lemma TwoRunsClearOrphans(rows: seq<Paragraph>)
    requires DistinctIds(rows) && |OrphanIds(rows)| == 120
    ensures |DeletedChunks(rows, 100, NoFault)| == 2
    ensures var after := RemoveIds(rows, Flatten(DeletedChunks(rows, 100, NoFault)));
            && |OrphanIds(after)| == 20
            && |DeletedChunks(after, 100, NoFault)| == 1
            && OrphanIds(RemoveIds(after, Flatten(DeletedChunks(after, 100, NoFault)))) == []
  {
    ChunksCount(SelectOrphans(rows, 100));
    OrphansAfterSweep(rows, 100, NoFault);
    var after := RemoveIds(rows, Flatten(DeletedChunks(rows, 100, NoFault)));
    RemoveIdsKeepsDistinct(rows, Flatten(DeletedChunks(rows, 100, NoFault)));
    ChunksCount(SelectOrphans(after, 100));
    OrphansAfterSweep(after, 100, NoFault);
  }

  lemma {:induction false} RemoveIdsKeepsDistinct(rows: seq<Paragraph>, ids: seq<nat>)
    requires DistinctIds(rows)
    ensures DistinctIds(RemoveIds(rows, ids))
  {
    if rows != [] {
      RemoveIdsKeepsDistinct(rows[1..], ids);
      RemoveIdsMembers(rows[1..], ids);
      assert forall q :: q in RemoveIds(rows[1..], ids) ==> q in rows[1..];
    }
  }

  /** Deleting chunk k after the chunks before it deletes the first k + 1 chunks. */
  lemma DeleteNextChunk(rows: seq<Paragraph>, chunks: seq<seq<nat>>, k: nat)
    requires k < |chunks|
    ensures RemoveIds(RemoveIds(rows, Flatten(chunks[..k])), chunks[k]) ==
            RemoveIds(rows, Flatten(chunks[..k + 1]))
  {
    RemoveIdsTwice(rows, Flatten(chunks[..k]), chunks[k]);
    var one: seq<seq<nat>> := [chunks[k]];
    FlattenAppend(chunks[..k], one);
    assert one[1..] == [];
    assert Flatten(one) == chunks[k];
    assert chunks[..k + 1] == chunks[..k] + one;
  }

  /** The paragraph entity storage: its rows and the id lists passed to `delete`. */
  class ParagraphStorage {
    var rows: seq<Paragraph>
    var deleteCalls: seq<seq<nat>>

    constructor (rows: seq<Paragraph>)
      ensures this.rows == rows && deleteCalls == []
    {
      this.rows := rows;
      deleteCalls := [];
    }

    /** Loads the paragraphs with these ids and deletes them. */
    method Delete(ids: seq<nat>)
      modifies this
      ensures rows == RemoveIds(old(rows), ids)
      ensures deleteCalls == old(deleteCalls) + [ids]
    {
      rows := RemoveIds(rows, ids);
      deleteCalls := deleteCalls + [ids];
    }
  }

  /** The cleaner service, over the paragraph storage. */
  class Cleaner {
    const storage: ParagraphStorage

    constructor (storage: ParagraphStorage)
      ensures this.storage == storage
    {
      this.storage := storage;
    }

    /** The database clean-up: the orphan sweep with the given limit, 5000
        when none is passed. */
    method CleanDatabase(limit: Option<nat>, fault: Fault)
      modifies storage
      ensures var l := if limit.Some? then limit.value else DefaultLimit;
              && storage.rows == RemoveIds(old(storage.rows), Flatten(DeletedChunks(old(storage.rows), l, fault)))
              && storage.deleteCalls == old(storage.deleteCalls) + DeletedChunks(old(storage.rows), l, fault)
    {
      var _ := DeleteOrphanedParagraphs(if limit.Some? then limit.value else DefaultLimit, fault);
    }

    /** The loop of the orphan sweep: loads and deletes each chunk in turn,
        and stops at the chunk whose load or delete throws. */
    method DeleteChunks(chunks: seq<seq<nat>>, fault: Fault)
      requires !fault.QueryFails?
      modifies storage
      ensures var done := if fault.ChunkFails? then chunks[..Min(fault.chunk, |chunks|)] else chunks;
              && storage.rows == RemoveIds(old(storage.rows), Flatten(done))
              && storage.deleteCalls == old(storage.deleteCalls) + done
    {
      ghost var rows0 := storage.rows;
      ghost var done := if fault.ChunkFails? then chunks[..Min(fault.chunk, |chunks|)] else chunks;
      ghost var stop := |done|;
      assert done == chunks[..stop];
      RemoveNothing(rows0);
      assert chunks[..0] == [];
      var k := 0;
      while k < |chunks|
        invariant 0 <= k <= stop
        invariant storage.rows == RemoveIds(rows0, Flatten(chunks[..k]))
        invariant storage.deleteCalls == old(storage.deleteCalls) + chunks[..k]
      {
        if fault == ChunkFails(k) {
          assert k == stop;
          return;
        }
        storage.Delete(chunks[k]);
        assert storage.rows == RemoveIds(rows0, Flatten(chunks[..k + 1])) by {
          DeleteNextChunk(rows0, chunks, k);
        }
        assert chunks[..k + 1] == chunks[..k] + [chunks[k]];
        k := k + 1;
      }
      assert k == stop && chunks[..k] == chunks;
    }

    /** The orphan sweep. FALSE when the query finds no orphan; otherwise the
        selected ids are deleted chunk by chunk until the end or the first
        exception, which is caught. */
    method DeleteOrphanedParagraphs(limit: nat, fault: Fault) returns (r: Exit)
      modifies storage
      ensures r == (if fault != QueryFails && SelectOrphans(old(storage.rows), limit) == []
                    then ReturnedFalse else ReturnedNull)
      ensures storage.rows ==
              RemoveIds(old(storage.rows), Flatten(DeletedChunks(old(storage.rows), limit, fault)))
      ensures storage.deleteCalls == old(storage.deleteCalls) + DeletedChunks(old(storage.rows), limit, fault)
    {
      if fault == QueryFails {
        RemoveNothing(storage.rows);
        return ReturnedNull;
      }
      var result := SelectOrphans(storage.rows, limit);
      if result == [] {
        RemoveNothing(storage.rows);
        return ReturnedFalse;
      }
      var chunks := Chunks(result, ChunkSize);
      DeleteChunks(chunks, fault);
      r := ReturnedNull;
    }
  }
}
