/**
 Backups of one database: rows of database_backups and the dump files beside them, pruned after each backup to
 the newest `backup_count`.
 */
module BackupRetention {
  import opened Common

  type Id = nat

  datatype Backup = Backup(filename: string, createdAt: int)

  /** What a file holds: the complete dump of a backup, or what a failed one left. */
  datatype Content = DumpOf(id: Id) | Partial

  datatype Archive = Archive(rows: map<Id, Backup>, files: map<string, Content>)

  /**
   How a dump ends. It can fail before it creates the file, leave the file behind (a Redis dump whose SCAN
   fails), or remove it again (a dump job or a dump command that fails).
   */
  datatype DumpOutcome = Dumped | FailedBeforeFile | FailedWithFile | FailedFileRemoved

  datatype BackupError = DumpFailed | NotFound

  // ---------- specification ----------

  function NamesOf(rows: map<Id, Backup>, ids: seq<Id>): set<string> {
    set id | id in rows && id in ids :: rows[id].filename
  }

  function FileNames(rows: map<Id, Backup>): set<string> {
    set id | id in rows :: rows[id].filename
  }

  /** One of the listings that ORDER BY created_at DESC allows: rows of the same time stand in any order. */
  ghost predicate NewestFirst(order: seq<Id>, rows: map<Id, Backup>) {
    && (forall i, j :: 0 <= i < j < |order| ==> order[i] != order[j])
    && (forall id :: id in order <==> id in rows)
    && (forall i, j :: 0 <= i < j < |order| && order[i] in rows && order[j] in rows ==>
          rows[order[i]].createdAt >= rows[order[j]].createdAt)
  }

  /** OFFSET `limit` of a listing. A negative OFFSET is an error in PostgreSQL, and then nothing is pruned. */
  function Selected(order: seq<Id>, limit: int): seq<Id> {
    if limit < 0 || |order| <= limit then [] else order[limit..]
  }

  function Remaining(rows: map<Id, Backup>, gone: seq<Id>): map<Id, Backup> {
    map id | id in rows && id !in gone :: rows[id]
  }

  function Pruned(a: Archive, gone: seq<Id>): Archive {
    Archive(Remaining(a.rows, gone), a.files - NamesOf(a.rows, gone))
  }

  function Added(a: Archive, id: Id, b: Backup): Archive {
    Archive(a.rows[id := b], a.files[b.filename := DumpOf(id)])
  }

  function Performed(a: Archive, id: Id, b: Backup, dump: DumpOutcome, order: seq<Id>, limit: int): Archive {
    match dump
    case Dumped => Pruned(Added(a, id, b), Selected(order, limit))
    case FailedBeforeFile => a
    case FailedWithFile => a.(files := a.files[b.filename := Partial])
    case FailedFileRemoved => a.(files := a.files - {b.filename})
  }

  class BackupStore {
    var rows: map<Id, Backup>
    var files: map<string, Content>

    ghost function State(): Archive
      reads this
    {
      Archive(rows, files)
    }

    /** The query for the rows to prune; `order` is how the database lists the rows. */
    method SelectOld(order: seq<Id>, limit: int) returns (r: Result<seq<Id>, ()>)
      requires NewestFirst(order, rows)
      ensures r.Ok? <==> limit >= 0
      ensures r.Ok? ==> r.value == Selected(order, limit)
    {
      if limit < 0 { return Err(()); }
      r := Ok(if |order| <= limit then [] else order[limit..]);
    }

    /** The row and file part of `perform_database_backup`; `order` lists the rows, the new one included. */
    method PerformBackup(id: Id, filename: string, createdAt: int, dump: DumpOutcome, order: seq<Id>, limit: int)
      returns (r: Result<Id, BackupError>)
      requires id !in rows
      requires dump == Dumped ==> NewestFirst(order, rows[id := Backup(filename, createdAt)])
      modifies this
      ensures r == if dump == Dumped then Ok(id) else Err(DumpFailed)
      ensures State() == Performed(old(State()), id, Backup(filename, createdAt), dump, order, limit)
    {
      if dump == FailedBeforeFile { return Err(DumpFailed); }
      files := files[filename := Partial];
      if dump == FailedWithFile { return Err(DumpFailed); }
      if dump == FailedFileRemoved {
        files := files - {filename};
        assert files == old(files) - {filename};
        return Err(DumpFailed);
      }
      files := files[filename := DumpOf(id)];
      rows := rows[id := Backup(filename, createdAt)];
      assert State() == Added(old(State()), id, Backup(filename, createdAt));
      var selected := SelectOld(order, limit);
      if selected.Ok? {
        SelectedIsPart(order, limit);
        Prune(selected.value);
      } else {
        NothingGone(State());
      }
      r := Ok(id);
    }

    /** The loop that removes the rows the query returned, with their files. */
    method Prune(selected: seq<Id>)
      requires forall i :: 0 <= i < |selected| ==> selected[i] in rows
      requires forall i, j :: 0 <= i < j < |selected| ==> selected[i] != selected[j]
      modifies this
      ensures State() == Pruned(old(State()), selected)
    {
      NothingGone(State());
      for i := 0 to |selected|
        invariant State() == Pruned(old(State()), selected[..i])
      {
        OneMoreGone(old(State()), selected, i);
        var oldBackup := rows[selected[i]];
        files := files - {oldBackup.filename};
        rows := map id | id in rows && id != selected[i] :: rows[id];
      }
      assert selected[..|selected|] == selected;
    }

    /** `delete_database_backup`. */
    method DeleteBackup(id: Id) returns (r: Result<(), BackupError>)
      modifies this
      ensures r.Ok? <==> id in old(rows)
      ensures State() == Pruned(old(State()), [id])
    {
      if id !in rows {
        assert Remaining(rows, [id]) == rows;
        return Err(NotFound);
      }
      files := files - {rows[id].filename};
      rows := map k | k in rows && k != id :: rows[k];
      assert NamesOf(old(rows), [id]) == {old(rows)[id].filename};
      r := Ok(());
    }
  }

  lemma NothingGone(a: Archive)
    ensures Pruned(a, []) == a
  {
    assert Remaining(a.rows, []) == a.rows && NamesOf(a.rows, []) == {};
  }

  lemma SelectedIsPart(order: seq<Id>, limit: int)
    ensures forall id <- Selected(order, limit) :: id in order
  {}

  lemma OneMoreGone(a: Archive, gone: seq<Id>, i: nat)
    requires i < |gone| && gone[i] in a.rows && gone[i] !in gone[..i]
    ensures gone[i] in Pruned(a, gone[..i]).rows
    ensures var (p, q) := (Pruned(a, gone[..i]), Pruned(a, gone[..i + 1]));
      && q.rows == (map id | id in p.rows && id != gone[i] :: p.rows[id])
      && q.files == p.files - {p.rows[gone[i]].filename}
  {
    assert forall id :: id in gone[..i + 1] <==> id in gone[..i] || id == gone[i];
    assert NamesOf(a.rows, gone[..i + 1]) == NamesOf(a.rows, gone[..i]) + {a.rows[gone[i]].filename};
  }

  // ---------- what is kept ----------

  function Kept(rows: map<Id, Backup>, order: seq<Id>, limit: int): map<Id, Backup> {
    Remaining(rows, Selected(order, limit))
  }

  function Elements(ids: seq<Id>): set<Id> {
    set id | id in ids
  }

  lemma {:induction false} CountElements(ids: seq<Id>)
    requires forall i, j :: 0 <= i < j < |ids| ==> ids[i] != ids[j]
    ensures |Elements(ids)| == |ids|
  {
    if |ids| > 0 {
      var init, last := ids[..|ids| - 1], ids[|ids| - 1];
      CountElements(init);
      assert Elements(ids) == Elements(init) + {last} && last !in Elements(init);
    }
  }

  /** A row is kept exactly when its position in the listing is below the limit. */
  lemma KeptByPosition(rows: map<Id, Backup>, order: seq<Id>, limit: nat, at: nat)
    requires NewestFirst(order, rows) && at < |order|
    ensures order[at] in rows
    ensures order[at] in Kept(rows, order, limit) <==> at < limit
  {
    assert order[at] in order;
    if limit <= at {
      assert order[limit..][at - limit] == order[at];
    }
  }

  lemma PositionOf(order: seq<Id>, id: Id) returns (at: nat)
    requires id in order
    ensures at < |order| && order[at] == id
  {
    at :| at < |order| && order[at] == id;
  }

  /** With a limit that is not negative, min(rows, limit) backups are kept, and none is older than a pruned one. */
  lemma KeepsTheNewest(rows: map<Id, Backup>, order: seq<Id>, limit: nat)
    requires NewestFirst(order, rows)
    ensures var kept := Kept(rows, order, limit);
      && |kept| == (if |rows| < limit then |rows| else limit)
      && forall k, g :: k in kept && g in rows && g !in kept ==> rows[k].createdAt >= rows[g].createdAt
  {
    var kept := Kept(rows, order, limit);
    var n := if |order| <= limit then |order| else limit;
    CountElements(order);
    assert Elements(order) == rows.Keys;
    CountElements(order[..n]);
    forall id ensures id in Elements(order[..n]) <==> id in kept.Keys {
      if id in order {
        var at := PositionOf(order, id);
        KeptByPosition(rows, order, limit, at);
        assert at < n ==> order[..n][at] == id;
      }
    }
    assert Elements(order[..n]) == kept.Keys;
    forall k, g | k in kept && g in rows && g !in kept ensures rows[k].createdAt >= rows[g].createdAt {
      var i := PositionOf(order, k);
      var j := PositionOf(order, g);
      KeptByPosition(rows, order, limit, i);
      KeptByPosition(rows, order, limit, j);
    }
  }

  /** A backup prunes nothing exactly when the limit is negative, so that the query fails, or is not exceeded. */
  lemma PrunesNothingExactly(a: Archive, id: Id, b: Backup, order: seq<Id>, limit: int)
    requires id !in a.rows && NewestFirst(order, a.rows[id := b])
    ensures Performed(a, id, b, Dumped, order, limit).rows == a.rows[id := b] <==> limit < 0 || |a.rows| + 1 <= limit
  {
    var rows := a.rows[id := b];
    CountElements(order);
    assert Elements(order) == rows.Keys;
    assert rows.Keys == a.rows.Keys + {id};
    if 0 <= limit < |order| {
      KeptByPosition(rows, order, limit, limit);
    } else {
      NothingGone(Added(a, id, b));
    }
  }

  function NewerThan(rows: map<Id, Backup>, t: int): set<Id> {
    set id | id in rows && rows[id].createdAt > t
  }

  function NotOlderThan(rows: map<Id, Backup>, t: int): set<Id> {
    set id | id in rows && rows[id].createdAt >= t
  }

  /**
   A backup is pruned when `limit` backups are newer, and survives when fewer than `limit` others are as new. So
   unless it shares its time with another one, it survives exactly when fewer than `limit` are newer.
   */
  lemma SurvivesExactly(rows: map<Id, Backup>, order: seq<Id>, limit: nat, id: Id)
    requires NewestFirst(order, rows) && id in rows
    ensures var (kept, t) := (Kept(rows, order, limit), rows[id].createdAt);
      && (|NewerThan(rows, t)| >= limit ==> id !in kept)
      && (|NotOlderThan(rows, t) - {id}| < limit ==> id in kept)
      && ((forall other <- rows :: other != id ==> rows[other].createdAt != t) ==>
            (id in kept <==> |NewerThan(rows, t)| < limit))
  {
    var t := rows[id].createdAt;
    var at := PositionOf(order, id);
    KeptByPosition(rows, order, limit, at);
    ListedBefore(rows, order, at);
    CountElements(order[..at]);
    Smaller(Elements(order[..at]), NotOlderThan(rows, t) - {id});
    Smaller(NewerThan(rows, t), Elements(order[..at]));
    if forall other <- rows :: other != id ==> rows[other].createdAt != t {
      assert NotOlderThan(rows, t) - {id} == NewerThan(rows, t);
    }
  }

  /** What is listed before a row: everything newer, and nothing that is older. */
  lemma ListedBefore(rows: map<Id, Backup>, order: seq<Id>, at: nat)
    requires NewestFirst(order, rows) && at < |order| && order[at] in rows
    ensures var (t, before) := (rows[order[at]].createdAt, Elements(order[..at]));
      NewerThan(rows, t) <= before <= NotOlderThan(rows, t) - {order[at]}
  {
    var t := rows[order[at]].createdAt;
    forall other <- Elements(order[..at]) ensures other in NotOlderThan(rows, t) - {order[at]} {
      var i := PositionOf(order[..at], other);
      assert order[i] in order && order[i] == other;
    }
    forall other <- NewerThan(rows, t) ensures other in Elements(order[..at]) {
      var i := PositionOf(order, other);
      assert i < at;
      assert order[..at][i] == other;
    }
  }

  lemma {:induction false} Smaller(x: set<Id>, y: set<Id>)
    requires x <= y
    ensures |x| <= |y|
  {
    if x != {} {
      var e :| e in x;
      Smaller(x - {e}, y - {e});
    }
  }

  // ---------- files match rows ----------

  /** The files are those of the rows, and each holds the dump of its own row. */
  ghost predicate Match(a: Archive) {
    && a.files.Keys == FileNames(a.rows)
    && forall id <- a.rows :: a.rows[id].filename in a.files && a.files[a.rows[id].filename] == DumpOf(id)
  }

  ghost predicate DistinctNames(rows: map<Id, Backup>) {
    forall i, j :: i in rows && j in rows && i != j ==> rows[i].filename != rows[j].filename
  }

  /** So two rows never share a name. */
  lemma MatchIsDistinct(a: Archive)
    requires Match(a)
    ensures DistinctNames(a.rows)
  {
    forall i, j | i in a.rows && j in a.rows && i != j ensures a.rows[i].filename != a.rows[j].filename {
      assert a.files[a.rows[i].filename] == DumpOf(i) && a.files[a.rows[j].filename] == DumpOf(j);
    }
  }

  lemma NamesAfterPrune(rows: map<Id, Backup>, gone: seq<Id>)
    requires DistinctNames(rows)
    ensures FileNames(Remaining(rows, gone)) == FileNames(rows) - NamesOf(rows, gone)
  {
    var rest := Remaining(rows, gone);
    forall f ensures f in FileNames(rest) <==> f in FileNames(rows) && f !in NamesOf(rows, gone) {
      if f in FileNames(rest) {
        var id :| id in rest && rest[id].filename == f;
        assert rows[id].filename == f && id !in gone;
      } else if f in FileNames(rows) {
        var id :| id in rows && rows[id].filename == f;
        assert id in gone || rest[id].filename == f;
      }
    }
  }

  /** Removing rows with their files keeps files and rows in step, whichever rows go. */
  lemma PruneKeepsMatch(a: Archive, gone: seq<Id>)
    requires Match(a)
    ensures Match(Pruned(a, gone))
  {
    var d := Pruned(a, gone);
    MatchIsDistinct(a);
    NamesAfterPrune(a.rows, gone);
    forall id <- d.rows ensures d.rows[id].filename in d.files && d.files[d.rows[id].filename] == DumpOf(id) {
      assert d.rows[id].filename in FileNames(d.rows);
    }
  }

  datatype Op =
    | Perform(id: Id, b: Backup, dump: DumpOutcome, order: seq<Id>, limit: int)
    | Delete(id: Id)

  /** Ids are fresh, and the database lists the rows as it was asked to. */
  ghost predicate Enabled(a: Archive, op: Op) {
    match op
    case Perform(id, b, dump, order, limit) => id !in a.rows && (dump == Dumped ==> NewestFirst(order, a.rows[id := b]))
    case Delete(id) => true
  }

  ghost function Apply(a: Archive, op: Op): Archive {
    match op
    case Perform(id, b, dump, order, limit) => Performed(a, id, b, dump, order, limit)
    case Delete(id) => Pruned(a, [id])
  }

  /**
   What has to hold before an operation so that the files still match the rows after it. A dump may write to the
   file of another row only if both rows are pruned at once.
   */
  ghost predicate Safe(a: Archive, op: Op) {
    match op
    case Delete(id) => true
    case Perform(id, b, dump, order, limit) =>
      match dump
      case FailedBeforeFile => true
      case FailedWithFile => false
      case FailedFileRemoved => b.filename !in FileNames(a.rows)
      case Dumped =>
        b.filename in FileNames(a.rows) ==>
          id in Selected(order, limit) && b.filename in NamesOf(a.rows, Selected(order, limit))
  }

  lemma AddedMatches(a: Archive, id: Id, b: Backup)
    requires Match(a) && id !in a.rows && b.filename !in FileNames(a.rows)
    ensures Match(Added(a, id, b))
  {
    var d := Added(a, id, b);
    forall k <- d.rows ensures d.rows[k].filename in d.files && d.files[d.rows[k].filename] == DumpOf(k) {
      assert k != id ==> d.rows[k].filename in FileNames(a.rows);
    }
    forall f ensures f in d.files <==> f in FileNames(d.rows) {
      if f in FileNames(a.rows) {
        var k :| k in a.rows && a.rows[k].filename == f;
        assert d.rows[k].filename == f;
      }
      assert d.rows[id].filename == b.filename;
    }
  }

  lemma BothGone(a: Archive, id: Id, b: Backup, other: Id, gone: seq<Id>)
    requires id !in a.rows && other in a.rows && a.rows[other].filename == b.filename && id in gone && other in gone
    ensures Pruned(Added(a, id, b), gone) == Pruned(a, gone)
  {
    var mid := Added(a, id, b);
    forall f ensures f in NamesOf(mid.rows, gone) <==> f in NamesOf(a.rows, gone) {
      if f in NamesOf(a.rows, gone) {
        var k :| k in a.rows && k in gone && a.rows[k].filename == f;
        assert mid.rows[k].filename == f;
      }
      assert b.filename in NamesOf(a.rows, gone);
    }
    assert Remaining(mid.rows, gone) == Remaining(a.rows, gone);
    assert mid.files - NamesOf(a.rows, gone) == a.files - NamesOf(a.rows, gone);
  }

  lemma OneLeft(a: Archive, id: Id, b: Backup, other: Id, gone: seq<Id>)
    requires id !in a.rows && other in a.rows && a.rows[other].filename == b.filename && !(id in gone && other in gone)
    ensures !Match(Pruned(Added(a, id, b), gone))
  {
    var (mid, d) := (Added(a, id, b), Pruned(Added(a, id, b), gone));
    assert mid.rows[id].filename == mid.rows[other].filename == b.filename;
    var left := if other in gone then id else other;
    assert left in d.rows && d.rows[left].filename == b.filename;
    assert b.filename in d.files ==> d.files[b.filename] == DumpOf(id) && id !in gone && other !in gone;
  }

  /** A dump that took over the file of row `other`: it goes with both rows, or it matches one of them at most. */
  lemma SharedFileExactly(a: Archive, id: Id, b: Backup, other: Id, gone: seq<Id>)
    requires Match(a) && id !in a.rows && other in a.rows && a.rows[other].filename == b.filename
    ensures Match(Pruned(Added(a, id, b), gone)) <==> id in gone && other in gone
  {
    if id in gone && other in gone {
      BothGone(a, id, b, other, gone);
      PruneKeepsMatch(a, gone);
    } else {
      OneLeft(a, id, b, other, gone);
    }
  }

  lemma BackupMatchesExactly(a: Archive, id: Id, b: Backup, order: seq<Id>, limit: int)
    requires Match(a) && Enabled(a, Perform(id, b, Dumped, order, limit))
    ensures Match(Performed(a, id, b, Dumped, order, limit)) <==> Safe(a, Perform(id, b, Dumped, order, limit))
  {
    var gone := Selected(order, limit);
    if other :| other in a.rows && a.rows[other].filename == b.filename {
      SharedFileExactly(a, id, b, other, gone);
      MatchIsDistinct(a);
    } else {
      AddedMatches(a, id, b);
      PruneKeepsMatch(Added(a, id, b), gone);
    }
  }

  /** A dump that leaves its file behind never matches: it has no row, or it destroyed the backup of another. */
  lemma LeftFileNeverMatches(a: Archive, name: string)
    requires Match(a)
    ensures !Match(a.(files := a.files[name := Partial]))
  {
    var files := a.files[name := Partial];
    if id :| id in a.rows && a.rows[id].filename == name {
      assert files[a.rows[id].filename] != DumpOf(id);
    } else {
      assert name in files.Keys && name !in FileNames(a.rows);
    }
  }

  lemma RemovedFileExactly(a: Archive, name: string)
    requires Match(a)
    ensures Match(a.(files := a.files - {name})) <==> name !in FileNames(a.rows)
  {
    if name !in FileNames(a.rows) {
      assert a.files - {name} == a.files;
    }
  }

  /** Each operation keeps files and rows in step exactly when it is safe. */
  lemma StepMatchesExactly(a: Archive, op: Op)
    requires Match(a) && Enabled(a, op)
    ensures Match(Apply(a, op)) <==> Safe(a, op)
  {
    match op
    case Delete(id) => PruneKeepsMatch(a, [id]);
    case Perform(id, b, dump, order, limit) =>
      match dump
      case Dumped => BackupMatchesExactly(a, id, b, order, limit);
      case FailedBeforeFile =>
      case FailedWithFile => LeftFileNeverMatches(a, b.filename);
      case FailedFileRemoved => RemovedFileExactly(a, b.filename);
  }

  /** A failed backup changes no row and no file but its own. */
  lemma FailureLeaves(a: Archive, id: Id, b: Backup, dump: DumpOutcome, order: seq<Id>, limit: int)
    requires dump != Dumped
    ensures var d := Performed(a, id, b, dump, order, limit);
      && d.rows == a.rows
      && d.files - {b.filename} == a.files - {b.filename}
      && (dump == FailedBeforeFile ==> d.files == a.files)
      && (dump == FailedFileRemoved ==> b.filename !in d.files)
      && (dump == FailedWithFile ==> b.filename in d.files && d.files[b.filename] == Partial)
  {}

  /** Removing rows changes no other row, and no file that is not theirs. */
  lemma RemovalLeaves(a: Archive, gone: seq<Id>)
    ensures var d := Pruned(a, gone);
      && (forall id :: id in d.rows <==> id in a.rows && id !in gone)
      && (forall id <- d.rows :: d.rows[id] == a.rows[id])
      && (forall f :: f in d.files <==>
            f in a.files && forall id <- gone :: id in a.rows ==> a.rows[id].filename != f)
      && (forall f <- d.files :: d.files[f] == a.files[f])
  {}

  // ---------- runs ----------

  ghost predicate IsRun(a: Archive, ops: seq<Op>)
    decreases |ops|
  {
    |ops| == 0 || (Enabled(a, ops[0]) && IsRun(Apply(a, ops[0]), ops[1..]))
  }

  ghost predicate AlwaysMatches(a: Archive, ops: seq<Op>)
    decreases |ops|
  {
    Match(a) && (|ops| > 0 ==> AlwaysMatches(Apply(a, ops[0]), ops[1..]))
  }

  ghost predicate AllSafe(a: Archive, ops: seq<Op>)
    decreases |ops|
  {
    |ops| > 0 ==> Safe(a, ops[0]) && AllSafe(Apply(a, ops[0]), ops[1..])
  }

  /**
   Over every run of backups, failed dumps of any kind and deletions, the files on disk are those of the rows at
   all times exactly when every operation is safe at its time.
   */
  lemma {:induction false} RunMatchesExactly(a: Archive, ops: seq<Op>)
    requires Match(a) && IsRun(a, ops)
    ensures AlwaysMatches(a, ops) <==> AllSafe(a, ops)
    decreases |ops|
  {
    if |ops| > 0 {
      StepMatchesExactly(a, ops[0]);
      if Safe(a, ops[0]) {
        RunMatchesExactly(Apply(a, ops[0]), ops[1..]);
      }
    }
  }

  /** The dump's name belongs to no row, and it does not leave a file without a row. */
  ghost predicate Orderly(a: Archive, op: Op) {
    op.Perform? ==> op.b.filename !in FileNames(a.rows) && op.dump != FailedWithFile
  }

  ghost predicate AllOrderly(a: Archive, ops: seq<Op>)
    decreases |ops|
  {
    |ops| > 0 ==> Orderly(a, ops[0]) && AllOrderly(Apply(a, ops[0]), ops[1..])
  }

  /** In particular for runs with one file name per backup, in which no dump leaves a file behind. */
  lemma {:induction false} OrderlyRunMatches(a: Archive, ops: seq<Op>)
    requires Match(a) && IsRun(a, ops) && AllOrderly(a, ops)
    ensures AlwaysMatches(a, ops)
    decreases |ops|
  {
    if |ops| > 0 {
      StepMatchesExactly(a, ops[0]);
      OrderlyRunMatches(Apply(a, ops[0]), ops[1..]);
    }
  }

  /**
   Names carry the time to the second, so that two backups can share one. Unless both are pruned at once, a row is
   then left whose file is gone or holds the dump of the other.
   */
  lemma SharedNameLosesDump(a: Archive, older: Id, id: Id, b: Backup, order: seq<Id>, limit: int)
    requires Match(a) && Enabled(a, Perform(id, b, Dumped, order, limit))
    requires older in a.rows && a.rows[older].filename == b.filename
    requires !(older in Selected(order, limit) && id in Selected(order, limit))
    ensures var d := Apply(a, Perform(id, b, Dumped, order, limit));
      exists k :: k in d.rows && k in {older, id} && d.rows[k].filename == b.filename
        && (b.filename in d.files ==> d.files[b.filename] != DumpOf(k))
  {
    var d := Apply(a, Perform(id, b, Dumped, order, limit));
    var k := if older in Selected(order, limit) then id else older;
    assert k in d.rows && d.rows[k].filename == b.filename;
    if older in Selected(order, limit) {
      assert Added(a, id, b).rows[older].filename == b.filename;
    }
  }
}
