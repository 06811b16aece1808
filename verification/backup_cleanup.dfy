/** Retention cleanup of database backups: for every expired backup the file goes
    first and its row second, so that a cleanup stopped anywhere can be rerun. */
module BackupCleanup {
  import opened Options

  datatype Backup = Backup(id: string, libraryId: int, filePath: string, createdAt: int)

  datatype FileKind = Regular | Irregular

  /** The backup table, by ascending creation time, and the files on disk. */
  datatype World = World(rows: seq<Backup>, disk: map<string, FileKind>)

  /** Where the file of a backup belongs; None if its metadata give no path. */
  type Layout = (int, string) -> Option<string>

  /** The path to delete, if what is stored is where the file belongs. */
  function SafePath(layout: Layout, b: Backup): Option<string> {
    match layout(b.libraryId, b.id)
    case Some(expected) => if b.filePath == expected then Some(expected) else None
    case None => None
  }

  function Expired(rows: seq<Backup>, cutoff: int): seq<Backup> {
    if rows == [] then []
    else if rows[0].createdAt < cutoff then [rows[0]] + Expired(rows[1..], cutoff)
    else Expired(rows[1..], cutoff)
  }

  function Without(rows: seq<Backup>, ids: set<string>): seq<Backup> {
    if rows == [] then []
    else if rows[0].id in ids then Without(rows[1..], ids)
    else [rows[0]] + Without(rows[1..], ids)
  }

  ghost predicate DistinctIds(rows: seq<Backup>) {
    forall i, j :: 0 <= i < j < |rows| ==> rows[i].id != rows[j].id
  }

  datatype Stop = Finished | Interrupted | Refused(id: string)

  datatype Outcome = Outcome(world: World, stop: Stop, filesDeleted: nat, backupsDeleted: nat)

  /** The backup's path is unsafe, or something other than a file lies there. */
  predicate Refuses(layout: Layout, w: World, b: Backup) {
    var path := SafePath(layout, b);
    path.None? || (path.value in w.disk && w.disk[path.value] != Regular)
  }

  /** One run over the expired backups. `budget` is how many changes the run gets
      to make before it is stopped; None lets it run to its end. */
  function Run(layout: Layout, active: set<string>, w: World, todo: seq<Backup>, budget: Option<nat>): Outcome
    decreases |todo|
  {
    if todo == [] then Outcome(w, Finished, 0, 0)
    else
      var b := todo[0];
      if b.id in active then Run(layout, active, w, todo[1..], budget)
      else if Refuses(layout, w, b) then Outcome(w, Refused(b.id), 0, 0)
      else
        var path := SafePath(layout, b).value;
        var present := path in w.disk;
        if present && budget == Some(0) then Outcome(w, Interrupted, 0, 0)
        else
          var w1 := if present then w.(disk := w.disk - {path}) else w;
          var budget1 := if present then Spend(budget) else budget;
          var files := if present then 1 else 0;
          if budget1 == Some(0) then Outcome(w1, Interrupted, files, 0)
          else
            var rest := Run(layout, active, w1.(rows := Without(w1.rows, {b.id})), todo[1..], Spend(budget1));
            rest.(filesDeleted := rest.filesDeleted + files, backupsDeleted := rest.backupsDeleted + 1)
  }

  function Spend(budget: Option<nat>): Option<nat>
    requires budget != Some(0)
  {
    match budget
    case Some(n) => Some(n - 1)
    case None => None
  }

  // ------------------------------------------------------------ list lemmas

  lemma {:induction false} InWithout(rows: seq<Backup>, ids: set<string>, b: Backup)
    ensures b in Without(rows, ids) <==> b in rows && b.id !in ids
  {
    if rows != [] {
      InWithout(rows[1..], ids, b);
    }
  }

  lemma {:induction false} InExpired(rows: seq<Backup>, cutoff: int, b: Backup)
    ensures b in Expired(rows, cutoff) <==> b in rows && b.createdAt < cutoff
  {
    if rows != [] {
      InExpired(rows[1..], cutoff, b);
    }
  }

  /** The expired backups are worked on in the order of the table. */
  lemma {:induction false} ExpiredInOrder(rows: seq<Backup>, cutoff: int) returns (places: seq<nat>)
    ensures |places| == |Expired(rows, cutoff)|
    ensures forall i :: 0 <= i < |places| ==> places[i] < |rows| && Expired(rows, cutoff)[i] == rows[places[i]]
    ensures forall i, j :: 0 <= i < j < |places| ==> places[i] < places[j]
  {
    places := [];
    if rows != [] {
      var rest := ExpiredInOrder(rows[1..], cutoff);
      var shifted := seq(|rest|, i requires 0 <= i < |rest| => rest[i] + 1);
      places := if rows[0].createdAt < cutoff then [0] + shifted else shifted;
    }
  }

  lemma {:induction false} WithoutTwice(rows: seq<Backup>, d: set<string>, e: set<string>)
    ensures Without(Without(rows, d), e) == Without(rows, d + e)
  {
    if rows != [] {
      WithoutTwice(rows[1..], d, e);
      assert rows[0].id !in d ==> Without(rows, d)[1..] == Without(rows[1..], d);
    }
  }

  lemma {:induction false} WithoutNone(rows: seq<Backup>, d: set<string>)
    requires forall b :: b in rows ==> b.id !in d
    ensures Without(rows, d) == rows
  {
    if rows != [] {
      assert rows[0] in rows;
      WithoutNone(rows[1..], d);
    }
  }

  /** Only the ids that occur matter. */
  lemma {:induction false} WithoutSame(rows: seq<Backup>, d: set<string>, e: set<string>)
    requires forall b :: b in rows ==> (b.id in d <==> b.id in e)
    ensures Without(rows, d) == Without(rows, e)
  {
    if rows != [] {
      assert rows[0] in rows;
      WithoutSame(rows[1..], d, e);
    }
  }

  lemma {:induction false} ExpiredWithout(rows: seq<Backup>, d: set<string>, cutoff: int)
    ensures Expired(Without(rows, d), cutoff) == Without(Expired(rows, cutoff), d)
  {
    if rows != [] {
      ExpiredWithout(rows[1..], d, cutoff);
      assert rows[0].id !in d ==> Without(rows, d)[1..] == Without(rows[1..], d);
      assert rows[0].createdAt < cutoff ==> Expired(rows, cutoff)[1..] == Expired(rows[1..], cutoff);
    }
  }

  lemma {:induction false} ExpiredKeepsDistinct(rows: seq<Backup>, cutoff: int)
    requires DistinctIds(rows)
    ensures DistinctIds(Expired(rows, cutoff))
  {
    if rows != [] {
      ExpiredKeepsDistinct(rows[1..], cutoff);
      forall j | 0 <= j < |Expired(rows[1..], cutoff)| ensures Expired(rows[1..], cutoff)[j].id != rows[0].id {
        InExpired(rows[1..], cutoff, Expired(rows[1..], cutoff)[j]);
        var k :| 0 <= k < |rows[1..]| && rows[1..][k] == Expired(rows[1..], cutoff)[j];
        assert rows[k + 1].id != rows[0].id;
      }
    }
  }

  // --------------------------------------------------------- crash convergence

  /** The ids whose rows one run deleted. */
  ghost function Deleted(layout: Layout, active: set<string>, w: World, todo: seq<Backup>, budget: Option<nat>): set<string>
    decreases |todo|
  {
    if todo == [] then {}
    else
      var b := todo[0];
      if b.id in active then Deleted(layout, active, w, todo[1..], budget)
      else if Refuses(layout, w, b) then {}
      else
        var path := SafePath(layout, b).value;
        if path in w.disk && budget == Some(0) then {}
        else
          var w1 := if path in w.disk then w.(disk := w.disk - {path}) else w;
          var budget1 := if path in w.disk then Spend(budget) else budget;
          if budget1 == Some(0) then {}
          else {b.id} + Deleted(layout, active, w1.(rows := Without(w1.rows, {b.id})), todo[1..], Spend(budget1))
  }

  lemma {:induction false} DeletedRows(layout: Layout, active: set<string>, w: World, todo: seq<Backup>, budget: Option<nat>)
    ensures var d := Deleted(layout, active, w, todo, budget);
            && Run(layout, active, w, todo, budget).world.rows == Without(w.rows, d)
            && forall id :: id in d ==> id !in active && exists b :: b in todo && b.id == id
    decreases |todo|
  {
    if todo == [] {
      WithoutNone(w.rows, {});
    } else {
      var b := todo[0];
      WithoutNone(w.rows, {});
      if b.id in active {
        DeletedRows(layout, active, w, todo[1..], budget);
      } else if !Refuses(layout, w, b) {
        var path := SafePath(layout, b).value;
        if !(path in w.disk && budget == Some(0)) {
          var w1 := if path in w.disk then w.(disk := w.disk - {path}) else w;
          var budget1 := if path in w.disk then Spend(budget) else budget;
          if budget1 != Some(0) {
            var w2 := w1.(rows := Without(w1.rows, {b.id}));
            DeletedRows(layout, active, w2, todo[1..], Spend(budget1));
            WithoutTwice(w.rows, {b.id}, Deleted(layout, active, w2, todo[1..], Spend(budget1)));
          }
        }
      }
    }
  }

  /** What is left to do after a stopped run, done to the end, completes it. */
  lemma {:induction false} ResumeCompletes(layout: Layout, active: set<string>, w: World, todo: seq<Backup>, budget: Option<nat>)
    requires DistinctIds(todo)
    ensures var stopped := Run(layout, active, w, todo, budget);
            var d := Deleted(layout, active, w, todo, budget);
            var resumed := Run(layout, active, stopped.world, Without(todo, d), None);
            var full := Run(layout, active, w, todo, None);
            && resumed.world == full.world && resumed.stop == full.stop
            && stopped.filesDeleted + resumed.filesDeleted == full.filesDeleted
            && stopped.backupsDeleted + resumed.backupsDeleted == full.backupsDeleted
    decreases |todo|
  {
    if todo != [] {
      var b, rest := todo[0], todo[1..];
      if b.id in active {
        ResumeCompletes(layout, active, w, rest, budget);
        DeletedRows(layout, active, w, rest, budget);
        var d := Deleted(layout, active, w, rest, budget);
        assert b.id !in d;
        assert Without(todo, d) == [b] + Without(rest, d);
      } else if Refuses(layout, w, b) {
        WithoutNone(todo, {});
      } else {
        var path := SafePath(layout, b).value;
        if path in w.disk && budget == Some(0) {
          WithoutNone(todo, {});
        } else {
          var w1 := if path in w.disk then w.(disk := w.disk - {path}) else w;
          var budget1 := if path in w.disk then Spend(budget) else budget;
          if budget1 == Some(0) {
            WithoutNone(todo, {});
          } else {
            var w2 := w1.(rows := Without(w1.rows, {b.id}));
            var d := Deleted(layout, active, w2, rest, Spend(budget1));
            ResumeCompletes(layout, active, w2, rest, Spend(budget1));
            assert forall c :: c in rest ==> c.id != b.id;
            WithoutSame(rest, {b.id} + d, d);
            assert Without(todo, {b.id} + d) == Without(rest, d);
          }
        }
      }
    }
  }

  /** CONVERGENCE. Stop a cleanup anywhere and rerun it with the same cutoff and
      the same active tasks: rows and files end up as if it had never stopped,
      and between them the two runs delete exactly as much. */
  lemma RerunConverges(layout: Layout, active: set<string>, w: World, cutoff: int, budget: Option<nat>)
    requires DistinctIds(w.rows)
    ensures var full := Run(layout, active, w, Expired(w.rows, cutoff), None);
            var stopped := Run(layout, active, w, Expired(w.rows, cutoff), budget);
            var rerun := Run(layout, active, stopped.world, Expired(stopped.world.rows, cutoff), None);
            && rerun.world == full.world && rerun.stop == full.stop
            && stopped.filesDeleted + rerun.filesDeleted == full.filesDeleted
            && stopped.backupsDeleted + rerun.backupsDeleted == full.backupsDeleted
  {
    var todo := Expired(w.rows, cutoff);
    ExpiredKeepsDistinct(w.rows, cutoff);
    DeletedRows(layout, active, w, todo, budget);
    ExpiredWithout(w.rows, Deleted(layout, active, w, todo, budget), cutoff);
    ResumeCompletes(layout, active, w, todo, budget);
  }

  // ----------------------------------------------------------------- safety

  /** No two backups share a place on disk. */
  ghost predicate OwnPlaces(layout: Layout, rows: seq<Backup>) {
    forall b, c :: (b in rows && c in rows && b.id != c.id && SafePath(layout, b).Some?) ==>
                     SafePath(layout, b) != SafePath(layout, c)
  }

  function Digit(n: nat): (c: char)
    requires n < 10
    ensures c != '/'
  {
    "0123456789"[n]
  }

  function Decimal(n: nat): (s: string)
    ensures '/' !in s
  {
    if n < 10 then [Digit(n)] else Decimal(n / 10) + [Digit(n % 10)]
  }

  /** The source's layout: one directory per library, one file per backup. `isUuid`
      is the check of the backup's id. */
  function ArtifactLayout(root: string, isUuid: string -> bool): Layout {
    (libraryId: int, id: string) =>
      if libraryId <= 0 || !isUuid(id) then None
      else Some(root + "/" + (Decimal(libraryId) + "/" + (id + ".sql.gz")))
  }

  function FirstSlash(s: string): nat {
    if s == "" || s[0] == '/' then 0 else 1 + FirstSlash(s[1..])
  }

  lemma {:induction false} SlashAfter(d: string, u: string)
    requires '/' !in d
    ensures FirstSlash(d + "/" + u) == |d|
    decreases |d|
  {
    if d == "" {
      assert d + "/" + u == "/" + u;
    } else {
      assert (d + "/" + u)[1..] == d[1..] + "/" + u;
      SlashAfter(d[1..], u);
    }
  }

  /** The number a text of decimal digits denotes. */
  function ReadDecimal(s: string): nat {
    if s == "" then 0
    else ReadDecimal(s[..|s| - 1]) * 10 + (if '0' <= s[|s| - 1] <= '9' then (s[|s| - 1] - '0') as nat else 0)
  }

  lemma {:induction false} DecimalReadsBack(n: nat)
    ensures ReadDecimal(Decimal(n)) == n && Decimal(n) != "" && (n > 0 ==> Decimal(n)[0] != '0')
    ensures forall c :: c in Decimal(n) ==> '0' <= c <= '9'
  {
    if n >= 10 {
      DecimalReadsBack(n / 10);
    }
    assert Decimal(n)[..|Decimal(n)| - 1] == if n < 10 then "" else Decimal(n / 10);
  }

  /** A backup has a path iff its metadata are sound and the stored path is the one
      they give: root, library number, id. */
  lemma SafePathIs(root: string, isUuid: string -> bool, b: Backup, path: string)
    ensures SafePath(ArtifactLayout(root, isUuid), b) == Some(path) <==>
            && b.libraryId > 0 && isUuid(b.id) && b.filePath == path
            && path == root + "/" + Decimal(b.libraryId) + "/" + b.id + ".sql.gz"
  {
    if b.libraryId > 0 {
      var digits := Decimal(b.libraryId);
      assert root + "/" + digits + "/" + b.id + ".sql.gz" == root + "/" + (digits + "/" + (b.id + ".sql.gz"));
    }
  }

  lemma CutAtSlash(d: string, e: string, u: string, v: string)
    requires '/' !in d && '/' !in e && d + "/" + u == e + "/" + v
    ensures d == e && u == v
  {
    var s := d + "/" + u;
    SlashAfter(d, u);
    SlashAfter(e, v);
    assert d == s[..|d|] && e == s[..|e|] && u == s[|d| + 1..] && v == s[|e| + 1..];
  }

  lemma EndsAlike(u: string, v: string, end: string)
    requires u + end == v + end
    ensures u == v
  {
    assert u == (u + end)[..|u|] && v == (v + end)[..|v|];
  }

  lemma StartsAlike(start: string, u: string, v: string)
    requires start + u == start + v
    ensures u == v
  {
    assert u == (start + u)[|start|..] && v == (start + v)[|start|..];
  }

  /** Two backups with different ids lie in different places, whatever their
      libraries. */
  lemma ArtifactsLieApart(root: string, isUuid: string -> bool, rows: seq<Backup>)
    ensures OwnPlaces(ArtifactLayout(root, isUuid), rows)
  {
    var layout := ArtifactLayout(root, isUuid);
    forall b, c | b in rows && c in rows && b.id != c.id && SafePath(layout, b).Some?
      ensures SafePath(layout, b) != SafePath(layout, c)
    {
      if SafePath(layout, b) == SafePath(layout, c) {
        var u, v := b.id + ".sql.gz", c.id + ".sql.gz";
        StartsAlike(root + "/", Decimal(b.libraryId) + "/" + u, Decimal(c.libraryId) + "/" + v);
        CutAtSlash(Decimal(b.libraryId), Decimal(c.libraryId), u, v);
        EndsAlike(b.id, c.id, ".sql.gz");
      }
    }
  }

  /** A run only ever removes regular files, each the file of an inactive backup
      on its list. */
  lemma {:induction false} DiskShrinks(layout: Layout, active: set<string>, w: World, todo: seq<Backup>, budget: Option<nat>)
    ensures var w' := Run(layout, active, w, todo, budget).world;
            && w'.disk.Keys <= w.disk.Keys
            && (forall p :: p in w'.disk ==> w'.disk[p] == w.disk[p])
            && (forall p :: p in w.disk && p !in w'.disk ==>
                  w.disk[p] == Regular && exists c :: c in todo && c.id !in active && SafePath(layout, c) == Some(p))
    decreases |todo|
  {
    if todo != [] {
      var c, rest := todo[0], todo[1..];
      if c.id in active {
        DiskShrinks(layout, active, w, rest, budget);
      } else if !Refuses(layout, w, c) {
        var path := SafePath(layout, c).value;
        if !(path in w.disk && budget == Some(0)) {
          var w1 := if path in w.disk then w.(disk := w.disk - {path}) else w;
          var budget1 := if path in w.disk then Spend(budget) else budget;
          if budget1 != Some(0) {
            DiskShrinks(layout, active, w1.(rows := Without(w1.rows, {c.id})), rest, Spend(budget1));
          }
        }
      }
    }
  }

  /** A deleted row's file is gone by the time the run stops. */
  lemma {:induction false} DeletedFilesAreGone(layout: Layout, active: set<string>, w: World, todo: seq<Backup>,
                                               budget: Option<nat>, b: Backup)
    requires DistinctIds(todo) && b in todo && b.id in Deleted(layout, active, w, todo, budget)
    ensures SafePath(layout, b).Some?
    ensures SafePath(layout, b).value !in Run(layout, active, w, todo, budget).world.disk
    decreases |todo|
  {
    var c, rest := todo[0], todo[1..];
    assert b == c || b in rest;
    assert b in rest ==> b.id != c.id;
    if c.id in active {
      DeletedRows(layout, active, w, rest, budget);
      DeletedFilesAreGone(layout, active, w, rest, budget, b);
    } else {
      var path := SafePath(layout, c).value;
      var w1 := if path in w.disk then w.(disk := w.disk - {path}) else w;
      var budget1 := if path in w.disk then Spend(budget) else budget;
      var w2 := w1.(rows := Without(w1.rows, {c.id}));
      DiskShrinks(layout, active, w2, rest, Spend(budget1));
      if b != c {
        DeletedFilesAreGone(layout, active, w2, rest, Spend(budget1), b);
      }
    }
  }

  /** SAFETY. Wherever a run stops: a backup without its row was expired and
      inactive and has no file left, so every backup file still on disk still has
      its row; and an unexpired or active backup keeps its row and its file. */
  lemma StoppedRunIsSafe(root: string, isUuid: string -> bool, active: set<string>, w: World, cutoff: int,
                         budget: Option<nat>, b: Backup)
    requires DistinctIds(w.rows) && b in w.rows
    ensures var layout := ArtifactLayout(root, isUuid);
            var w' := Run(layout, active, w, Expired(w.rows, cutoff), budget).world;
            && (b !in w'.rows ==>
                  && b.createdAt < cutoff && b.id !in active
                  && SafePath(layout, b).Some? && SafePath(layout, b).value !in w'.disk)
            && (b.createdAt >= cutoff || b.id in active ==>
                  && b in w'.rows
                  && forall p :: SafePath(layout, b) == Some(p) && p in w.disk ==> p in w'.disk && w'.disk[p] == w.disk[p])
  {
    var layout := ArtifactLayout(root, isUuid);
    ArtifactsLieApart(root, isUuid, w.rows);
    var todo := Expired(w.rows, cutoff);
    var d := Deleted(layout, active, w, todo, budget);
    ExpiredKeepsDistinct(w.rows, cutoff);
    DeletedRows(layout, active, w, todo, budget);
    DiskShrinks(layout, active, w, todo, budget);
    InWithout(w.rows, d, b);
    if b.id in d {
      var c :| c in todo && c.id == b.id;
      InExpired(w.rows, cutoff, c);
      SameIdSameRow(w.rows, b, c);
      DeletedFilesAreGone(layout, active, w, todo, budget, b);
    }
    forall c | c in todo && c.id !in active && SafePath(layout, c) == SafePath(layout, b) && SafePath(layout, b).Some?
      ensures b.createdAt < cutoff && b.id !in active
    {
      InExpired(w.rows, cutoff, c);
      if c.id == b.id {
        SameIdSameRow(w.rows, b, c);
      }
    }
  }

  lemma SameIdSameRow(rows: seq<Backup>, b: Backup, c: Backup)
    requires DistinctIds(rows) && b in rows && c in rows && b.id == c.id
    ensures b == c
  {
    var i :| 0 <= i < |rows| && rows[i] == b;
    var j :| 0 <= j < |rows| && rows[j] == c;
    assert i == j;
  }

  /** A run that is not stopped finishes iff no expired inactive backup is refused,
      and then it has deleted every one of them and nothing else. */
  lemma {:induction false} FinishesIffNoneRefused(layout: Layout, active: set<string>, w: World, todo: seq<Backup>)
    ensures Run(layout, active, w, todo, None).stop == Finished <==>
            forall b :: b in todo && b.id !in active ==> !Refuses(layout, w, b)
    ensures Run(layout, active, w, todo, None).stop == Finished ==>
              forall id :: id in Deleted(layout, active, w, todo, None) <==>
                           id !in active && exists b :: b in todo && b.id == id
    decreases |todo|
  {
    if todo != [] {
      var c, rest := todo[0], todo[1..];
      if c.id in active {
        FinishesIffNoneRefused(layout, active, w, rest);
      } else if !Refuses(layout, w, c) {
        var path := SafePath(layout, c).value;
        var w1 := if path in w.disk then w.(disk := w.disk - {path}) else w;
        var w2 := w1.(rows := Without(w1.rows, {c.id}));
        FinishesIffNoneRefused(layout, active, w2, rest);
        assert forall b :: Refuses(layout, w2, b) <==> Refuses(layout, w, b);
      } else {
        assert c in todo;
      }
    }
  }

  /** Which backups of the list are refused, by their metadata and the file found. */
  lemma RefusesIff(root: string, isUuid: string -> bool, w: World, b: Backup)
    ensures !Refuses(ArtifactLayout(root, isUuid), w, b) <==>
            exists path :: SafePath(ArtifactLayout(root, isUuid), b) == Some(path) &&
                           (path !in w.disk || w.disk[path] == Regular)
  {
  }

  /** The counts of a run are the files and rows it removed. */
  lemma {:induction false} CountsAreExact(layout: Layout, active: set<string>, w: World, todo: seq<Backup>, budget: Option<nat>)
    requires DistinctIds(todo) && DistinctIds(w.rows) && forall b :: b in todo ==> b in w.rows
    ensures var run := Run(layout, active, w, todo, budget);
            && run.filesDeleted == |w.disk| - |run.world.disk|
            && run.backupsDeleted == |w.rows| - |run.world.rows|
    decreases |todo|
  {
    if todo != [] {
      var b, rest := todo[0], todo[1..];
      assert forall c :: c in rest ==> c in todo;
      if b.id in active {
        CountsAreExact(layout, active, w, rest, budget);
      } else if !Refuses(layout, w, b) {
        var path := SafePath(layout, b).value;
        if !(path in w.disk && budget == Some(0)) {
          var w1 := if path in w.disk then w.(disk := w.disk - {path}) else w;
          var budget1 := if path in w.disk then Spend(budget) else budget;
          if budget1 != Some(0) {
            var w2 := w1.(rows := Without(w1.rows, {b.id}));
            OneRowLess(w.rows, b);
            forall c | c in rest ensures c in w2.rows {
              InWithout(w.rows, {b.id}, c);
            }
            CountsAreExact(layout, active, w2, rest, Spend(budget1));
          }
        }
      }
    }
  }

  lemma {:induction false} OneRowLess(rows: seq<Backup>, b: Backup)
    requires DistinctIds(rows) && b in rows
    ensures |Without(rows, {b.id})| == |rows| - 1 && DistinctIds(Without(rows, {b.id}))
  {
    if rows[0] == b {
      assert forall c :: c in rows[1..] ==> c.id != b.id;
      WithoutNone(rows[1..], {b.id});
    } else {
      assert b in rows[1..] && rows[0].id != b.id by {
        var i :| 0 <= i < |rows| && rows[i] == b;
        assert rows[1..][i - 1] == b;
      }
      OneRowLess(rows[1..], b);
      forall j | 0 <= j < |Without(rows[1..], {b.id})| ensures Without(rows[1..], {b.id})[j].id != rows[0].id {
        InWithout(rows[1..], {b.id}, Without(rows[1..], {b.id})[j]);
      }
    }
  }

  // --------------------------------------------------------------- the cleaner

  class Cleaner {
    const layout: Layout
    var world: World

    constructor (layout: Layout, world: World)
      ensures this.layout == layout && this.world == world
    {
      this.layout, this.world := layout, world;
    }

    /** RunNow, stopped after `budget` changes; None lets it run. */
    method RunNow(cutoff: int, active: set<string>, budget: Option<nat>)
      returns (stop: Stop, filesDeleted: nat, backupsDeleted: nat)
      modifies this
      ensures Outcome(world, stop, filesDeleted, backupsDeleted)
              == Run(layout, active, old(world), Expired(old(world.rows), cutoff), budget)
    {
      var backups := Expired(world.rows, cutoff);
      var left := budget;
      filesDeleted, backupsDeleted := 0, 0;
      ghost var whole := Run(layout, active, world, backups, budget);
      for i := 0 to |backups|
        invariant var rest := Run(layout, active, world, backups[i..], left);
                  whole == rest.(filesDeleted := filesDeleted + rest.filesDeleted,
                                 backupsDeleted := backupsDeleted + rest.backupsDeleted)
      {
        var backup := backups[i];
        assert backups[i..][0] == backup && backups[i..][1..] == backups[i + 1..];
        if backup.id in active {
          continue;
        }
        var path := SafePath(layout, backup);
        if path.None? {
          return Refused(backup.id), filesDeleted, backupsDeleted;
        }
        if path.value in world.disk {
          if world.disk[path.value] != Regular {
            return Refused(backup.id), filesDeleted, backupsDeleted;
          }
          if left == Some(0) {
            return Interrupted, filesDeleted, backupsDeleted;
          }
          world := world.(disk := world.disk - {path.value});
          left := Spend(left);
          filesDeleted := filesDeleted + 1;
        }
        if left == Some(0) {
          return Interrupted, filesDeleted, backupsDeleted;
        }
        world := world.(rows := Without(world.rows, {backup.id}));
        left := Spend(left);
        backupsDeleted := backupsDeleted + 1;
      }
      return Finished, filesDeleted, backupsDeleted;
    }
  }
}
