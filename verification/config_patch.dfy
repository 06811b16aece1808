/** A collected difference as a patch: carrying out its entries on the left side,
    in any order, yields the right side. */
module ConfigPatch {
  import opened Json
  import opened ConfigDiff
  import opened Options

  /** Remove what is at the path. */
  function Delete(target: Json, p: Path): Json
    decreases |p|
  {
    if p == [] || !target.Object? then target
    else if |p| == 1 then Object(target.fields - {p[0]})
    else if p[0] in target.fields then
      Object(target.fields[p[0] := Delete(target.fields[p[0]], p[1..])])
    else target
  }

  /** Put at the path what the source has there. */
  function Copy(target: Json, source: Json, p: Path): Json
    decreases |p|
  {
    if p == [] || !target.Object? || !source.Object? || p[0] !in source.fields then target
    else if |p| == 1 then Object(target.fields[p[0] := source.fields[p[0]]])
    else if p[0] in target.fields then
      Object(target.fields[p[0] := Copy(target.fields[p[0]], source.fields[p[0]], p[1..])])
    else target
  }

  function Edit(target: Json, source: Json, e: Entry): Json {
    if e.kind == Removed then Delete(target, e.path) else Copy(target, source, e.path)
  }

  function ApplyAll(target: Json, source: Json, entries: seq<Entry>): Json
    decreases |entries|
  {
    if entries == [] then target
    else ApplyAll(Edit(target, source, entries[0]), source, entries[1..])
  }

  /** The differences under a key, as seen from the key. */
  ghost function Below(done: set<Path>, key: string): set<Path> {
    set p | p in done && |p| > 1 && p[0] == key :: p[1..]
  }

  function Get(v: Json, key: string): Option<Json> {
    if v.Object? && key in v.fields then Some(v.fields[key]) else None
  }

  lemma SameMembersSameObject(a: Json, b: Json)
    requires a.Object? && b.Object? && forall key :: Get(a, key) == Get(b, key)
    ensures a == b
  {
    forall key ensures key in a.fields <==> key in b.fields
      ensures key in a.fields ==> a.fields[key] == b.fields[key]
    {
      assert Get(a, key) == Get(b, key);
    }
    assert a.fields == b.fields;
  }

  /** The left side with exactly the differences in `done` carried out. */
  ghost function Mix(l: Json, r: Json, done: set<Path>): Json
    requires l.Object? && r.Object?
    decreases l, 1
  {
    Object(map key | key in l.fields.Keys + r.fields.Keys && MixAt(l, r, done, key).Some? ::
             MixAt(l, r, done, key).value)
  }

  ghost function MixAt(l: Json, r: Json, done: set<Path>, key: string): Option<Json>
    requires l.Object? && r.Object?
    decreases l, 0
  {
    if [key] in done then Get(r, key)
    else if Descends(l, r, key) then Some(Mix(l.fields[key], r.fields[key], Below(done, key)))
    else Get(l, key)
  }

  lemma GetMix(l: Json, r: Json, done: set<Path>, key: string)
    requires l.Object? && r.Object?
    ensures Get(Mix(l, r, done), key) == MixAt(l, r, done, key)
  {
  }

  ghost predicate AreDiffs(l: Json, r: Json, done: set<Path>) {
    forall p :: p in done ==> DiffAt(l, r, p).Some?
  }

  lemma {:induction false} NothingDone(l: Json, r: Json)
    requires l.Object? && r.Object?
    ensures Mix(l, r, {}) == l
    decreases l
  {
    forall key ensures Get(Mix(l, r, {}), key) == Get(l, key) {
      GetMix(l, r, {}, key);
      if Descends(l, r, key) {
        assert Below({}, key) == {};
        NothingDone(l.fields[key], r.fields[key]);
      }
    }
    SameMembersSameObject(Mix(l, r, {}), l);
  }

  lemma BelowDiffs(l: Json, r: Json, done: set<Path>, key: string)
    requires AreDiffs(l, r, done) && Descends(l, r, key)
    ensures AreDiffs(l.fields[key], r.fields[key], Below(done, key))
    ensures [key] !in done
  {
    assert [key] in done ==> DiffAt(l, r, [key]).Some?;
  }

  lemma {:induction false} EverythingDone(l: Json, r: Json, done: set<Path>)
    requires l.Object? && r.Object?
    requires forall p :: p in done <==> DiffAt(l, r, p).Some?
    ensures Mix(l, r, done) == r
    decreases l
  {
    forall key ensures Get(Mix(l, r, done), key) == Get(r, key) {
      GetMix(l, r, done, key);
      assert [key] in done <==> KindAt(l, r, key).Some?;
      if Descends(l, r, key) {
        forall p ensures p in Below(done, key) <==> DiffAt(l.fields[key], r.fields[key], p).Some? {
          assert ([key] + p)[1..] == p;
          assert [key] + p in done <==> DiffAt(l, r, [key] + p).Some?;
        }
        EverythingDone(l.fields[key], r.fields[key], Below(done, key));
      }
    }
    SameMembersSameObject(Mix(l, r, done), r);
  }

  /** Carrying out one more difference, whichever are already done. */
  lemma {:induction false} OneMoreDone(l: Json, r: Json, done: set<Path>, e: Entry)
    requires l.Object? && r.Object? && AreDiffs(l, r, done)
    requires DiffAt(l, r, e.path) == Some(e.kind)
    ensures Edit(Mix(l, r, done), r, e) == Mix(l, r, done + {e.path})
    decreases |e.path|
  {
    if |e.path| == 1 {
      assert e.path == [e.path[0]];
      TopEdit(l, r, done, e, e.path[0]);
    } else {
      var top, inner := e.path[0], Entry(e.kind, e.path[1..]);
      DeepDiffDescends(l, r, e.path);
      BelowDiffs(l, r, done, top);
      BelowPlus(done, e.path);
      OneMoreDone(l.fields[top], r.fields[top], Below(done, top), inner);
      DeepEdit(l, r, done, e, top);
    }
  }

  lemma TopEdit(l: Json, r: Json, done: set<Path>, e: Entry, top: string)
    requires l.Object? && r.Object? && e.path == [top] && KindAt(l, r, top) == Some(e.kind)
    ensures Edit(Mix(l, r, done), r, e) == Mix(l, r, done + {[top]})
  {
    var before, after := Mix(l, r, done), Mix(l, r, done + {[top]});
    var edited := Edit(before, r, e);
    forall key ensures Get(edited, key) == Get(after, key) {
      GetMix(l, r, done + {[top]}, key);
      if key != top {
        GetMix(l, r, done, key);
        OtherUnchanged(l, r, done, e.path, key);
      }
    }
    SameMembersSameObject(edited, after);
  }

  lemma DeepEdit(l: Json, r: Json, done: set<Path>, e: Entry, top: string)
    requires Descends(l, r, top) && |e.path| > 1 && e.path[0] == top && [top] !in done
    requires Below(done + {e.path}, top) == Below(done, top) + {e.path[1..]}
    requires Edit(Mix(l.fields[top], r.fields[top], Below(done, top)), r.fields[top], Entry(e.kind, e.path[1..]))
             == Mix(l.fields[top], r.fields[top], Below(done, top) + {e.path[1..]})
    ensures Edit(Mix(l, r, done), r, e) == Mix(l, r, done + {e.path})
  {
    var before, after := Mix(l, r, done), Mix(l, r, done + {e.path});
    GetMix(l, r, done, top);
    var edited := Edit(before, r, e);
    forall key ensures Get(edited, key) == Get(after, key) {
      GetMix(l, r, done + {e.path}, key);
      if key != top {
        GetMix(l, r, done, key);
        OtherUnchanged(l, r, done, e.path, key);
      }
    }
    SameMembersSameObject(edited, after);
  }

  lemma DeepDiffDescends(l: Json, r: Json, p: Path)
    requires l.Object? && r.Object? && |p| > 1 && DiffAt(l, r, p).Some?
    ensures Descends(l, r, p[0]) && DiffAt(l.fields[p[0]], r.fields[p[0]], p[1..]) == DiffAt(l, r, p)
  {
    NoDiffInEqual(l.fields[p[0]], p[1..]);
  }

  lemma BelowPlus(done: set<Path>, p: Path)
    requires |p| > 1
    ensures Below(done + {p}, p[0]) == Below(done, p[0]) + {p[1..]}
  {
    var key := p[0];
    forall q | q in Below(done, key) + {p[1..]} ensures q in Below(done + {p}, key) {
      if q == p[1..] {
        assert p in done + {p};
      } else {
        var full :| full in done && |full| > 1 && full[0] == key && full[1..] == q;
        assert full in done + {p};
      }
    }
  }

  /** A difference under one key leaves every other key as it was. */
  lemma OtherUnchanged(l: Json, r: Json, done: set<Path>, p: Path, key: string)
    requires l.Object? && r.Object? && p != [] && key != p[0]
    ensures MixAt(l, r, done + {p}, key) == MixAt(l, r, done, key)
  {
    forall q ensures q in Below(done + {p}, key) <==> q in Below(done, key) {
      if full :| full in done + {p} && |full| > 1 && full[0] == key && full[1..] == q {
        assert full in done;
      }
      if full :| full in done && |full| > 1 && full[0] == key && full[1..] == q {
        assert full in done + {p};
      }
    }
    assert Below(done + {p}, key) == Below(done, key);
  }

  ghost function Paths(entries: seq<Entry>): set<Path> {
    set e | e in entries :: e.path
  }

  lemma {:induction false} ManyMoreDone(l: Json, r: Json, done: set<Path>, entries: seq<Entry>)
    requires l.Object? && r.Object? && AreDiffs(l, r, done)
    requires forall e :: e in entries ==> DiffAt(l, r, e.path) == Some(e.kind)
    ensures ApplyAll(Mix(l, r, done), r, entries) == Mix(l, r, done + Paths(entries))
    decreases |entries|
  {
    if entries == [] {
      assert done + Paths(entries) == done;
    } else {
      OneMoreDone(l, r, done, entries[0]);
      ManyMoreDone(l, r, done + {entries[0].path}, entries[1..]);
      PathsSplit(entries);
      assert done + {entries[0].path} + Paths(entries[1..]) == done + Paths(entries);
    }
  }

  lemma PathsSplit(entries: seq<Entry>)
    requires entries != []
    ensures Paths(entries) == {entries[0].path} + Paths(entries[1..])
  {
    assert entries == [entries[0]] + entries[1..];
    forall p | p in {entries[0].path} + Paths(entries[1..]) ensures p in Paths(entries) {
      if p != entries[0].path {
        var e :| e in entries[1..] && e.path == p;
        assert e in entries;
      }
    }
  }

  /** THE DIFF IS A PATCH. Take the collected entries in any order, each at least
      once: deleting the removed paths and copying the added and changed ones
      from the right turns the left side into the right side. */
  lemma AnyOrderPatches(l: Json, r: Json, entries: seq<Entry>)
    requires l.Object? && r.Object?
    requires forall e :: e in entries <==> e in Walk(l, r)
    ensures ApplyAll(l, r, entries) == r
  {
    forall e ensures e in entries <==> DiffAt(l, r, e.path) == Some(e.kind) {
      WalkIsExact(l, r, e);
    }
    NothingDone(l, r);
    ManyMoreDone(l, r, {}, entries);
    forall p ensures p in Paths(entries) <==> DiffAt(l, r, p).Some? {
      if DiffAt(l, r, p).Some? {
        assert Entry(DiffAt(l, r, p).value, p) in entries;
      }
    }
    EverythingDone(l, r, Paths(entries));
    assert {} + Paths(entries) == Paths(entries);
  }

  /** The entries of one kind, in order. */
  function OfKind(entries: seq<Entry>, kind: Kind): seq<Entry> {
    if entries == [] then []
    else (if entries[0].kind == kind then [entries[0]] else []) + OfKind(entries[1..], kind)
  }

  lemma {:induction false} InOfKind(entries: seq<Entry>, kind: Kind, e: Entry)
    ensures e in OfKind(entries, kind) <==> e in entries && e.kind == kind
  {
    if entries != [] {
      InOfKind(entries[1..], kind, e);
    }
  }

  /** In the three lists of the stored difference: first delete, then add, then
      change. */
  lemma ThreeListsPatch(l: Json, r: Json)
    requires l.Object? && r.Object?
    ensures var d := Walk(l, r);
            ApplyAll(l, r, OfKind(d, Removed) + OfKind(d, Added) + OfKind(d, Changed)) == r
  {
    var d := Walk(l, r);
    var lists := OfKind(d, Removed) + OfKind(d, Added) + OfKind(d, Changed);
    forall e ensures e in lists <==> e in d {
      InOfKind(d, Removed, e);
      InOfKind(d, Added, e);
      InOfKind(d, Changed, e);
    }
    AnyOrderPatches(l, r, lists);
  }
}
