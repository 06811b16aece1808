/** The structural difference between two configuration objects, as a list of
    paths, and what those paths are good for. */
module ConfigDiff {
  import opened Json
  import opened Options

  type Path = seq<string>

  datatype Kind = Added | Removed | Changed

  datatype Entry = Entry(kind: Kind, path: Path)

  /** Both sides hold an object under the key, and not the same one. */
  predicate Descends(l: Json, r: Json, key: string) {
    && l.Object? && r.Object? && key in l.fields && key in r.fields
    && l.fields[key].Object? && r.fields[key].Object? && l.fields[key] != r.fields[key]
  }

  function Under(key: string, entries: seq<Entry>): (r: seq<Entry>)
    ensures |r| == |entries|
    ensures forall i :: 0 <= i < |r| ==> r[i] == Entry(entries[i].kind, [key] + entries[i].path)
  {
    seq(|entries|, i requires 0 <= i < |entries| => Entry(entries[i].kind, [key] + entries[i].path))
  }

  /** The differences in the order in which they are collected. */
  function Walk(l: Json, r: Json): seq<Entry>
    requires l.Object? && r.Object?
    decreases l, 1, 0
  {
    WalkKeys(l, r, SortedKeys(l.fields.Keys + r.fields.Keys))
  }

  function WalkKeys(l: Json, r: Json, keys: seq<string>): seq<Entry>
    requires l.Object? && r.Object?
    decreases l, 0, |keys|
  {
    if keys == [] then [] else WalkKey(l, r, keys[0]) + WalkKeys(l, r, keys[1..])
  }

  function WalkKey(l: Json, r: Json, key: string): seq<Entry>
    requires l.Object? && r.Object?
    decreases l, 0, 0
  {
    if Descends(l, r, key) then Under(key, Walk(l.fields[key], r.fields[key]))
    else match KindAt(l, r, key)
      case None => []
      case Some(kind) => [Entry(kind, [key])]
  }

  /** What happened to the value right under the key. */
  function KindAt(l: Json, r: Json, key: string): Option<Kind>
    requires l.Object? && r.Object?
  {
    if key in l.fields && key in r.fields then
      if l.fields[key] == r.fields[key] || Descends(l, r, key) then None else Some(Changed)
    else if key in l.fields then Some(Removed)
    else if key in r.fields then Some(Added)
    else None
  }

  // ------------------------------------------------ soundness and completeness

  /** What a path says about two values, without walking either of them: follow
      the path while both sides have an object, and compare at its end. */
  function DiffAt(l: Json, r: Json, p: Path): Option<Kind>
    decreases |p|
  {
    if p == [] || !l.Object? || !r.Object? then None
    else if |p| == 1 then KindAt(l, r, p[0])
    else if p[0] in l.fields && p[0] in r.fields then DiffAt(l.fields[p[0]], r.fields[p[0]], p[1..])
    else None
  }

  lemma {:induction false} NoDiffInEqual(v: Json, p: Path)
    ensures DiffAt(v, v, p) == None
    decreases |p|
  {
    if |p| > 1 && v.Object? && p[0] in v.fields {
      NoDiffInEqual(v.fields[p[0]], p[1..]);
    }
  }

  /** SOUND AND COMPLETE. An entry is collected iff its path is a difference of
      its kind. */
  lemma {:induction false} WalkIsExact(l: Json, r: Json, e: Entry)
    requires l.Object? && r.Object?
    ensures e in Walk(l, r) <==> DiffAt(l, r, e.path) == Some(e.kind)
    decreases l, 1, 0
  {
    var keys := SortedKeys(l.fields.Keys + r.fields.Keys);
    WalkKeysIsExact(l, r, keys, e);
    if DiffAt(l, r, e.path) == Some(e.kind) {
      assert e.path[0] in keys;
    }
  }

  lemma {:induction false} WalkKeysIsExact(l: Json, r: Json, keys: seq<string>, e: Entry)
    requires l.Object? && r.Object?
    ensures e in WalkKeys(l, r, keys) <==>
            e.path != [] && e.path[0] in keys && DiffAt(l, r, e.path) == Some(e.kind)
    decreases l, 0, |keys|
  {
    if keys != [] {
      WalkKeyIsExact(l, r, keys[0], e);
      WalkKeysIsExact(l, r, keys[1..], e);
    }
  }

  lemma {:induction false} WalkKeyIsExact(l: Json, r: Json, key: string, e: Entry)
    requires l.Object? && r.Object?
    ensures e in WalkKey(l, r, key) <==>
            e.path != [] && e.path[0] == key && DiffAt(l, r, e.path) == Some(e.kind)
    decreases l, 0, 0
  {
    if Descends(l, r, key) {
      var lv, rv := l.fields[key], r.fields[key];
      if e.path != [] && e.path[0] == key {
        var rest := Entry(e.kind, e.path[1..]);
        WalkIsExact(lv, rv, rest);
        InUnder(key, Walk(lv, rv), e);
      }
    } else {
      assert |e.path| == 1 ==> e.path == [e.path[0]];
      if |e.path| > 1 && key in l.fields {
        NoDiffInEqual(l.fields[key], e.path[1..]);
      }
    }
  }

  lemma InUnder(key: string, entries: seq<Entry>, e: Entry)
    requires e.path != [] && e.path[0] == key
    ensures e in Under(key, entries) <==> Entry(e.kind, e.path[1..]) in entries
  {
    var under := Under(key, entries);
    if e in under {
      var i :| 0 <= i < |under| && under[i] == e;
      assert entries[i] == Entry(e.kind, e.path[1..]);
    }
    if Entry(e.kind, e.path[1..]) in entries {
      var i :| 0 <= i < |entries| && entries[i] == Entry(e.kind, e.path[1..]);
      assert under[i] == e;
    }
  }

  // ------------------------------------------------ each side read on its own

  /** What one document holds at a path. */
  function ValueAt(v: Json, p: Path): Option<Json>
    decreases |p|
  {
    if p == [] then Some(v)
    else if v.Object? && p[0] in v.fields then ValueAt(v.fields[p[0]], p[1..])
    else None
  }

  ghost predicate HoldsObject(v: Json, p: Path) {
    ValueAt(v, p).Some? && ValueAt(v, p).value.Object?
  }

  /** Both sides hold an object above the path. */
  ghost predicate UnderObjects(l: Json, r: Json, p: Path) {
    p != [] && HoldsObject(l, p[..|p| - 1]) && HoldsObject(r, p[..|p| - 1])
  }

  /** Where an entry of each kind stands: in an object of both sides, under a key
      only the right one has, only the left one has, or both have with different
      values that are not both objects. */
  ghost predicate Situated(kind: Kind, l: Json, r: Json, p: Path) {
    && UnderObjects(l, r, p)
    && var (lv, rv) := (ValueAt(l, p), ValueAt(r, p));
       match kind
       case Added => lv.None? && rv.Some?
       case Removed => lv.Some? && rv.None?
       case Changed => lv.Some? && rv.Some? && lv != rv && !(lv.value.Object? && rv.value.Object?)
  }

  lemma TopIsSituated(l: Json, r: Json, key: string, kind: Kind)
    ensures DiffAt(l, r, [key]) == Some(kind) <==> Situated(kind, l, r, [key])
  {
    var p := [key];
    assert p[..0] == [] && p[1..] == [];
    assert ValueAt(l, p[..0]) == Some(l) && ValueAt(r, p[..0]) == Some(r);
    assert l.Object? && key in l.fields ==> ValueAt(l, p) == Some(l.fields[key]);
    assert r.Object? && key in r.fields ==> ValueAt(r, p) == Some(r.fields[key]);
  }

  lemma {:induction false} DiffIsSituated(l: Json, r: Json, p: Path, kind: Kind)
    ensures DiffAt(l, r, p) == Some(kind) <==> Situated(kind, l, r, p)
    decreases |p|
  {
    if |p| == 1 {
      assert p == [p[0]];
      TopIsSituated(l, r, p[0], kind);
    } else if |p| > 1 {
      var q := p[..|p| - 1];
      assert q[0] == p[0] && q[1..] == p[1..][..|p[1..]| - 1];
      if l.Object? && r.Object? && p[0] in l.fields && p[0] in r.fields {
        DiffIsSituated(l.fields[p[0]], r.fields[p[0]], p[1..], kind);
      } else {
        assert ValueAt(l, q).None? || ValueAt(r, q).None? || !l.Object? || !r.Object?;
      }
    }
  }

  /** No difference is collected iff the sides are equal. */
  lemma {:induction false} EmptyWalkIffEqual(l: Json, r: Json)
    requires l.Object? && r.Object?
    ensures Walk(l, r) == [] <==> l == r
    decreases l
  {
    if l == r {
      if Walk(l, r) != [] {
        WalkIsExact(l, r, Walk(l, r)[0]);
        NoDiffInEqual(l, Walk(l, r)[0].path);
      }
    } else {
      var key := FirstDifference(l, r);
      if Descends(l, r, key) {
        EmptyWalkIffEqual(l.fields[key], r.fields[key]);
        var inner := Walk(l.fields[key], r.fields[key])[0];
        WalkIsExact(l.fields[key], r.fields[key], inner);
        WalkIsExact(l, r, Entry(inner.kind, [key] + inner.path));
      } else {
        WalkIsExact(l, r, Entry(KindAt(l, r, key).value, [key]));
      }
    }
  }

  lemma FirstDifference(l: Json, r: Json) returns (key: string)
    requires l.Object? && r.Object? && l != r
    ensures Descends(l, r, key) || KindAt(l, r, key).Some?
  {
    if k :| k in l.fields && k !in r.fields {
      key := k;
    } else if k :| k in r.fields && k !in l.fields {
      key := k;
    } else {
      assert l.fields.Keys == r.fields.Keys;
      assert l.fields != r.fields;
      key :| key in l.fields && l.fields[key] != r.fields[key];
    }
  }

  function FlipKind(kind: Kind): Kind {
    match kind
    case Added => Removed
    case Removed => Added
    case Changed => Changed
  }

  function Flip(entries: seq<Entry>): (r: seq<Entry>)
    ensures |r| == |entries|
    ensures forall i :: 0 <= i < |r| ==> r[i] == Entry(FlipKind(entries[i].kind), entries[i].path)
  {
    seq(|entries|, i requires 0 <= i < |entries| => Entry(FlipKind(entries[i].kind), entries[i].path))
  }

  /** Swapping the sides swaps Added and Removed, keeps Changed, and keeps the order. */
  lemma {:induction false} SwappedSides(l: Json, r: Json)
    requires l.Object? && r.Object?
    ensures Walk(r, l) == Flip(Walk(l, r))
    decreases l, 1, 0
  {
    assert l.fields.Keys + r.fields.Keys == r.fields.Keys + l.fields.Keys;
    SwappedKeys(l, r, SortedKeys(l.fields.Keys + r.fields.Keys));
  }

  lemma {:induction false} SwappedKeys(l: Json, r: Json, keys: seq<string>)
    requires l.Object? && r.Object?
    ensures WalkKeys(r, l, keys) == Flip(WalkKeys(l, r, keys))
    decreases l, 0, |keys|
  {
    if keys != [] {
      var key := keys[0];
      if Descends(l, r, key) {
        SwappedSides(l.fields[key], r.fields[key]);
      }
      assert WalkKey(r, l, key) == Flip(WalkKey(l, r, key));
      SwappedKeys(l, r, keys[1..]);
    }
  }

  // -------------------------------------------------------------- order

  /** The paths part at some position, where the first has the smaller key; so
      neither is a prefix of the other. */
  ghost predicate Before(p: Path, q: Path) {
    exists n: nat :: PartAt(p, q, n)
  }

  predicate PartAt(p: Path, q: Path, n: nat) {
    n < |p| && n < |q| && (forall i :: 0 <= i < n ==> p[i] == q[i]) && Less(p[n], q[n])
  }

  /** The collected paths are strictly increasing, and none extends another. */
  lemma {:induction false} WalkIsOrdered(l: Json, r: Json, i: nat, j: nat)
    requires l.Object? && r.Object? && i < j < |Walk(l, r)|
    ensures Before(Walk(l, r)[i].path, Walk(l, r)[j].path)
    decreases l, 1, 0
  {
    WalkKeysIsOrdered(l, r, SortedKeys(l.fields.Keys + r.fields.Keys), i, j);
  }

  lemma {:induction false} WalkKeysIsOrdered(l: Json, r: Json, keys: seq<string>, i: nat, j: nat)
    requires l.Object? && r.Object? && i < j < |WalkKeys(l, r, keys)|
    requires forall a, b :: 0 <= a < b < |keys| ==> Less(keys[a], keys[b])
    ensures Before(WalkKeys(l, r, keys)[i].path, WalkKeys(l, r, keys)[j].path)
    decreases l, 0, |keys|
  {
    var head, tail := WalkKey(l, r, keys[0]), WalkKeys(l, r, keys[1..]);
    var all := WalkKeys(l, r, keys);
    assert all == head + tail;
    if j < |head| {
      WalkKeyIsOrdered(l, r, keys[0], i, j);
    } else if i < |head| {
      HeadBeforeTail(l, r, keys, all[i], all[j]);
    } else {
      WalkKeysIsOrdered(l, r, keys[1..], i - |head|, j - |head|);
    }
  }

  lemma {:induction false} WalkKeyIsOrdered(l: Json, r: Json, key: string, i: nat, j: nat)
    requires l.Object? && r.Object? && i < j < |WalkKey(l, r, key)|
    ensures Before(WalkKey(l, r, key)[i].path, WalkKey(l, r, key)[j].path)
    decreases l, 0, 0
  {
    var inner := Walk(l.fields[key], r.fields[key]);
    WalkIsOrdered(l.fields[key], r.fields[key], i, j);
    UnderKeepsOrder(key, inner[i].path, inner[j].path);
  }

  lemma UnderKeepsOrder(key: string, p: Path, q: Path)
    requires Before(p, q)
    ensures Before([key] + p, [key] + q)
  {
    var n: nat :| PartAt(p, q, n);
    assert PartAt([key] + p, [key] + q, n + 1);
  }

  lemma HeadBeforeTail(l: Json, r: Json, keys: seq<string>, d: Entry, e: Entry)
    requires l.Object? && r.Object? && keys != []
    requires forall a, b :: 0 <= a < b < |keys| ==> Less(keys[a], keys[b])
    requires d in WalkKey(l, r, keys[0]) && e in WalkKeys(l, r, keys[1..])
    ensures Before(d.path, e.path)
  {
    WalkKeyIsExact(l, r, keys[0], d);
    WalkKeysIsExact(l, r, keys[1..], e);
    assert PartAt(d.path, e.path, 0);
  }

  /** Before separates: different paths, and neither a prefix of the other. */
  lemma BeforeSeparates(p: Path, q: Path)
    requires Before(p, q)
    ensures !(p <= q) && !(q <= p) && !Before(q, p)
  {
    var n: nat :| PartAt(p, q, n);
    LessIsStrictTotal(p[n], q[n]);
    if Before(q, p) {
      var m: nat :| PartAt(q, p, m);
      LessIsStrictTotal(p[m], q[m]);
    }
  }

  // -------------------------------------------------------------- dotted names

  /** The string the source builds for a path as it descends. */
  function Dotted(p: Path): string {
    if p == [] then ""
    else Join(Dotted(p[..|p| - 1]), p[|p| - 1])
  }

  function Join(prefix: string, key: string): string {
    if prefix != "" then prefix + "." + key else key
  }

  predicate PlainKey(key: string) {
    key != "" && '.' !in key
  }

  /** Dotted names are unambiguous over non-empty keys without dots. */
  lemma {:induction false} DottedIsInjective(p: Path, q: Path)
    requires (forall k :: k in p ==> PlainKey(k)) && (forall k :: k in q ==> PlainKey(k))
    requires Dotted(p) == Dotted(q)
    ensures p == q
    decreases |p|
  {
    if p == [] || q == [] {
      DottedIsNotEmpty(p);
      DottedIsNotEmpty(q);
    } else {
      var pi, pk, qi, qk := p[..|p| - 1], p[|p| - 1], q[..|q| - 1], q[|q| - 1];
      assert pk in p && qk in q;
      JoinIsInjective(Dotted(pi), pk, Dotted(qi), qk);
      DottedIsInjective(pi, qi);
      assert p == pi + [pk] && q == qi + [qk];
    }
  }

  lemma JoinIsInjective(a: string, k: string, b: string, l: string)
    requires '.' !in k && '.' !in l && Join(a, k) == Join(b, l)
    ensures a == b && k == l
  {
    LastKeyIsTail(a, k);
    LastKeyIsTail(b, l);
  }

  lemma DottedIsNotEmpty(p: Path)
    requires forall k :: k in p ==> PlainKey(k)
    ensures Dotted(p) == "" <==> p == []
  {
    if p != [] {
      assert p[|p| - 1] in p;
    }
  }

  /** The text after the last dot, and the text before it. */
  function AfterLastDot(s: string): string {
    if s == "" || s[|s| - 1] == '.' then "" else AfterLastDot(s[..|s| - 1]) + [s[|s| - 1]]
  }

  lemma LastKeyIsTail(prefix: string, key: string)
    requires '.' !in key
    ensures AfterLastDot(Join(prefix, key)) == key
    ensures prefix == "" <==> |Join(prefix, key)| == |key|
    ensures prefix != "" ==> prefix == Join(prefix, key)[..|Join(prefix, key)| - |key| - 1]
  {
    if prefix == "" {
      WithoutDot(key);
    } else {
      AfterDot(prefix, key);
    }
  }

  lemma {:induction false} WithoutDot(key: string)
    requires '.' !in key
    ensures AfterLastDot(key) == key
  {
    if key != "" {
      assert key[|key| - 1] in key;
      WithoutDot(key[..|key| - 1]);
    }
  }

  lemma {:induction false} AfterDot(prefix: string, key: string)
    requires '.' !in key
    ensures AfterLastDot(prefix + "." + key) == key
  {
    var all, n := prefix + "." + key, |key| - 1;
    if key != "" {
      assert key[n] in key && all[|all| - 1] == key[n];
      assert all[..|all| - 1] == prefix + "." + key[..n];
      AfterDot(prefix, key[..n]);
    }
  }

  /** The differences of two documents whose keys are plain never share a name. */
  lemma DottedNamesAreUnique(l: Json, r: Json, i: nat, j: nat)
    requires l.Object? && r.Object? && i < j < |Walk(l, r)|
    requires forall e, k :: e in Walk(l, r) && k in e.path ==> PlainKey(k)
    ensures Dotted(Walk(l, r)[i].path) != Dotted(Walk(l, r)[j].path)
  {
    var p, q := Walk(l, r)[i].path, Walk(l, r)[j].path;
    WalkIsOrdered(l, r, i, j);
    BeforeSeparates(p, q);
    assert Walk(l, r)[i] in Walk(l, r) && Walk(l, r)[j] in Walk(l, r);
    if Dotted(p) == Dotted(q) {
      DottedIsInjective(p, q);
    }
  }

  /** No two collected differences share a dotted name. */
  ghost predicate UniqueNames(l: Json, r: Json)
    requires l.Object? && r.Object?
  {
    forall i, j :: 0 <= i < j < |Walk(l, r)| ==> Dotted(Walk(l, r)[i].path) != Dotted(Walk(l, r)[j].path)
  }

  /** Every key of the value, at any depth of nested objects, is one of these. */
  ghost predicate Over(keys: iset<string>, v: Json)
    decreases v
  {
    v.Object? ==> forall k :: k in v.fields ==> k in keys && Over(keys, v.fields[k])
  }

  ghost predicate PathOver(keys: iset<string>, p: Path) {
    forall k :: k in p ==> k in keys
  }

  /** Neither path is a prefix of the other, so one document can hold both. */
  predicate Apart(p: Path, q: Path) {
    !(p <= q) && !(q <= p)
  }

  /** Two paths with one name, both of which a document can hold. */
  ghost predicate Clash(keys: iset<string>, p: Path, q: Path) {
    PathOver(keys, p) && PathOver(keys, q) && Apart(p, q) && Dotted(p) == Dotted(q)
  }

  /** Nested objects along one path, and the leaf at its end. */
  function Chain(p: Path, leaf: Json): Json {
    if p == [] then leaf else Object(map[p[0] := Chain(p[1..], leaf)])
  }

  /** Nested objects along two paths, with the same leaf at both ends. */
  function Fork(p: Path, q: Path, leaf: Json): Json
    requires Apart(p, q)
    decreases |p|
  {
    if p[0] == q[0] then
      assert p == [p[0]] + p[1..] && q == [q[0]] + q[1..];
      Object(map[p[0] := Fork(p[1..], q[1..], leaf)])
    else
      Object(map[p[0] := Chain(p[1..], leaf), q[0] := Chain(q[1..], leaf)])
  }

  lemma {:induction false} ChainDiffers(p: Path, keys: iset<string>)
    requires p != [] && PathOver(keys, p)
    ensures DiffAt(Chain(p, Null), Chain(p, Bool(true)), p) == Some(Changed)
    ensures Over(keys, Chain(p, Null)) && Over(keys, Chain(p, Bool(true)))
    ensures Chain(p, Null) != Chain(p, Bool(true))
  {
    assert p[0] in p;
    if |p| > 1 {
      assert forall k :: k in p[1..] ==> k in p;
      ChainDiffers(p[1..], keys);
    } else {
      assert p[1..] == [];
    }
  }

  lemma {:induction false} ForkDiffers(p: Path, q: Path, keys: iset<string>)
    requires Apart(p, q) && PathOver(keys, p) && PathOver(keys, q)
    ensures DiffAt(Fork(p, q, Null), Fork(p, q, Bool(true)), p) == Some(Changed)
    ensures DiffAt(Fork(p, q, Null), Fork(p, q, Bool(true)), q) == Some(Changed)
    ensures Over(keys, Fork(p, q, Null)) && Over(keys, Fork(p, q, Bool(true)))
    decreases |p|
  {
    assert p[0] in p && q[0] in q;
    assert forall k :: k in p[1..] ==> k in p;
    assert forall k :: k in q[1..] ==> k in q;
    if p[0] == q[0] {
      assert p == [p[0]] + p[1..] && q == [q[0]] + q[1..];
      ForkDiffers(p[1..], q[1..], keys);
    } else {
      ForkPartsHere(p, q, keys);
    }
  }

  lemma ForkPartsHere(p: Path, q: Path, keys: iset<string>)
    requires p != [] && q != [] && p[0] != q[0] && PathOver(keys, p) && PathOver(keys, q)
    ensures DiffAt(Fork(p, q, Null), Fork(p, q, Bool(true)), p) == Some(Changed)
    ensures DiffAt(Fork(p, q, Null), Fork(p, q, Bool(true)), q) == Some(Changed)
    ensures Over(keys, Fork(p, q, Null)) && Over(keys, Fork(p, q, Bool(true)))
  {
    assert p[0] in p && q[0] in q;
    ForkBranch(p, keys);
    ForkBranch(q, keys);
  }

  lemma ForkBranch(p: Path, keys: iset<string>)
    requires p != [] && PathOver(keys, p)
    ensures Over(keys, Chain(p[1..], Null)) && Over(keys, Chain(p[1..], Bool(true)))
    ensures if |p| > 1 then DiffAt(Chain(p[1..], Null), Chain(p[1..], Bool(true)), p[1..]) == Some(Changed)
            else p[1..] == []
  {
    assert forall k :: k in p[1..] ==> k in p;
    if |p| > 1 {
      ChainDiffers(p[1..], keys);
    }
  }

  /** Any two such paths with one name are differences of some two documents. */
  lemma EveryClashHappens(keys: iset<string>, p: Path, q: Path)
    requires Clash(keys, p, q)
    ensures var l, r := Fork(p, q, Null), Fork(p, q, Bool(true));
            && l.Object? && r.Object? && Over(keys, l) && Over(keys, r)
            && Entry(Changed, p) in Walk(l, r) && Entry(Changed, q) in Walk(l, r)
            && !UniqueNames(l, r)
  {
    var l, r := Fork(p, q, Null), Fork(p, q, Bool(true));
    ForkDiffers(p, q, keys);
    WalkIsExact(l, r, Entry(Changed, p));
    WalkIsExact(l, r, Entry(Changed, q));
    var i :| 0 <= i < |Walk(l, r)| && Walk(l, r)[i] == Entry(Changed, p);
    var j :| 0 <= j < |Walk(l, r)| && Walk(l, r)[j] == Entry(Changed, q);
    assert i != j;
  }

  lemma {:induction false} DiffPathOver(keys: iset<string>, l: Json, r: Json, p: Path)
    requires Over(keys, l) && Over(keys, r) && DiffAt(l, r, p).Some?
    ensures PathOver(keys, p)
    decreases |p|
  {
    assert p == [p[0]] + p[1..];
    if |p| > 1 {
      DiffPathOver(keys, l.fields[p[0]], r.fields[p[0]], p[1..]);
    }
  }

  ghost predicate NamesAreUniqueOver(keys: iset<string>) {
    forall l: Json, r: Json :: l.Object? && r.Object? && Over(keys, l) && Over(keys, r) ==> UniqueNames(l, r)
  }

  /** For any set of keys: the documents over it never show two differences under
      one name iff no two paths over it that one document can hold have one name. */
  lemma UniqueIffNoClash(keys: iset<string>)
    ensures NamesAreUniqueOver(keys) <==> forall p, q :: !Clash(keys, p, q)
  {
    if p, q :| Clash(keys, p, q) {
      EveryClashHappens(keys, p, q);
    } else {
      forall l: Json, r: Json | l.Object? && r.Object? && Over(keys, l) && Over(keys, r) ensures UniqueNames(l, r) {
        forall i, j | 0 <= i < j < |Walk(l, r)| ensures Dotted(Walk(l, r)[i].path) != Dotted(Walk(l, r)[j].path) {
          var d, e := Walk(l, r)[i], Walk(l, r)[j];
          assert d in Walk(l, r) && e in Walk(l, r);
          WalkIsExact(l, r, d);
          WalkIsExact(l, r, e);
          DiffPathOver(keys, l, r, d.path);
          DiffPathOver(keys, l, r, e.path);
          WalkIsOrdered(l, r, i, j);
          BeforeSeparates(d.path, e.path);
          assert !Clash(keys, d.path, e.path);
        }
      }
    }
  }

  function WithDot(a: string, b: string): string {
    a + "." + b
  }

  /** A key with a dot behind a non-empty part shares its name with the path
      through its parts. */
  lemma DottedKeyClashes(a: string, b: string)
    requires a != ""
    ensures Clash(iset{a, b, WithDot(a, b)}, [a, b], [WithDot(a, b)])
  {
    DottedPairs(a, b);
    assert Dotted([a, b]) == Join(a, b) == Dotted([WithDot(a, b)]);
  }

  /** Behind an empty key every other key keeps its own name. */
  lemma EmptyKeyClashes(k: string)
    requires k != ""
    ensures Clash(iset{"", k}, ["", k], [k])
  {
    DottedPairs("", k);
    assert Dotted(["", k]) == Join("", k) == k;
  }

  lemma DottedPairs(a: string, b: string)
    ensures Dotted([a]) == a && Dotted([b]) == b && Dotted([a, b]) == Join(a, b)
    ensures Dotted([WithDot(a, b)]) == WithDot(a, b)
  {
    assert [a][..0] == [] && [b][..0] == [] && [a, b][..1] == [a] && [WithDot(a, b)][..0] == [];
  }

  /** With a key, the set holds the parts before and after each of its dots. */
  ghost predicate SplitClosed(keys: iset<string>) {
    forall a, b :: WithDot(a, b) in keys ==> a in keys && b in keys
  }

  /** EXACTLY PLAIN KEYS. Over a set of keys that holds the parts of its keys, and
      is not the empty key alone, names are unique iff every key is plain. */
  lemma NamesAreUniqueIffPlain(keys: iset<string>)
    requires SplitClosed(keys) && keys != iset{""}
    ensures NamesAreUniqueOver(keys) <==> forall k :: k in keys ==> PlainKey(k)
  {
    UniqueIffNoClash(keys);
    if forall k :: k in keys ==> PlainKey(k) {
      forall p, q ensures !Clash(keys, p, q) {
        if Clash(keys, p, q) {
          DottedIsInjective(p, q);
        }
      }
    } else {
      var k :| k in keys && !PlainKey(k);
      var p, q := ClashOf(keys, k);
    }
  }

  /** The empty key alone is safe: of two paths over it one is a prefix of the other. */
  lemma EmptyKeyAloneIsSafe()
    ensures NamesAreUniqueOver(iset{""})
  {
    UniqueIffNoClash(iset{""});
    forall p, q ensures !Clash(iset{""}, p, q) {
      if PathOver(iset{""}, p) && PathOver(iset{""}, q) {
        assert forall i :: 0 <= i < |p| ==> p[i] in p;
        assert forall i :: 0 <= i < |q| ==> q[i] in q;
        assert if |p| <= |q| then p <= q else q <= p;
      }
    }
  }

  /** The two paths that clash because of a key that is not plain. */
  lemma ClashOf(keys: iset<string>, k: string) returns (p: Path, q: Path)
    requires SplitClosed(keys) && keys != iset{""} && k in keys && !PlainKey(k)
    ensures Clash(keys, p, q)
  {
    if k == "" {
      var other :| other in keys && other != "";
      EmptyKeyClashes(other);
      p, q := ["", other], [other];
    } else {
      var i :| 0 <= i < |k| && k[i] == '.';
      var a, b := k[..i], k[i + 1..];
      assert k == WithDot(a, b);
      if a == "" {
        EmptyKeyClashes(k);
        p, q := ["", k], [k];
      } else {
        DottedKeyClashes(a, b);
        p, q := [a, b], [k];
      }
    }
  }
}
