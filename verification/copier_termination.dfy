/** When the response copier returns at all. It remembers the pointers it has
    followed, but not the slices and maps it has entered; Go lets a slice or map
    contain itself. */
module CopierTermination {
  import opened Options

  /** A Go value by what the copier does with it: nothing behind it, a pointer, or a
      value with parts that it copies one by one without remembering it: a struct
      with its exported fields, an interface, an array, a slice or a map. Slices and
      maps can be shared, so graphs have cycles of every kind. */
  datatype Node =
    | Plain
    | Pointer(target: nat)
    | Container(parts: seq<nat>)

  type Graph = map<nat, Node>

  function At(g: Graph, n: nat): Node {
    if n in g then g[n] else Plain
  }

  /** The copier's recursion, cut off below a depth. It returns the pointers
      followed; None if it was cut off. */
  function Copy(g: Graph, n: nat, seen: set<nat>, depth: nat): Option<set<nat>>
    decreases depth, 0
  {
    if depth == 0 then None
    else
      match At(g, n)
      case Plain => Some(seen)
      case Pointer(t) => if t in seen then Some(seen) else Copy(g, t, seen + {t}, depth - 1)
      case Container(parts) => CopyParts(g, parts, seen, depth - 1)
  }

  function CopyParts(g: Graph, parts: seq<nat>, seen: set<nat>, depth: nat): Option<set<nat>>
    decreases depth, |parts| + 1
  {
    if parts == [] then Some(seen)
    else
      match Copy(g, parts[0], seen, depth)
      case None => None
      case Some(met) => CopyParts(g, parts[1..], met, depth)
  }

  /** The copier returns: some depth is deep enough. */
  ghost predicate Returns(g: Graph, root: nat) {
    exists depth: nat :: Copy(g, root, {}, depth).Some?
  }

  // --------------------------------------------------------------- reachability

  predicate Holds(g: Graph, a: nat, b: nat) {
    At(g, a).Container? && b in At(g, a).parts
  }

  predicate LeadsTo(g: Graph, a: nat, b: nat) {
    Holds(g, a, b) || At(g, a) == Pointer(b)
  }

  ghost predicate ReachedIn(g: Graph, root: nat, n: nat, d: nat)
    decreases d
  {
    if d == 0 then n == root
    else exists m :: ReachedIn(g, root, m, d - 1) && LeadsTo(g, m, n)
  }

  ghost predicate Reached(g: Graph, root: nat, n: nat) {
    exists d: nat :: ReachedIn(g, root, n, d)
  }

  lemma ReachedNext(g: Graph, root: nat, m: nat, n: nat)
    requires Reached(g, root, m) && LeadsTo(g, m, n)
    ensures Reached(g, root, n)
  {
    var d: nat :| ReachedIn(g, root, m, d);
    assert ReachedIn(g, root, n, d + 1);
  }

  /** Each holds the next. */
  ghost predicate Nested(g: Graph, path: seq<nat>) {
    forall i :: 0 <= i < |path| - 1 ==> Holds(g, path[i], path[i + 1])
  }

  /** `path` leads from a slice or map through its parts, without a pointer, back to
      where it begins. */
  ghost predicate Loop(g: Graph, path: seq<nat>) {
    |path| >= 2 && Nested(g, path) && path[0] == path[|path| - 1]
  }

  ghost predicate ContainsItself(g: Graph, n: nat) {
    exists path :: Loop(g, path) && path[0] == n
  }

  // ------------------------------------------------------- returning is not looping

  /** Every way down from `n` ends within `depth` levels: at a plain value or at a
      pointer in `seen`. */
  ghost predicate Ends(g: Graph, n: nat, seen: set<nat>, depth: nat)
    decreases depth
  {
    depth > 0 &&
    match At(g, n)
    case Plain => true
    case Pointer(t) => t in seen
    case Container(parts) => forall p :: p in parts ==> Ends(g, p, seen, depth - 1)
  }

  lemma {:induction false} EndsMore(g: Graph, n: nat, seen: set<nat>, depth: nat, seen': set<nat>)
    requires Ends(g, n, seen, depth) && seen <= seen'
    ensures Ends(g, n, seen', depth)
    decreases depth
  {
    if At(g, n).Container? {
      forall p | p in At(g, n).parts ensures Ends(g, p, seen', depth - 1) {
        EndsMore(g, p, seen, depth - 1, seen');
      }
    }
  }

  ghost predicate EndsSomewhere(g: Graph, n: nat, seen: set<nat>) {
    exists depth: nat :: Ends(g, n, seen, depth)
  }

  /** What lies behind every newly followed pointer ends as well. */
  ghost predicate NewEnd(g: Graph, seen: set<nat>, met: set<nat>) {
    forall t :: t in met && t !in seen ==> EndsSomewhere(g, t, met)
  }

  lemma NewEndOn(g: Graph, seen: set<nat>, met: set<nat>, met': set<nat>)
    requires NewEnd(g, seen, met) && NewEnd(g, met, met') && seen <= met <= met'
    ensures NewEnd(g, seen, met')
  {
    forall t | t in met' && t !in seen ensures EndsSomewhere(g, t, met') {
      if t in met {
        var depth: nat :| Ends(g, t, met, depth);
        EndsMore(g, t, met, depth, met');
      }
    }
  }

  lemma {:induction false} CopyEnds(g: Graph, n: nat, seen: set<nat>, depth: nat)
    requires Copy(g, n, seen, depth).Some?
    ensures var met := Copy(g, n, seen, depth).value;
            seen <= met && Ends(g, n, met, depth) && NewEnd(g, seen, met)
    decreases depth, 0
  {
    match At(g, n)
    case Plain =>
    case Pointer(t) =>
      if t !in seen {
        CopyEnds(g, t, seen + {t}, depth - 1);
        var met := Copy(g, n, seen, depth).value;
        assert EndsSomewhere(g, t, met);
      }
    case Container(parts) => CopyPartsEnd(g, parts, seen, depth - 1);
  }

  lemma {:induction false} CopyPartsEnd(g: Graph, parts: seq<nat>, seen: set<nat>, depth: nat)
    requires CopyParts(g, parts, seen, depth).Some?
    ensures var met := CopyParts(g, parts, seen, depth).value;
            seen <= met && NewEnd(g, seen, met) && forall p :: p in parts ==> Ends(g, p, met, depth)
    decreases depth, |parts| + 1
  {
    if parts != [] {
      CopyEnds(g, parts[0], seen, depth);
      var first := Copy(g, parts[0], seen, depth).value;
      CopyPartsEnd(g, parts[1..], first, depth);
      var met := CopyParts(g, parts[1..], first, depth).value;
      EndsMore(g, parts[0], first, depth, met);
      NewEndOn(g, seen, first, met);
      assert parts == [parts[0]] + parts[1..];
    }
  }

  lemma {:induction false} ReachedEnds(g: Graph, root: nat, met: set<nat>, n: nat, d: nat)
    requires EndsSomewhere(g, root, met) && NewEnd(g, {}, met) && ReachedIn(g, root, n, d)
    ensures EndsSomewhere(g, n, met)
    decreases d
  {
    if d > 0 {
      var m :| ReachedIn(g, root, m, d - 1) && LeadsTo(g, m, n);
      ReachedEnds(g, root, met, m, d - 1);
      var depth: nat :| Ends(g, m, met, depth);
      if Holds(g, m, n) {
        assert Ends(g, n, met, depth - 1);
      } else {
        assert n in met && n !in {};
      }
    }
  }

  lemma {:induction false} LoopNeverEnds(g: Graph, path: seq<nat>, i: nat, seen: set<nat>, depth: nat)
    requires Loop(g, path) && i < |path|
    ensures !Ends(g, path[i], seen, depth)
    decreases depth
  {
    if depth > 0 {
      var k := if i == |path| - 1 then 0 else i;
      assert path[k] == path[i] && Holds(g, path[k], path[k + 1]);
      LoopNeverEnds(g, path, k + 1, seen, depth - 1);
    }
  }

  // ------------------------------------------------------ not looping is returning

  /** Every way down from `n` that follows no pointer is shorter than `depth`. */
  ghost predicate Shallow(g: Graph, n: nat, depth: nat)
    decreases depth
  {
    depth > 0 && (At(g, n).Container? ==> forall p :: p in At(g, n).parts ==> Shallow(g, p, depth - 1))
  }

  lemma {:induction false} ShallowMore(g: Graph, n: nat, depth: nat, depth': nat)
    requires Shallow(g, n, depth) && depth <= depth'
    ensures Shallow(g, n, depth')
    decreases depth
  {
    if At(g, n).Container? {
      forall p | p in At(g, n).parts ensures Shallow(g, p, depth' - 1) {
        ShallowMore(g, p, depth - 1, depth' - 1);
      }
    }
  }

  ghost predicate HasDepth(g: Graph, n: nat) {
    exists depth: nat :: Shallow(g, n, depth)
  }

  lemma {:induction false} CommonDepth(g: Graph, parts: seq<nat>) returns (depth: nat)
    requires forall p :: p in parts ==> HasDepth(g, p)
    ensures forall p :: p in parts ==> Shallow(g, p, depth)
  {
    depth := 0;
    if parts != [] {
      assert parts[0] in parts && forall p :: p in parts[1..] ==> p in parts;
      var first: nat :| Shallow(g, parts[0], first);
      var rest := CommonDepth(g, parts[1..]);
      depth := if first < rest then rest else first;
      forall p | p in parts ensures Shallow(g, p, depth) {
        if p == parts[0] {
          ShallowMore(g, p, first, depth);
        } else {
          assert p in parts[1..];
          ShallowMore(g, p, rest, depth);
        }
      }
    }
  }

  lemma PartsGiveDepth(g: Graph, n: nat)
    requires At(g, n).Container? && forall p :: p in At(g, n).parts ==> HasDepth(g, p)
    ensures HasDepth(g, n)
  {
    var depth := CommonDepth(g, At(g, n).parts);
    assert Shallow(g, n, depth + 1);
  }

  /** A value without a depth has a part without one. */
  lemma BottomlessPart(g: Graph, n: nat) returns (p: nat)
    requires !HasDepth(g, n)
    ensures Holds(g, n, p) && !HasDepth(g, p)
  {
    assert !At(g, n).Container? ==> Shallow(g, n, 1);
    if forall q :: q in At(g, n).parts ==> HasDepth(g, q) {
      PartsGiveDepth(g, n);
    }
    p :| p in At(g, n).parts && !HasDepth(g, p);
  }

  ghost predicate NoRepeats(path: seq<nat>) {
    forall i, j :: 0 <= i < j < |path| ==> path[i] != path[j]
  }

  lemma {:induction false} AtMostAll(path: seq<nat>, all: set<nat>)
    requires NoRepeats(path) && forall n :: n in path ==> n in all
    ensures |path| <= |all|
    decreases |path|
  {
    if path != [] {
      var last := path[|path| - 1];
      var init := path[..|path| - 1];
      assert forall n :: n in init ==> n in path;
      assert last in path && last !in init;
      AtMostAll(init, all - {last});
    }
  }

  /** Going down from a value without a depth, one comes back somewhere. */
  lemma {:induction false} WalkRound(g: Graph, root: nat, path: seq<nat>) returns (loop: seq<nat>)
    requires path != [] && NoRepeats(path) && Nested(g, path) && forall n :: n in path ==> n in g
    requires Reached(g, root, path[|path| - 1]) && forall n :: n in path ==> Reached(g, root, n)
    requires !HasDepth(g, path[|path| - 1])
    ensures Loop(g, loop) && Reached(g, root, loop[0])
    decreases |g| - |path|
  {
    var last := path[|path| - 1];
    var next := BottomlessPart(g, last);
    ReachedNext(g, root, last, next);
    if i :| 0 <= i < |path| && path[i] == next {
      loop := path[i..] + [next];
      assert forall k :: 0 <= k < |loop| - 1 ==> Holds(g, loop[k], loop[k + 1]);
    } else {
      var longer := path + [next];
      var after := BottomlessPart(g, next);
      assert next in g;
      AtMostAll(longer, g.Keys);
      loop := WalkRound(g, root, longer);
    }
  }

  lemma BottomlessLoops(g: Graph, root: nat, n: nat) returns (m: nat)
    requires Reached(g, root, n) && !HasDepth(g, n)
    ensures Reached(g, root, m) && ContainsItself(g, m)
  {
    var part := BottomlessPart(g, n);
    var loop := WalkRound(g, root, [n]);
    m := loop[0];
  }

  lemma {:induction false} CopyDeeper(g: Graph, n: nat, seen: set<nat>, depth: nat, depth': nat)
    requires Copy(g, n, seen, depth).Some? && depth <= depth'
    ensures Copy(g, n, seen, depth') == Copy(g, n, seen, depth)
    decreases depth, 0
  {
    match At(g, n)
    case Plain =>
    case Pointer(t) =>
      if t !in seen {
        CopyDeeper(g, t, seen + {t}, depth - 1, depth' - 1);
      }
    case Container(parts) => CopyPartsDeeper(g, parts, seen, depth - 1, depth' - 1);
  }

  lemma {:induction false} CopyPartsDeeper(g: Graph, parts: seq<nat>, seen: set<nat>, depth: nat, depth': nat)
    requires CopyParts(g, parts, seen, depth).Some? && depth <= depth'
    ensures CopyParts(g, parts, seen, depth') == CopyParts(g, parts, seen, depth)
    decreases depth, |parts| + 1
  {
    if parts != [] {
      CopyDeeper(g, parts[0], seen, depth, depth');
      CopyPartsDeeper(g, parts[1..], Copy(g, parts[0], seen, depth).value, depth, depth');
    }
  }

  ghost predicate AllHaveDepth(g: Graph, root: nat) {
    forall n :: Reached(g, root, n) ==> HasDepth(g, n)
  }

  /** The measure: pointers not yet followed, and then the depth without pointers. */
  lemma {:induction false} CopyReturns(g: Graph, root: nat, n: nat, seen: set<nat>, level: nat) returns (depth: nat)
    requires AllHaveDepth(g, root) && Reached(g, root, n) && Shallow(g, n, level)
    ensures Copy(g, n, seen, depth).Some?
    decreases g.Keys - seen, level, 0
  {
    match At(g, n)
    case Plain => depth := 1;
    case Pointer(t) =>
      depth := 1;
      if t !in seen {
        ReachedNext(g, root, n, t);
        if t in g {
          var below: nat :| Shallow(g, t, below);
          assert t in g.Keys - seen;
          var d := CopyReturns(g, root, t, seen + {t}, below);
          depth := d + 1;
        } else {
          depth := 2;
          assert Copy(g, t, seen + {t}, 1) == Some(seen + {t});
        }
      }
    case Container(parts) =>
      forall p | p in parts ensures Reached(g, root, p) {
        ReachedNext(g, root, n, p);
      }
      var d := CopyPartsReturn(g, root, parts, seen, level - 1);
      depth := d + 1;
  }

  lemma {:induction false} CopyPartsReturn(g: Graph, root: nat, parts: seq<nat>, seen: set<nat>, level: nat)
    returns (depth: nat)
    requires AllHaveDepth(g, root) && forall p :: p in parts ==> Reached(g, root, p) && Shallow(g, p, level)
    ensures CopyParts(g, parts, seen, depth).Some?
    decreases g.Keys - seen, level, |parts| + 1
  {
    depth := 0;
    if parts != [] {
      assert parts[0] in parts && forall p :: p in parts[1..] ==> p in parts;
      var first := CopyReturns(g, root, parts[0], seen, level);
      CopyEnds(g, parts[0], seen, first);
      var met := Copy(g, parts[0], seen, first).value;
      var rest := CopyPartsReturn(g, root, parts[1..], met, level);
      depth := if first < rest then rest else first;
      CopyDeeper(g, parts[0], seen, first, depth);
      CopyPartsDeeper(g, parts[1..], met, rest, depth);
    }
  }

  /** EXACTLY WHEN THE COPIER RETURNS. It returns iff nothing it reaches is a slice or
      map that contains itself, directly or through others, without a pointer in
      between; cycles through pointers do no harm. */
  lemma ReturnsIffNothingContainsItself(g: Graph, root: nat)
    ensures Returns(g, root) <==> forall n :: Reached(g, root, n) ==> !ContainsItself(g, n)
  {
    if depth: nat :| Copy(g, root, {}, depth).Some? {
      CopyEnds(g, root, {}, depth);
      var met := Copy(g, root, {}, depth).value;
      assert EndsSomewhere(g, root, met);
      forall n | Reached(g, root, n) ensures !ContainsItself(g, n) {
        var d: nat :| ReachedIn(g, root, n, d);
        ReachedEnds(g, root, met, n, d);
        var deep: nat :| Ends(g, n, met, deep);
        forall path | Loop(g, path) ensures path[0] != n {
          LoopNeverEnds(g, path, 0, met, deep);
        }
      }
    }
    if forall n :: Reached(g, root, n) ==> !ContainsItself(g, n) {
      forall n | Reached(g, root, n) ensures HasDepth(g, n) {
        if !HasDepth(g, n) {
          var m := BottomlessLoops(g, root, n);
        }
      }
      assert ReachedIn(g, root, root, 0);
      assert Reached(g, root, root) && HasDepth(g, root);
      var level: nat :| Shallow(g, root, level);
      var depth := CopyReturns(g, root, root, {}, level);
    }
  }

  /** A slice whose one element is the slice: the copier does not return. Behind a
      pointer to itself it does. */
  lemma SelfContainingSlice()
    ensures !Returns(map[0 := Container([0])], 0)
    ensures Returns(map[0 := Container([1]), 1 := Pointer(0)], 0)
  {
    var g, h := map[0 := Container([0])], map[0 := Container([1]), 1 := Pointer(0)];
    ReturnsIffNothingContainsItself(g, 0);
    assert Holds(g, 0, 0);
    assert Loop(g, [0, 0]) && [0, 0][0] == 0;
    assert ReachedIn(g, 0, 0, 0);
    assert Reached(g, 0, 0) && ContainsItself(g, 0);
    var none: set<nat> := {};
    assert none + {0} == {0};
    assert Copy(h, 1, {0}, 2) == Some({0});
    assert CopyParts(h, [1], {0}, 2) == Some({0});
    assert Copy(h, 0, {0}, 3) == Some({0});
    assert Copy(h, 1, {}, 4) == Some({0});
    assert CopyParts(h, [1], {}, 4) == Some({0});
    assert Copy(h, 0, {}, 5) == Some({0});
  }
}
