/** The copier that localises response data: it duplicates a graph of Go values,
    possibly cyclic, translating only the strings it recognises as messages. */
module ResponseCopier {
  import T = Text
  import opened Options

  /** The language data the copier consults, all of it constant tables. */
  datatype Words = Words(
    lower: string -> string,
    sameFold: (string, string) -> bool,
    business: string -> string,
    errorText: string -> string,
    han: char -> bool)

  datatype Kind = StructKind | MapKind | SliceKind | ArrayKind

  /** What a part of a composite value is filed under. */
  datatype Label =
    | FieldLabel(name: string, exported: bool)
    | KeyLabel(key: string)
    | OtherKeyLabel(id: int)
    | IndexLabel

  datatype Slot = Slot(tag: Label, value: Value)

  /** A Go value as reflection shows it. A pointer is an address in the heap; an
      address stands for a pointer together with its type. */
  datatype Value =
    | Str(s: string)
    | Opaque(id: int)
    | Nil
    | Pointer(addr: nat)
    | Boxed(inner: Value)
    | Composite(kind: Kind, slots: seq<Slot>)

  // -------------------------------------------------------- field classifiers

  predicate IsErrorField(words: Words, field: string) {
    words.lower(T.TrimSpace(field)) in
      {"error", "lasterror", "last_error", "errormessage", "error_message", "failuremessage",
       "failure_message", "recoverymessage", "recovery_message"}
  }

  predicate IsMessageField(words: Words, field: string) {
    words.lower(T.TrimSpace(field)) in
      {"message", "errormessage", "error_message", "recoverymessage", "recovery_message", "failuremessage",
       "failure_message", "statusmessage", "status_message", "rulename", "rule_name"}
  }

  predicate ContainsHan(words: Words, s: string) {
    exists i :: 0 <= i < |s| && words.han(s[i])
  }

  const GENERIC_ERROR := "The operation failed. Check the related service status and server logs."

  /** The text shown for a string found under a field name. */
  function LocalizeString(words: Words, field: string, s: string): string {
    if IsErrorField(words, field) then
      var first := words.business(s);
      var translated := if first == s then words.errorText(s) else first;
      if ContainsHan(words, translated) then GENERIC_ERROR else translated
    else if field == "" || IsMessageField(words, field) then words.business(s)
    else s
  }

  predicate IsFailureStatus(status: string) {
    status in {"failed", "error", "interrupted", "rollback_failed", "recovery_required"}
  }

  /** One field or string-keyed entry marks its struct or map as a failure. */
  predicate MarksFailure(words: Words, kind: Kind, slot: Slot) {
    var item := if kind.MapKind? && slot.value.Boxed? then slot.value.inner else slot.value;
    if slot.tag.FieldLabel? || slot.tag.KeyLabel? then
      var name := words.lower(if slot.tag.FieldLabel? then slot.tag.name else slot.tag.key);
      && item.Str?
      && ((name in {"errorcode", "error_code"} && T.TrimSpace(item.s) != "")
          || (name in {"status", "state"} && IsFailureStatus(words.lower(T.TrimSpace(item.s)))))
    else false
  }

  predicate RepresentsFailure(words: Words, v: Value)
    requires v.Composite?
  {
    (v.kind.StructKind? || v.kind.MapKind?) &&
    exists i :: 0 <= i < |v.slots| && MarksFailure(words, v.kind, v.slots[i])
  }

  /** The field name under which part `i` of a composite is copied. */
  function SlotName(words: Words, v: Value, i: nat, field: string): string
    requires v.Composite? && i < |v.slots|
  {
    var name := match v.slots[i].tag
      case FieldLabel(name, _) => name
      case KeyLabel(key) => key
      case _ => field;
    if RepresentsFailure(words, v) && (words.sameFold(name, "message") || words.sameFold(name, "statusMessage"))
    then "error" else name
  }

  /** Unexported struct fields are carried over as they are. */
  predicate Hidden(slot: Slot) {
    slot.tag.FieldLabel? && !slot.tag.exported
  }

  // ------------------------------------------------------------ what a copy is

  /** `w` is the copy of `v` under a field name: the same shape, every pointer
      replaced by the pointer to its copy, every string localised by its name. */
  ghost predicate Copied(words: Words, visited: map<nat, nat>, v: Value, w: Value, field: string)
    decreases v
  {
    match v
    case Str(s) => w == Str(LocalizeString(words, field, s))
    case Pointer(a) => a in visited && w == Pointer(visited[a])
    case Boxed(inner) => w.Boxed? && Copied(words, visited, inner, w.inner, field)
    case Composite(kind, slots) =>
      && w.Composite? && w.kind == kind && |w.slots| == |slots|
      && forall i :: 0 <= i < |slots| ==>
           && w.slots[i].tag == slots[i].tag
           && if Hidden(slots[i]) then w.slots[i].value == slots[i].value
              else Copied(words, visited, slots[i].value, w.slots[i].value, SlotName(words, v, i, field))
    case _ => w == v
  }

  /** The pointer `a` occurs in `v`, not behind another pointer, under name `n`. */
  ghost predicate Mentions(words: Words, v: Value, field: string, a: nat, n: string)
    decreases v
  {
    match v
    case Pointer(b) => b == a && field == n
    case Boxed(inner) => Mentions(words, inner, field, a, n)
    case Composite(_, slots) =>
      exists i :: 0 <= i < |slots| && !Hidden(slots[i]) &&
                  Mentions(words, slots[i].value, SlotName(words, v, i, field), a, n)
    case _ => false
  }

  /** Every pointer the copier can meet in `v` points into the data. */
  ghost predicate Closed(v: Value, domain: set<nat>)
    decreases v
  {
    match v
    case Pointer(a) => a in domain
    case Boxed(inner) => Closed(inner, domain)
    case Composite(_, slots) =>
      forall i :: 0 <= i < |slots| && !Hidden(slots[i]) ==> Closed(slots[i].value, domain)
    case _ => true
  }

  /** The heap, which copy each visited pointer has, and under which name it was
      first reached. */
  datatype Graph = Graph(heap: map<nat, Value>, next: nat, visited: map<nat, nat>, ghost names: map<nat, string>)

  ghost predicate Sane(g: Graph, data: map<nat, Value>) {
    && (forall a :: a in data ==> a in g.heap && g.heap[a] == data[a] && Closed(data[a], data.Keys))
    && (forall a :: a in g.heap ==> a < g.next)
    && g.visited.Keys <= data.Keys && g.names.Keys == g.visited.Keys
    && (forall a :: a in g.visited ==> g.visited[a] in g.heap && g.visited[a] !in data)
    && (forall a, b :: Apart(g.visited, a, b))
  }

  /** Different pointers have different copies. */
  ghost predicate Apart(visited: map<nat, nat>, a: nat, b: nat) {
    a in visited && b in visited && a != b ==> visited[a] != visited[b]
  }

  /** The cell `a` has been copied in full. */
  ghost predicate CellCopied(words: Words, g: Graph, a: nat)
    requires a in g.visited && a in g.names && a in g.heap && g.visited[a] in g.heap
  {
    Copied(words, g.visited, g.heap[a], g.heap[g.visited[a]], g.names[a])
  }

  /** From `g` to `g'` the copier only added: the data and all earlier copies are
      as they were, and every newly visited cell is copied in full. */
  ghost predicate Grows(words: Words, g: Graph, g': Graph, data: map<nat, Value>) {
    && Sane(g, data) && Sane(g', data)
    && (forall a :: a in g.heap ==> a in g'.heap && g'.heap[a] == g.heap[a])
    && (forall a :: a in g.visited ==>
          a in g'.visited && g'.visited[a] == g.visited[a] && g'.names[a] == g.names[a])
    && (forall a {:trigger CellCopied(words, g', a)} :: a in g'.visited && a !in g.visited ==> CellCopied(words, g', a))
  }

  // ------------------------------------------------ the order of the copier

  /** The name every pointer is filed under: the first one it meets, in the order
      of the slots, each target followed at once. `names` holds those met before. */
  function Visit(words: Words, data: map<nat, Value>, v: Value, field: string, names: map<nat, string>)
    : (r: map<nat, string>)
    ensures names.Keys <= r.Keys <= names.Keys + data.Keys
    ensures forall a :: a in names ==> r[a] == names[a]
    decreases data.Keys - names.Keys, v, if v.Composite? then |v.slots| + 1 else 0
  {
    match v
    case Pointer(a) =>
      if a in names || a !in data then names
      else
        assert a in data.Keys - names.Keys;
        Visit(words, data, data[a], field, names[a := field])
    case Boxed(inner) => Visit(words, data, inner, field, names)
    case Composite(_, _) => VisitSlots(words, data, v, field, names, 0)
    case _ => names
  }

  function VisitSlots(words: Words, data: map<nat, Value>, v: Value, field: string, names: map<nat, string>, i: nat)
    : (r: map<nat, string>)
    requires v.Composite? && i <= |v.slots|
    ensures names.Keys <= r.Keys <= names.Keys + data.Keys
    ensures forall a :: a in names ==> r[a] == names[a]
    decreases data.Keys - names.Keys, v, |v.slots| - i
  {
    if i == |v.slots| then names
    else
      var met := if Hidden(v.slots[i]) then names
                 else Visit(words, data, v.slots[i].value, SlotName(words, v, i, field), names);
      VisitSlots(words, data, v, field, met, i + 1)
  }

  function FirstNames(words: Words, data: map<nat, Value>, root: Value): map<nat, string> {
    Visit(words, data, root, "", map[])
  }

  // ------------------------------------------------------------------ growing

  lemma {:induction false} CopiedStays(words: Words, visited: map<nat, nat>, visited': map<nat, nat>,
                                       v: Value, w: Value, field: string)
    requires Copied(words, visited, v, w, field)
    requires forall a :: a in visited ==> a in visited' && visited'[a] == visited[a]
    ensures Copied(words, visited', v, w, field)
    decreases v
  {
    match v
    case Boxed(inner) => CopiedStays(words, visited, visited', inner, w.inner, field);
    case Composite(kind, slots) =>
      forall i | 0 <= i < |slots| && !Hidden(slots[i])
        ensures Copied(words, visited', slots[i].value, w.slots[i].value, SlotName(words, v, i, field))
      {
        CopiedStays(words, visited, visited', slots[i].value, w.slots[i].value, SlotName(words, v, i, field));
      }
    case _ =>
  }

  lemma GrowsOn(words: Words, g: Graph, h: Graph, k: Graph, data: map<nat, Value>)
    requires Grows(words, g, h, data) && Grows(words, h, k, data)
    ensures Grows(words, g, k, data)
  {
    forall a | a in k.visited && a !in g.visited ensures CellCopied(words, k, a) {
      if a in h.visited {
        assert CellCopied(words, h, a);
        CopiedStays(words, h.visited, k.visited, h.heap[a], h.heap[h.visited[a]], h.names[a]);
      }
    }
  }

  // ------------------------------------------------------------------ the copier

  class Copier {
    const words: Words
    var g: Graph

    constructor (words: Words, heap: map<nat, Value>, next: nat)
      ensures this.words == words && g == Graph(heap, next, map[], map[])
    {
      this.words := words;
      g := Graph(heap, next, map[], map[]);
    }

    /** Copies one value. Terminates on cyclic data because every pointer is
        followed at most once. */
    method Localize(v: Value, field: string, ghost data: map<nat, Value>) returns (w: Value)
      requires Sane(g, data) && Closed(v, data.Keys)
      modifies this
      ensures Grows(words, old(g), g, data)
      ensures Copied(words, g.visited, v, w, field)
      ensures g.names == Visit(words, data, v, field, old(g).names)
      decreases data.Keys - g.visited.Keys, v, 1
    {
      match v
      case Boxed(inner) =>
        var copy := Localize(inner, field, data);
        w := Boxed(copy);
      case Pointer(a) =>
        if a in g.visited {
          return Pointer(g.visited[a]);
        }
        w := FollowPointer(a, field, data);
      case Composite(kind, slots) =>
        w := CopySlots(v, field, data);
      case Str(s) =>
        w := Str(LocalizeString(words, field, s));
      case _ =>
        w := v;
    }

    /** The first visit of a pointer: its copy is registered before what it
        points to is copied. */
    method FollowPointer(a: nat, field: string, ghost data: map<nat, Value>) returns (w: Value)
      requires Sane(g, data) && a in data && a !in g.visited
      modifies this
      ensures Grows(words, old(g), g, data)
      ensures Copied(words, g.visited, Pointer(a), w, field)
      ensures g.names == Visit(words, data, Pointer(a), field, old(g).names)
      decreases data.Keys - g.visited.Keys, Pointer(a), 0
    {
      var copy := g.next;
      ghost var start := g;
      g := Graph(g.heap[copy := Nil], copy + 1, g.visited[a := copy], g.names[a := field]);
      ghost var registered := g;
      assert a in data.Keys - start.visited.Keys && a !in data.Keys - g.visited.Keys;
      RegisteringIsSane(start, g, a, field, data);
      var target := Localize(g.heap[a], field, data);
      ghost var followed := g;
      g := g.(heap := g.heap[copy := target]);
      w := Pointer(copy);
      FirstVisit(words, start, registered, followed, g, a, field, copy, target, data);
    }

    /** Struct, map, slice and array: part by part, in order. */
    method CopySlots(v: Value, field: string, ghost data: map<nat, Value>) returns (w: Value)
      requires Sane(g, data) && Closed(v, data.Keys) && v.Composite?
      modifies this
      ensures Grows(words, old(g), g, data)
      ensures Copied(words, g.visited, v, w, field)
      ensures g.names == Visit(words, data, v, field, old(g).names)
      decreases data.Keys - g.visited.Keys, v, 0
    {
      var copies: seq<Slot> := [];
      ghost var start := g;
      for i := 0 to |v.slots|
        invariant Grows(words, start, g, data)
        invariant VisitSlots(words, data, v, field, g.names, i) == Visit(words, data, v, field, start.names)
        invariant SlotsCopied(words, g.visited, v, copies, field, i)
      {
        var slot := v.slots[i];
        ghost var before := g;
        SlotVisited(words, data, v, field, g.names, i);
        if Hidden(slot) {
          SlotAdded(words, g.visited, v, copies, field, i, slot);
          copies := copies + [slot];
        } else {
          var copy := Localize(slot.value, SlotName(words, v, i, field), data);
          SlotsStay(words, before.visited, g.visited, v, copies, field, i);
          GrowsOn(words, start, before, g, data);
          SlotAdded(words, g.visited, v, copies, field, i, Slot(slot.tag, copy));
          copies := copies + [Slot(slot.tag, copy)];
        }
      }
      w := Composite(v.kind, copies);
    }
  }

  /** The first `n` parts of `v` are copied. */
  ghost predicate SlotsCopied(words: Words, visited: map<nat, nat>, v: Value, copies: seq<Slot>, field: string, n: nat)
    requires v.Composite?
  {
    && n <= |v.slots| && |copies| == n
    && forall i :: 0 <= i < n ==>
         && copies[i].tag == v.slots[i].tag
         && if Hidden(v.slots[i]) then copies[i].value == v.slots[i].value
            else Copied(words, visited, v.slots[i].value, copies[i].value, SlotName(words, v, i, field))
  }

  lemma SlotVisited(words: Words, data: map<nat, Value>, v: Value, field: string, names: map<nat, string>, i: nat)
    requires v.Composite? && i < |v.slots|
    ensures VisitSlots(words, data, v, field, names, i)
            == VisitSlots(words, data, v, field,
                          if Hidden(v.slots[i]) then names
                          else Visit(words, data, v.slots[i].value, SlotName(words, v, i, field), names), i + 1)
  {
  }

  lemma SlotAdded(words: Words, visited: map<nat, nat>, v: Value, copies: seq<Slot>, field: string, n: nat, slot: Slot)
    requires v.Composite? && n < |v.slots| && SlotsCopied(words, visited, v, copies, field, n)
    requires slot.tag == v.slots[n].tag
    requires if Hidden(v.slots[n]) then slot.value == v.slots[n].value
             else Copied(words, visited, v.slots[n].value, slot.value, SlotName(words, v, n, field))
    ensures SlotsCopied(words, visited, v, copies + [slot], field, n + 1)
  {
  }

  lemma SlotsStay(words: Words, visited: map<nat, nat>, visited': map<nat, nat>,
                  v: Value, copies: seq<Slot>, field: string, n: nat)
    requires v.Composite? && SlotsCopied(words, visited, v, copies, field, n)
    requires forall a :: a in visited ==> a in visited' && visited'[a] == visited[a]
    ensures SlotsCopied(words, visited', v, copies, field, n)
  {
    forall i | 0 <= i < n && !Hidden(v.slots[i])
      ensures Copied(words, visited', v.slots[i].value, copies[i].value, SlotName(words, v, i, field))
    {
      CopiedStays(words, visited, visited', v.slots[i].value, copies[i].value, SlotName(words, v, i, field));
    }
  }

  lemma RegisteringIsSane(g: Graph, g': Graph, a: nat, field: string, data: map<nat, Value>)
    requires Sane(g, data) && a in data && a !in g.visited
    requires g' == Graph(g.heap[g.next := Nil], g.next + 1, g.visited[a := g.next], g.names[a := field])
    ensures Sane(g', data)
  {
    forall b, c ensures Apart(g'.visited, b, c) {
      assert Apart(g.visited, b, c);
    }
  }

  /** The graph around one first visit: registered, followed, and filled in. */
  ghost predicate VisitSteps(words: Words, start: Graph, registered: Graph, followed: Graph, end: Graph,
                             a: nat, field: string, copy: nat, target: Value, data: map<nat, Value>) {
    && Sane(start, data) && a in data && a !in start.visited && copy == start.next
    && registered == Graph(start.heap[copy := Nil], copy + 1, start.visited[a := copy], start.names[a := field])
    && Grows(words, registered, followed, data)
    && Copied(words, followed.visited, start.heap[a], target, field)
    && end == followed.(heap := followed.heap[copy := target])
  }

  lemma CopyIsApart(words: Words, start: Graph, registered: Graph, followed: Graph, end: Graph,
                    a: nat, field: string, copy: nat, target: Value, data: map<nat, Value>)
    requires VisitSteps(words, start, registered, followed, end, a, field, copy, target, data)
    ensures copy !in data && copy !in start.heap && a in followed.visited && followed.visited[a] == copy
    ensures forall b :: b in followed.visited && b != a ==> followed.visited[b] != copy
  {
    assert a in registered.visited && copy == start.next;
    forall b | b in followed.visited && b != a ensures followed.visited[b] != copy {
      assert Apart(followed.visited, a, b);
    }
  }

  /** Filling in the copy disturbs nothing. */
  lemma FillingInIsSane(g: Graph, copy: nat, target: Value, data: map<nat, Value>)
    requires Sane(g, data) && copy in g.heap && copy !in data
    ensures Sane(g.(heap := g.heap[copy := target]), data)
  {
    var g' := g.(heap := g.heap[copy := target]);
    forall b, c ensures Apart(g'.visited, b, c) {
      assert Apart(g.visited, b, c);
    }
  }

  lemma OwnCellCopied(words: Words, start: Graph, registered: Graph, followed: Graph, end: Graph,
                      a: nat, field: string, copy: nat, target: Value, data: map<nat, Value>)
    requires VisitSteps(words, start, registered, followed, end, a, field, copy, target, data)
    ensures a in end.visited && a in end.names && a in end.heap && end.visited[a] == copy && copy in end.heap
    ensures CellCopied(words, end, a)
  {
    CopyIsApart(words, start, registered, followed, end, a, field, copy, target, data);
    assert a in registered.visited && end.names[a] == field;
    assert end.heap[a] == start.heap[a] && end.heap[copy] == target && end.visited == followed.visited;
  }

  lemma OtherCellCopied(words: Words, start: Graph, registered: Graph, followed: Graph, end: Graph,
                        a: nat, field: string, copy: nat, target: Value, data: map<nat, Value>, b: nat)
    requires VisitSteps(words, start, registered, followed, end, a, field, copy, target, data)
    requires b in end.visited && b !in start.visited && b != a
    ensures b in end.names && b in end.heap && end.visited[b] in end.heap
    ensures CellCopied(words, end, b)
  {
    CopyIsApart(words, start, registered, followed, end, a, field, copy, target, data);
    assert b !in registered.visited && CellCopied(words, followed, b);
    assert end.heap[b] == followed.heap[b] && end.heap[end.visited[b]] == followed.heap[end.visited[b]];
  }

  lemma HeapIsKept(start: map<nat, Value>, registered: map<nat, Value>, followed: map<nat, Value>,
                   end: map<nat, Value>, copy: nat, target: Value)
    requires copy !in start && registered == start[copy := Nil] && end == followed[copy := target]
    requires forall b :: b in registered ==> b in followed && followed[b] == registered[b]
    ensures forall b :: b in start ==> b in end && end[b] == start[b]
  {
    forall b | b in start ensures b in end && end[b] == start[b] {
      assert b in registered;
    }
  }

  lemma EntriesAreKept<V>(start: map<nat, V>, registered: map<nat, V>, end: map<nat, V>, a: nat, v: V)
    requires a !in start && registered == start[a := v]
    requires forall b :: b in registered ==> b in end && end[b] == registered[b]
    ensures forall b :: b in start ==> b in end && end[b] == start[b]
  {
    forall b | b in start ensures b in end && end[b] == start[b] {
      assert b in registered;
    }
  }

  lemma FirstVisit(words: Words, start: Graph, registered: Graph, followed: Graph, end: Graph,
                   a: nat, field: string, copy: nat, target: Value, data: map<nat, Value>)
    requires VisitSteps(words, start, registered, followed, end, a, field, copy, target, data)
    ensures Grows(words, start, end, data)
    ensures Copied(words, end.visited, Pointer(a), Pointer(copy), field)
  {
    CopyIsApart(words, start, registered, followed, end, a, field, copy, target, data);
    FillingInIsSane(followed, copy, target, data);
    HeapIsKept(start.heap, registered.heap, followed.heap, end.heap, copy, target);
    EntriesAreKept(start.visited, registered.visited, end.visited, a, copy);
    EntriesAreKept(start.names, registered.names, end.names, a, field);
    OwnCellCopied(words, start, registered, followed, end, a, field, copy, target, data);
    forall b | b in end.visited && b !in start.visited ensures CellCopied(words, end, b) {
      if b != a {
        OtherCellCopied(words, start, registered, followed, end, a, field, copy, target, data, b);
      }
    }
  }

  // ---------------------------------------------------------------- whole responses

  /** The copy of a whole response: the data is as it was, every visited cell has
      one copy of its own, and every cell is copied under the name given for it. */
  ghost predicate FaithfulCopy(words: Words, data: map<nat, Value>, heap: map<nat, Value>, visited: map<nat, nat>,
                               names: map<nat, string>, root: Value, w: Value) {
    && (forall a :: a in data ==> a in heap && heap[a] == data[a])
    && names.Keys == visited.Keys <= data.Keys
    && (forall a :: a in visited ==> visited[a] in heap && visited[a] !in data)
    && (forall a, b :: Apart(visited, a, b))
    && Copied(words, visited, root, w, "")
    && (forall a {:trigger CopiedAs(words, data, heap, visited, names, a)} ::
          a in visited ==> CopiedAs(words, data, heap, visited, names, a))
  }

  ghost predicate CopiedAs(words: Words, data: map<nat, Value>, heap: map<nat, Value>, visited: map<nat, nat>,
                           names: map<nat, string>, a: nat)
    requires a in visited && a in names && a in data && visited[a] in heap
  {
    Copied(words, visited, data[a], heap[visited[a]], names[a])
  }

  /** Localising a response. For any other locale than en-US, and for nil, the
      response is returned as it is; otherwise every cell is copied under the
      first name it is met by. */
  method LocalizeResponseData(words: Words, english: bool, root: Value, data: map<nat, Value>, next: nat)
    returns (w: Value, heap: map<nat, Value>, visited: map<nat, nat>)
    requires forall a :: a in data ==> a < next && Closed(data[a], data.Keys)
    requires Closed(root, data.Keys)
    ensures !english || root == Nil ==> w == root && heap == data
    ensures english && root != Nil ==>
              FaithfulCopy(words, data, heap, visited, FirstNames(words, data, root), root, w)
    ensures english && root != Nil ==>
              forall path :: TextIsShown(words, data, heap, FirstNames(words, data, root), root, w, path)
  {
    if !english || root == Nil {
      return root, data, map[];
    }
    var copier := new Copier(words, data, next);
    w := copier.Localize(root, "", data);
    heap, visited := copier.g.heap, copier.g.visited;
    forall a | a in visited ensures CopiedAs(words, data, heap, visited, copier.g.names, a) {
      assert CellCopied(words, copier.g, a);
    }
    forall path ensures TextIsShown(words, data, heap, FirstNames(words, data, root), root, w, path) {
      TextsAreShown(words, data, heap, visited, FirstNames(words, data, root), root, w, path);
    }
  }

  // ------------------------------------------------------------- same shape

  datatype Move = Unbox | Part(i: nat) | Target

  /** Where a path leads; None if it leads nowhere, or into an unexported field. */
  function Follow(heap: map<nat, Value>, v: Value, path: seq<Move>): Option<Value>
    decreases |path|
  {
    if path == [] then Some(v)
    else
      match (path[0], v)
      case (Unbox, Boxed(inner)) => Follow(heap, inner, path[1..])
      case (Target, Pointer(a)) => if a in heap then Follow(heap, heap[a], path[1..]) else None
      case (Part(i), Composite(_, slots)) =>
        if i < |slots| && !Hidden(slots[i]) then Follow(heap, slots[i].value, path[1..]) else None
      case _ => None
  }

  // -------------------------------------------- names and texts, spelled out

  /** A struct or map that says it failed. */
  ghost predicate SaysFailed(words: Words, v: Value) {
    && v.Composite? && (v.kind == StructKind || v.kind == MapKind)
    && exists i :: 0 <= i < |v.slots| && SlotSaysFailed(words, v.kind, v.slots[i])
  }

  ghost predicate SlotSaysFailed(words: Words, kind: Kind, slot: Slot) {
    exists name, text :: Named(slot, name) && Holds(kind, slot, text) && NameSaysFailed(words, name, text)
  }

  /** The part is the text, which in a map may stand in an interface. */
  predicate Holds(kind: Kind, slot: Slot, text: string) {
    slot.value == Str(text) || (kind == MapKind && slot.value == Boxed(Str(text)))
  }

  /** An error code that is not blank, or a status of five. */
  ghost predicate NameSaysFailed(words: Words, name: string, text: string) {
    || (words.lower(name) in {"errorcode", "error_code"} && !T.Blank(text))
    || (words.lower(name) in {"status", "state"} &&
        words.lower(T.TrimSpace(text)) in {"failed", "error", "interrupted", "rollback_failed", "recovery_required"})
  }

  predicate Named(slot: Slot, name: string) {
    match slot.tag
    case FieldLabel(field, _) => name == field
    case KeyLabel(key) => name == key
    case _ => false
  }

  /** The name a part is read under: its field or key, or that of the whole; in a
      failed struct or map "message" and "statusMessage" are read as "error". */
  ghost predicate ReadAs(words: Words, v: Value, i: nat, field: string, name: string)
    requires v.Composite? && i < |v.slots|
  {
    exists own ::
      && (Named(v.slots[i], own) || (own == field && forall other :: !Named(v.slots[i], other)))
      && name == if SaysFailed(words, v) && (words.sameFold(own, "message") || words.sameFold(own, "statusMessage"))
                 then "error" else own
  }

  /** The text shown for a text read under a name. */
  ghost predicate ShownAs(words: Words, name: string, text: string, shown: string) {
    var field := words.lower(T.TrimSpace(name));
    if field in {"error", "lasterror", "last_error", "errormessage", "error_message", "failuremessage",
                 "failure_message", "recoverymessage", "recovery_message"} then
      var english := if words.business(text) != text then words.business(text) else words.errorText(text);
      shown == if exists c :: c in english && words.han(c)
               then "The operation failed. Check the related service status and server logs." else english
    else if name == "" || field in {"message", "statusmessage", "status_message", "rulename", "rule_name"} then
      shown == words.business(text)
    else
      shown == text
  }

  lemma SlotFailureIsSaid(words: Words, kind: Kind, slot: Slot)
    ensures MarksFailure(words, kind, slot) <==> SlotSaysFailed(words, kind, slot)
  {
    var item := if kind.MapKind? && slot.value.Boxed? then slot.value.inner else slot.value;
    if (slot.tag.FieldLabel? || slot.tag.KeyLabel?) && item.Str? {
      var own := if slot.tag.FieldLabel? then slot.tag.name else slot.tag.key;
      T.TrimmedIsEmptyIffBlank(item.s);
      assert Named(slot, own) && Holds(kind, slot, item.s);
      assert MarksFailure(words, kind, slot) <==> NameSaysFailed(words, own, item.s);
      assert forall name, text :: Named(slot, name) && Holds(kind, slot, text) ==> name == own && text == item.s;
    }
  }

  lemma FailureIsSaid(words: Words, v: Value)
    requires v.Composite?
    ensures RepresentsFailure(words, v) <==> SaysFailed(words, v)
  {
    forall i | 0 <= i < |v.slots|
      ensures MarksFailure(words, v.kind, v.slots[i]) <==> SlotSaysFailed(words, v.kind, v.slots[i])
    {
      SlotFailureIsSaid(words, v.kind, v.slots[i]);
    }
  }

  lemma SlotIsReadAs(words: Words, v: Value, i: nat, field: string)
    requires v.Composite? && i < |v.slots|
    ensures ReadAs(words, v, i, field, SlotName(words, v, i, field))
    ensures forall name :: ReadAs(words, v, i, field, name) ==> name == SlotName(words, v, i, field)
  {
    FailureIsSaid(words, v);
    var own := match v.slots[i].tag
      case FieldLabel(name, _) => name
      case KeyLabel(key) => key
      case _ => field;
    assert Named(v.slots[i], own) || (own == field && forall other :: !Named(v.slots[i], other));
  }

  lemma LocalizedIsShown(words: Words, name: string, text: string)
    ensures ShownAs(words, name, text, LocalizeString(words, name, text))
  {
    var first := words.business(text);
    var english := if first != text then first else words.errorText(text);
    if c :| c in english && words.han(c) {
      var i :| 0 <= i < |english| && english[i] == c;
      assert ContainsHan(words, english);
    }
  }

  /** The path leads to a value that is filed under the name: by its parts, and
      behind a pointer afresh from the name of the pointer's cell. */
  ghost predicate FiledAlong(words: Words, data: map<nat, Value>, names: map<nat, string>,
                             v: Value, field: string, path: seq<Move>, name: string)
    decreases |path|
  {
    if path == [] then name == field
    else
      match (path[0], v)
      case (Unbox, Boxed(inner)) => FiledAlong(words, data, names, inner, field, path[1..], name)
      case (Target, Pointer(a)) =>
        a in data && a in names && FiledAlong(words, data, names, data[a], names[a], path[1..], name)
      case (Part(i), Composite(_, slots)) =>
        i < |slots| && exists n :: ReadAs(words, v, i, field, n) &&
                                   FiledAlong(words, data, names, slots[i].value, n, path[1..], name)
      case _ => false
  }

  /** A path leads somewhere in the copy iff it does in the data, and then to the
      copy of what it leads to there, under the name it is filed under. */
  lemma {:induction false} FollowBoth(words: Words, data: map<nat, Value>, heap: map<nat, Value>, visited: map<nat, nat>,
                                      names: map<nat, string>, root: Value, top: Value,
                                      v: Value, w: Value, field: string, path: seq<Move>)
    returns (there: string)
    requires FaithfulCopy(words, data, heap, visited, names, root, top) && Copied(words, visited, v, w, field)
    ensures Follow(data, v, path).Some? <==> Follow(heap, w, path).Some?
    ensures Follow(data, v, path).Some? ==>
              && Copied(words, visited, Follow(data, v, path).value, Follow(heap, w, path).value, there)
              && FiledAlong(words, data, names, v, field, path, there)
    decreases |path|
  {
    there := field;
    if path != [] {
      match (path[0], v)
      case (Unbox, Boxed(inner)) =>
        there := FollowBoth(words, data, heap, visited, names, root, top, inner, w.inner, field, path[1..]);
      case (Target, Pointer(a)) =>
        assert CopiedAs(words, data, heap, visited, names, a);
        there := FollowBoth(words, data, heap, visited, names, root, top, data[a], heap[w.addr], names[a], path[1..]);
      case (Part(i), Composite(_, slots)) =>
        if i < |slots| && !Hidden(slots[i]) {
          SlotIsReadAs(words, v, i, field);
          there := FollowBoth(words, data, heap, visited, names, root, top, slots[i].value, w.slots[i].value,
                              SlotName(words, v, i, field), path[1..]);
        }
      case _ =>
    }
  }

  /** The text at the end of a path is shown as its name demands. */
  ghost predicate TextIsShown(words: Words, data: map<nat, Value>, heap: map<nat, Value>, names: map<nat, string>,
                              root: Value, w: Value, path: seq<Move>) {
    forall text :: Follow(data, root, path) == Some(Str(text)) ==>
      exists name, shown ::
        && FiledAlong(words, data, names, root, "", path, name)
        && Follow(heap, w, path) == Some(Str(shown)) && ShownAs(words, name, text, shown)
  }

  /** WHAT IS TRANSLATED. Every text of the response is shown in the copy as the name
      it is filed under demands. */
  lemma TextsAreShown(words: Words, data: map<nat, Value>, heap: map<nat, Value>, visited: map<nat, nat>,
                      names: map<nat, string>, root: Value, w: Value, path: seq<Move>)
    requires FaithfulCopy(words, data, heap, visited, names, root, w)
    ensures TextIsShown(words, data, heap, names, root, w, path)
  {
    var name := FollowBoth(words, data, heap, visited, names, root, w, root, w, "", path);
    forall text | Follow(data, root, path) == Some(Str(text))
      ensures exists n, shown ::
                && FiledAlong(words, data, names, root, "", path, n)
                && Follow(heap, w, path) == Some(Str(shown)) && ShownAs(words, n, text, shown)
    {
      LocalizedIsShown(words, name, text);
      assert Follow(heap, w, path) == Some(Str(LocalizeString(words, name, text)));
    }
  }

  /** What a path leads to keeps its kind and the labels of its parts; an unexported
      field keeps its value, and every other part has a path of its own. */
  lemma PartsAreKept(words: Words, data: map<nat, Value>, heap: map<nat, Value>, visited: map<nat, nat>,
                     names: map<nat, string>, root: Value, w: Value, path: seq<Move>, kind: Kind, slots: seq<Slot>)
    requires FaithfulCopy(words, data, heap, visited, names, root, w)
    requires Follow(data, root, path) == Some(Composite(kind, slots))
    ensures var copy := Follow(heap, w, path);
            && copy.Some? && copy.value.Composite? && copy.value.kind == kind && |copy.value.slots| == |slots|
            && forall i :: 0 <= i < |slots| ==>
                 && copy.value.slots[i].tag == slots[i].tag
                 && (if slots[i].tag.FieldLabel? && !slots[i].tag.exported then copy.value.slots[i] == slots[i]
                     else Follow(data, Composite(kind, slots), [Part(i)]) == Some(slots[i].value))
  {
    var name := FollowBoth(words, data, heap, visited, names, root, w, root, w, "", path);
    forall i | 0 <= i < |slots| && !(slots[i].tag.FieldLabel? && !slots[i].tag.exported)
      ensures Follow(data, Composite(kind, slots), [Part(i)]) == Some(slots[i].value)
    {
      assert [Part(i)][1..] == [];
    }
  }

  /** SHARING IS KEPT. Any two paths that lead to pointers in the data lead to
      pointers outside it in the copy, which are equal iff the data's are. */
  lemma SharingIsKept(words: Words, data: map<nat, Value>, heap: map<nat, Value>, visited: map<nat, nat>,
                      names: map<nat, string>, root: Value, w: Value, p: seq<Move>, q: seq<Move>, a: nat, b: nat)
    requires FaithfulCopy(words, data, heap, visited, names, root, w)
    requires Follow(data, root, p) == Some(Pointer(a)) && Follow(data, root, q) == Some(Pointer(b))
    ensures var x, y := Follow(heap, w, p), Follow(heap, w, q);
            && x.Some? && x.value.Pointer? && x.value.addr !in data
            && y.Some? && y.value.Pointer? && y.value.addr !in data
            && (x == y <==> a == b)
  {
    var m := FollowBoth(words, data, heap, visited, names, root, w, root, w, "", p);
    var n := FollowBoth(words, data, heap, visited, names, root, w, root, w, "", q);
    assert Apart(visited, a, b);
  }

  // --------------------------------------------------------- reading the copy

  /** Reading data and copy side by side, through at most `depth` pointers, no
      string of the copy under an error field holds a Han character. */
  ghost predicate ErrorsClean(words: Words, heap: map<nat, Value>, v: Value, w: Value, field: string, depth: nat)
    decreases depth, v
  {
    match v
    case Str(_) => IsErrorField(words, field) && w.Str? ==> !ContainsHan(words, w.s)
    case Boxed(inner) => w.Boxed? ==> ErrorsClean(words, heap, inner, w.inner, field, depth)
    case Pointer(a) =>
      depth > 0 && w.Pointer? && a in heap && w.addr in heap ==>
        ErrorsClean(words, heap, heap[a], heap[w.addr], field, depth - 1)
    case Composite(_, slots) =>
      w.Composite? && |w.slots| == |slots| ==>
        forall i :: 0 <= i < |slots| && !Hidden(slots[i]) ==>
          ErrorsClean(words, heap, slots[i].value, w.slots[i].value, SlotName(words, v, i, field), depth)
    case _ => true
  }

  /** However deep the reader goes. */
  ghost predicate NoHanInErrors(words: Words, heap: map<nat, Value>, root: Value, w: Value) {
    forall depth: nat :: ErrorsClean(words, heap, root, w, "", depth)
  }

  /** A reader of the response comes to the cell `a` under the name `n` after
      `d` other cells. */
  ghost predicate ReachedIn(words: Words, data: map<nat, Value>, root: Value, a: nat, n: string, d: nat)
    decreases d
  {
    if d == 0 then Mentions(words, root, "", a, n)
    else exists b, m :: ReachedIn(words, data, root, b, m, d - 1) && b in data && Mentions(words, data[b], m, a, n)
  }

  ghost predicate Reached(words: Words, data: map<nat, Value>, root: Value, a: nat, n: string) {
    exists d: nat :: ReachedIn(words, data, root, a, n, d)
  }

  /** The strings of `v` itself, filed under one name and read under another, hold
      no Han character where they are read as errors. */
  ghost predicate CleanAs(words: Words, v: Value, filed: string, read: string)
    decreases v
  {
    match v
    case Str(s) => IsErrorField(words, read) ==> !ContainsHan(words, LocalizeString(words, filed, s))
    case Boxed(inner) => CleanAs(words, inner, filed, read)
    case Composite(_, slots) =>
      forall i :: 0 <= i < |slots| && !Hidden(slots[i]) ==>
        CleanAs(words, slots[i].value, SlotName(words, v, i, filed), SlotName(words, v, i, read))
    case _ => true
  }

  /** Every cell is clean as filed, under every name by which a reader reaches it. */
  ghost predicate CleanAsFiled(words: Words, data: map<nat, Value>, root: Value, names: map<nat, string>) {
    forall a, n :: a in names && a in data && Reached(words, data, root, a, n) ==> CleanAs(words, data[a], names[a], n)
  }

  ghost predicate MentionsAreReached(words: Words, data: map<nat, Value>, root: Value, v: Value, field: string) {
    forall a, n :: Mentions(words, v, field, a, n) ==> Reached(words, data, root, a, n)
  }

  lemma CellMentionsReached(words: Words, data: map<nat, Value>, root: Value, b: nat, m: string)
    requires b in data && Reached(words, data, root, b, m)
    ensures MentionsAreReached(words, data, root, data[b], m)
  {
    var d: nat :| ReachedIn(words, data, root, b, m, d);
    forall a, n | Mentions(words, data[b], m, a, n) ensures Reached(words, data, root, a, n) {
      assert ReachedIn(words, data, root, a, n, d + 1);
    }
  }

  lemma SlotMentionsReached(words: Words, data: map<nat, Value>, root: Value, v: Value, field: string, i: nat)
    requires v.Composite? && i < |v.slots| && !Hidden(v.slots[i]) && MentionsAreReached(words, data, root, v, field)
    ensures MentionsAreReached(words, data, root, v.slots[i].value, SlotName(words, v, i, field))
  {
    forall a, n | Mentions(words, v.slots[i].value, SlotName(words, v, i, field), a, n)
      ensures Reached(words, data, root, a, n)
    {
      assert Mentions(words, v, field, a, n);
    }
  }

  lemma BoxMentionsReached(words: Words, data: map<nat, Value>, root: Value, v: Value, field: string)
    requires v.Boxed? && MentionsAreReached(words, data, root, v, field)
    ensures MentionsAreReached(words, data, root, v.inner, field)
  {
    forall a, n | Mentions(words, v.inner, field, a, n) ensures Reached(words, data, root, a, n) {
      assert Mentions(words, v, field, a, n);
    }
  }

  /** Reading the copy of `v`: clean strings here and clean cells behind. */
  lemma {:induction false} CleanFrom(words: Words, data: map<nat, Value>, heap: map<nat, Value>,
                                     visited: map<nat, nat>, names: map<nat, string>, root: Value, top: Value,
                                     v: Value, w: Value, filed: string, read: string, depth: nat)
    requires FaithfulCopy(words, data, heap, visited, names, root, top) && CleanAsFiled(words, data, root, names)
    requires Copied(words, visited, v, w, filed) && CleanAs(words, v, filed, read)
    requires MentionsAreReached(words, data, root, v, read)
    ensures ErrorsClean(words, heap, v, w, read, depth)
    decreases depth, v
  {
    match v
    case Boxed(inner) =>
      BoxMentionsReached(words, data, root, v, read);
      CleanFrom(words, data, heap, visited, names, root, top, inner, w.inner, filed, read, depth);
    case Pointer(a) =>
      if depth > 0 {
        assert Mentions(words, v, read, a, read);
        assert CopiedAs(words, data, heap, visited, names, a);
        CellMentionsReached(words, data, root, a, read);
        CleanFrom(words, data, heap, visited, names, root, top, data[a], heap[w.addr], names[a], read, depth - 1);
      }
    case Composite(_, slots) =>
      forall i | 0 <= i < |slots| && !Hidden(slots[i])
        ensures ErrorsClean(words, heap, slots[i].value, w.slots[i].value, SlotName(words, v, i, read), depth)
      {
        SlotMentionsReached(words, data, root, v, read, i);
        CleanFrom(words, data, heap, visited, names, root, top, slots[i].value, w.slots[i].value,
                  SlotName(words, v, i, filed), SlotName(words, v, i, read), depth);
      }
    case _ =>
  }

  /** What is read one pointer further on. */
  lemma {:induction false} CleanBehind(words: Words, heap: map<nat, Value>, visited: map<nat, nat>,
                                       v: Value, w: Value, filed: string, read: string, a: nat, n: string, depth: nat)
    requires Copied(words, visited, v, w, filed) && ErrorsClean(words, heap, v, w, read, depth + 1)
    requires Mentions(words, v, read, a, n) && a in heap && forall b :: b in visited ==> visited[b] in heap
    ensures a in visited && ErrorsClean(words, heap, heap[a], heap[visited[a]], n, depth)
    decreases v
  {
    match v
    case Boxed(inner) => CleanBehind(words, heap, visited, inner, w.inner, filed, read, a, n, depth);
    case Composite(_, slots) =>
      var i :| 0 <= i < |slots| && !Hidden(slots[i]) &&
               Mentions(words, slots[i].value, SlotName(words, v, i, read), a, n);
      CleanBehind(words, heap, visited, slots[i].value, w.slots[i].value,
                  SlotName(words, v, i, filed), SlotName(words, v, i, read), a, n, depth);
    case _ =>
  }

  lemma {:induction false} CleanAtReached(words: Words, data: map<nat, Value>, heap: map<nat, Value>,
                                          visited: map<nat, nat>, names: map<nat, string>, root: Value, w: Value,
                                          a: nat, n: string, d: nat, depth: nat)
    requires FaithfulCopy(words, data, heap, visited, names, root, w) && NoHanInErrors(words, heap, root, w)
    requires ReachedIn(words, data, root, a, n, d) && a in data
    ensures a in visited && ErrorsClean(words, heap, data[a], heap[visited[a]], n, depth)
    decreases d
  {
    if d == 0 {
      CleanBehind(words, heap, visited, root, w, "", "", a, n, depth);
    } else {
      var b, m :| ReachedIn(words, data, root, b, m, d - 1) && b in data && Mentions(words, data[b], m, a, n);
      CleanAtReached(words, data, heap, visited, names, root, w, b, m, d - 1, depth + 1);
      assert CopiedAs(words, data, heap, visited, names, b);
      CleanBehind(words, heap, visited, data[b], heap[visited[b]], names[b], m, a, n, depth);
    }
  }

  lemma {:induction false} CleanHere(words: Words, heap: map<nat, Value>, visited: map<nat, nat>,
                                     v: Value, w: Value, filed: string, read: string)
    requires Copied(words, visited, v, w, filed) && ErrorsClean(words, heap, v, w, read, 0)
    ensures CleanAs(words, v, filed, read)
    decreases v
  {
    match v
    case Boxed(inner) => CleanHere(words, heap, visited, inner, w.inner, filed, read);
    case Composite(_, slots) =>
      forall i | 0 <= i < |slots| && !Hidden(slots[i])
        ensures CleanAs(words, slots[i].value, SlotName(words, v, i, filed), SlotName(words, v, i, read))
      {
        CleanHere(words, heap, visited, slots[i].value, w.slots[i].value,
                  SlotName(words, v, i, filed), SlotName(words, v, i, read));
      }
    case _ =>
  }

  /** A string copied under the name it is read under is clean. */
  lemma {:induction false} SameNameIsClean(words: Words, v: Value, name: string)
    requires !ContainsHan(words, GENERIC_ERROR)
    ensures CleanAs(words, v, name, name)
    decreases v
  {
    match v
    case Boxed(inner) => SameNameIsClean(words, inner, name);
    case Composite(_, slots) =>
      forall i | 0 <= i < |slots| && !Hidden(slots[i])
        ensures CleanAs(words, slots[i].value, SlotName(words, v, i, name), SlotName(words, v, i, name))
      {
        SameNameIsClean(words, slots[i].value, SlotName(words, v, i, name));
      }
    case _ =>
  }

  /** EXACTLY WHEN ERRORS ARE TRANSLATED. No string read under an error field of the
      copy keeps a Han character, however deep it lies, iff every cell is clean as
      filed under its first name, for every name by which a reader reaches it. */
  lemma ErrorsCleanIff(words: Words, data: map<nat, Value>, heap: map<nat, Value>, visited: map<nat, nat>,
                       names: map<nat, string>, root: Value, w: Value)
    requires FaithfulCopy(words, data, heap, visited, names, root, w) && !ContainsHan(words, GENERIC_ERROR)
    ensures NoHanInErrors(words, heap, root, w) <==> CleanAsFiled(words, data, root, names)
  {
    if NoHanInErrors(words, heap, root, w) {
      forall a, n | a in names && a in data && Reached(words, data, root, a, n)
        ensures CleanAs(words, data[a], names[a], n)
      {
        var d: nat :| ReachedIn(words, data, root, a, n, d);
        CleanAtReached(words, data, heap, visited, names, root, w, a, n, d, 0);
        assert CopiedAs(words, data, heap, visited, names, a);
        CleanHere(words, heap, visited, data[a], heap[visited[a]], names[a], n);
      }
    }
    if CleanAsFiled(words, data, root, names) {
      forall depth: nat ensures ErrorsClean(words, heap, root, w, "", depth) {
        SameNameIsClean(words, root, "");
        RootMentionsReached(words, data, root);
        CleanFrom(words, data, heap, visited, names, root, w, root, w, "", "", depth);
      }
    }
  }

  lemma RootMentionsReached(words: Words, data: map<nat, Value>, root: Value)
    ensures MentionsAreReached(words, data, root, root, "")
  {
    forall a, n | Mentions(words, root, "", a, n) ensures Reached(words, data, root, a, n) {
      assert ReachedIn(words, data, root, a, n, 0);
    }
  }

  // ------------------------------------------------------------ first names

  /** The name of every newly met pointer is one a reader reaches it by. */
  ghost predicate NewNamesReached(words: Words, data: map<nat, Value>, root: Value,
                                  names: map<nat, string>, names': map<nat, string>) {
    forall a :: a in names' && a !in names ==> Reached(words, data, root, a, names'[a])
  }

  lemma {:induction false} VisitReaches(words: Words, data: map<nat, Value>, root: Value, v: Value, field: string,
                                        names: map<nat, string>)
    requires MentionsAreReached(words, data, root, v, field)
    ensures NewNamesReached(words, data, root, names, Visit(words, data, v, field, names))
    decreases data.Keys - names.Keys, v, if v.Composite? then |v.slots| + 1 else 0
  {
    match v
    case Pointer(a) =>
      if a !in names && a in data {
        assert Mentions(words, v, field, a, field);
        CellMentionsReached(words, data, root, a, field);
        assert a in data.Keys - names.Keys;
        VisitReaches(words, data, root, data[a], field, names[a := field]);
      }
    case Boxed(inner) =>
      BoxMentionsReached(words, data, root, v, field);
      VisitReaches(words, data, root, inner, field, names);
    case Composite(_, _) => VisitSlotsReaches(words, data, root, v, field, names, 0);
    case _ =>
  }

  lemma {:induction false} VisitSlotsReaches(words: Words, data: map<nat, Value>, root: Value, v: Value, field: string,
                                             names: map<nat, string>, i: nat)
    requires v.Composite? && i <= |v.slots| && MentionsAreReached(words, data, root, v, field)
    ensures NewNamesReached(words, data, root, names, VisitSlots(words, data, v, field, names, i))
    decreases data.Keys - names.Keys, v, |v.slots| - i
  {
    if i < |v.slots| {
      var met := names;
      if !Hidden(v.slots[i]) {
        SlotMentionsReached(words, data, root, v, field, i);
        VisitReaches(words, data, root, v.slots[i].value, SlotName(words, v, i, field), names);
        met := Visit(words, data, v.slots[i].value, SlotName(words, v, i, field), names);
      }
      VisitSlotsReaches(words, data, root, v, field, met, i + 1);
    }
  }

  /** The first name of a pointer is one of the names it is reached by. */
  lemma FirstNamesAreReached(words: Words, data: map<nat, Value>, root: Value)
    ensures NewNamesReached(words, data, root, map[], FirstNames(words, data, root))
  {
    RootMentionsReached(words, data, root);
    VisitReaches(words, data, root, root, "", map[]);
  }

  /** Every pointer is reached under one name only. */
  ghost predicate OneNameEach(words: Words, data: map<nat, Value>, root: Value) {
    forall a, m, n :: Reached(words, data, root, a, m) && Reached(words, data, root, a, n) ==> m == n
  }

  /** In particular when every pointer is reached under one name only. */
  lemma NoHanUnderErrorFields(words: Words, data: map<nat, Value>, heap: map<nat, Value>, visited: map<nat, nat>,
                              root: Value, w: Value)
    requires FaithfulCopy(words, data, heap, visited, FirstNames(words, data, root), root, w)
    requires OneNameEach(words, data, root) && !ContainsHan(words, GENERIC_ERROR)
    ensures NoHanInErrors(words, heap, root, w)
  {
    var names := FirstNames(words, data, root);
    FirstNamesAreReached(words, data, root);
    forall a, n | a in names && a in data && Reached(words, data, root, a, n)
      ensures CleanAs(words, data[a], names[a], n)
    {
      SameNameIsClean(words, data[a], n);
    }
    ErrorsCleanIff(words, data, heap, visited, names, root, w);
  }

  /** How often the pointer `a` occurs in `v`, not behind another pointer. */
  ghost function Count(v: Value, a: nat): nat
    decreases v, if v.Composite? then |v.slots| + 1 else 0
  {
    match v
    case Pointer(b) => if b == a then 1 else 0
    case Boxed(inner) => Count(inner, a)
    case Composite(_, slots) => CountSlots(v, a, |slots|)
    case _ => 0
  }

  ghost function CountSlots(v: Value, a: nat, n: nat): nat
    requires v.Composite? && n <= |v.slots|
    decreases v, n
  {
    if n == 0 then 0
    else CountSlots(v, a, n - 1) + if Hidden(v.slots[n - 1]) then 0 else Count(v.slots[n - 1].value, a)
  }

  /** No pointer occurs twice in the whole response. */
  ghost predicate Unshared(heap: map<nat, Value>, root: Value) {
    && (forall a :: Count(root, a) <= 1)
    && (forall a, b :: b in heap ==> Count(heap[b], a) + Count(root, a) <= 1)
    && (forall a, b, c :: b in heap && c in heap && b != c ==> Count(heap[b], a) + Count(heap[c], a) <= 1)
  }

  lemma {:induction false} SlotsCount(v: Value, a: nat, n: nat, i: nat, j: nat)
    requires v.Composite? && i < n <= |v.slots| && j < n
    requires !Hidden(v.slots[i]) && !Hidden(v.slots[j])
    ensures CountSlots(v, a, n) >= Count(v.slots[i].value, a)
    ensures i != j ==> CountSlots(v, a, n) >= Count(v.slots[i].value, a) + Count(v.slots[j].value, a)
    decreases n
  {
    if i < n - 1 && j < n - 1 {
      SlotsCount(v, a, n - 1, i, j);
    } else if i < n - 1 {
      SlotsCount(v, a, n - 1, i, i);
    } else if j < n - 1 {
      SlotsCount(v, a, n - 1, j, j);
    }
  }

  lemma {:induction false} MentionsCount(words: Words, v: Value, field: string, a: nat, n: string)
    requires Mentions(words, v, field, a, n)
    ensures Count(v, a) >= 1
    decreases v
  {
    match v
    case Boxed(inner) => MentionsCount(words, inner, field, a, n);
    case Composite(_, slots) =>
      var i :| 0 <= i < |slots| && !Hidden(slots[i]) &&
               Mentions(words, slots[i].value, SlotName(words, v, i, field), a, n);
      MentionsCount(words, slots[i].value, SlotName(words, v, i, field), a, n);
      SlotsCount(v, a, |slots|, i, i);
    case _ =>
  }

  /** A pointer that occurs once is mentioned under one name. */
  lemma {:induction false} OnceUnderOneName(words: Words, v: Value, field: string, a: nat, m: string, n: string)
    requires Mentions(words, v, field, a, m) && Mentions(words, v, field, a, n) && Count(v, a) <= 1
    ensures m == n
    decreases v
  {
    match v
    case Boxed(inner) => OnceUnderOneName(words, inner, field, a, m, n);
    case Composite(_, slots) =>
      var i :| 0 <= i < |slots| && !Hidden(slots[i]) &&
               Mentions(words, slots[i].value, SlotName(words, v, i, field), a, m);
      var j :| 0 <= j < |slots| && !Hidden(slots[j]) &&
               Mentions(words, slots[j].value, SlotName(words, v, j, field), a, n);
      MentionsCount(words, slots[i].value, SlotName(words, v, i, field), a, m);
      MentionsCount(words, slots[j].value, SlotName(words, v, j, field), a, n);
      SlotsCount(v, a, |slots|, i, j);
      OnceUnderOneName(words, slots[i].value, SlotName(words, v, i, field), a, m, n);
    case _ =>
  }

  /** A cell that mentions a pointer is the only place where it occurs. */
  lemma OnlyMention(words: Words, data: map<nat, Value>, root: Value, a: nat, c: nat, y: string, n: string)
    requires Unshared(data, root) && c in data && Mentions(words, data[c], y, a, n)
    ensures Count(root, a) == 0 && Count(data[c], a) == 1
    ensures forall b :: b in data && b != c ==> Count(data[b], a) == 0
  {
    MentionsCount(words, data[c], y, a, n);
    assert Count(data[c], a) + Count(root, a) <= 1;
    forall b | b in data && b != c ensures Count(data[b], a) == 0 {
      assert Count(data[b], a) + Count(data[c], a) <= 1;
    }
  }

  lemma {:induction false} UnsharedOneName(words: Words, data: map<nat, Value>, root: Value,
                                           a: nat, m: string, d: nat, n: string, e: nat)
    requires Unshared(data, root)
    requires ReachedIn(words, data, root, a, m, d) && ReachedIn(words, data, root, a, n, e)
    ensures m == n
    decreases d
  {
    if d == 0 && e == 0 {
      OnceUnderOneName(words, root, "", a, m, n);
    } else if d == 0 {
      var c, y := LastCell(words, data, root, a, n, e);
      MentionsCount(words, root, "", a, m);
    } else {
      var b, x := LastCell(words, data, root, a, m, d);
      if e == 0 {
        MentionsCount(words, root, "", a, n);
      } else {
        var c, y := LastCell(words, data, root, a, n, e);
        UnsharedOneName(words, data, root, b, x, d - 1, y, e - 1);
        OnceUnderOneName(words, data[b], x, a, m, n);
      }
    }
  }

  /** The cell from which the pointer is reached is the one place where it occurs. */
  lemma LastCell(words: Words, data: map<nat, Value>, root: Value, a: nat, n: string, d: nat)
    returns (b: nat, m: string)
    requires Unshared(data, root) && d > 0 && ReachedIn(words, data, root, a, n, d)
    ensures ReachedIn(words, data, root, b, m, d - 1) && b in data && Mentions(words, data[b], m, a, n)
    ensures Count(root, a) == 0 && Count(data[b], a) == 1
    ensures forall c :: c in data && c != b ==> Count(data[c], a) == 0
  {
    b, m :| ReachedIn(words, data, root, b, m, d - 1) && b in data && Mentions(words, data[b], m, a, n);
    OnlyMention(words, data, root, a, b, m, n);
  }

  /** For data in which no pointer occurs twice no string under an error field of
      the localised response keeps a Han character. */
  lemma UnsharedDataIsClean(words: Words, data: map<nat, Value>, heap: map<nat, Value>, visited: map<nat, nat>,
                            root: Value, w: Value)
    requires FaithfulCopy(words, data, heap, visited, FirstNames(words, data, root), root, w)
    requires Unshared(data, root) && !ContainsHan(words, GENERIC_ERROR)
    ensures NoHanInErrors(words, heap, root, w)
  {
    forall a, m, n | Reached(words, data, root, a, m) && Reached(words, data, root, a, n) ensures m == n {
      var d: nat :| ReachedIn(words, data, root, a, m, d);
      var e: nat :| ReachedIn(words, data, root, a, n, e);
      UnsharedOneName(words, data, root, a, m, d, n, e);
    }
    NoHanUnderErrorFields(words, data, heap, visited, root, w);
  }

  // ------------------------------------------------- one cell under two fields

  /** A struct whose two fields point to the same text. */
  function TwoFields(first: string, second: string): Value {
    Composite(StructKind, [Slot(FieldLabel(first, true), Pointer(0)), Slot(FieldLabel(second, true), Pointer(0))])
  }

  lemma NamesOfTwoFields(words: Words, first: string, second: string)
    ensures SlotName(words, TwoFields(first, second), 0, "") == first
    ensures SlotName(words, TwoFields(first, second), 1, "") == second
  {
    assert !RepresentsFailure(words, TwoFields(first, second));
  }

  lemma FirstFieldWins(words: Words, first: string, second: string, s: string)
    ensures FirstNames(words, map[0 := Str(s)], TwoFields(first, second)) == map[0 := first]
  {
    var v, data := TwoFields(first, second), map[0 := Str(s)];
    NamesOfTwoFields(words, first, second);
    assert Visit(words, data, Str(s), first, map[0 := first]) == map[0 := first];
    assert Visit(words, data, Pointer(0), first, map[]) == map[0 := first];
    assert VisitSlots(words, data, v, "", map[0 := first], 2) == map[0 := first];
    assert VisitSlots(words, data, v, "", map[0 := first], 1) == map[0 := first];
    assert VisitSlots(words, data, v, "", map[], 0) == map[0 := first];
  }

  lemma ReachedByTwoFields(words: Words, first: string, second: string, s: string, a: nat, n: string)
    ensures Reached(words, map[0 := Str(s)], TwoFields(first, second), a, n) <==> a == 0 && (n == first || n == second)
  {
    var v, data := TwoFields(first, second), map[0 := Str(s)];
    NamesOfTwoFields(words, first, second);
    assert Mentions(words, v.slots[0].value, SlotName(words, v, 0, ""), 0, first);
    assert Mentions(words, v.slots[1].value, SlotName(words, v, 1, ""), 0, second);
    if a == 0 && (n == first || n == second) {
      assert ReachedIn(words, data, v, a, n, 0);
    }
    if d: nat :| ReachedIn(words, data, v, a, n, d) {
      if d == 0 {
        var i :| 0 <= i < 2 && Mentions(words, v.slots[i].value, SlotName(words, v, i, ""), a, n);
      } else {
        var b, m :| ReachedIn(words, data, v, b, m, d - 1) && b in data && Mentions(words, data[b], m, a, n);
      }
    }
  }

  /** THE ORDER OF THE FIELDS DECIDES. The text is copied once, under the first
      field; the second shows it without Han characters iff it is no error field
      or the text as localised for the first has none. */
  lemma SharedTextIsCleanIff(words: Words, first: string, second: string, s: string,
                             heap: map<nat, Value>, visited: map<nat, nat>, w: Value)
    requires !ContainsHan(words, GENERIC_ERROR)
    requires var root, data := TwoFields(first, second), map[0 := Str(s)];
             FaithfulCopy(words, data, heap, visited, FirstNames(words, data, root), root, w)
    ensures NoHanInErrors(words, heap, TwoFields(first, second), w) <==>
            (IsErrorField(words, second) ==> !ContainsHan(words, LocalizeString(words, first, s)))
  {
    var root, data := TwoFields(first, second), map[0 := Str(s)];
    FirstFieldWins(words, first, second, s);
    ErrorsCleanIff(words, data, heap, visited, map[0 := first], root, w);
    ReachedByTwoFields(words, first, second, s, 0, first);
    ReachedByTwoFields(words, first, second, s, 0, second);
    SameNameIsClean(words, Str(s), first);
    forall a, n | Reached(words, data, root, a, n) ensures a == 0 && (n == first || n == second) {
      ReachedByTwoFields(words, first, second, s, a, n);
    }
    assert CleanAs(words, data[0], first, second) <==>
           (IsErrorField(words, second) ==> !ContainsHan(words, LocalizeString(words, first, s)));
  }

  /** A run of the copier on such a struct: with the plain field first the error
      field keeps its Han text, with the error field first it does not. */
  method SharedCellCanKeepHan(words: Words)
    returns (w: Value, heap: map<nat, Value>, w': Value, heap': map<nat, Value>)
    requires words.lower("name") == "name" && words.lower("error") == "error" && words.han('\U{9519}')
    requires !ContainsHan(words, GENERIC_ERROR)
    ensures !NoHanInErrors(words, heap, TwoFields("name", "error"), w)
    ensures NoHanInErrors(words, heap', TwoFields("error", "name"), w')
  {
    var visited, visited' := map[], map[];
    HanText(words);
    w, heap, visited := LocalizeResponseData(words, true, TwoFields("name", "error"), map[0 := Str(HAN)], 1);
    SharedTextIsCleanIff(words, "name", "error", HAN, heap, visited, w);
    w', heap', visited' := LocalizeResponseData(words, true, TwoFields("error", "name"), map[0 := Str(HAN)], 1);
    SharedTextIsCleanIff(words, "error", "name", HAN, heap', visited', w');
  }

  const HAN := "\U{9519}"

  lemma HanText(words: Words)
    requires words.lower("name") == "name" && words.lower("error") == "error" && words.han('\U{9519}')
    ensures IsErrorField(words, "error") && !IsErrorField(words, "name")
    ensures ContainsHan(words, LocalizeString(words, "name", HAN))
  {
    assert T.TrimSpace("name") == "name" && T.TrimSpace("error") == "error";
    assert words.han(HAN[0]);
  }
}
