/** Configuration snapshots: secrets taken out, the difference collected, and the
    rows kept consistent with it. */
module ConfigSnapshot {
  import opened Json
  import opened JsonText
  import opened JsonNumbers
  import opened ConfigDiff
  import opened Options
  import opened ConfigPatch
  import T = Text

  // ---------------------------------------------------------------- redaction

  /** A document Go prints: no key stands twice in one object. */
  type Printed = d: Doc | Distinct(d) ghost witness Leaf(Null)

  /** A Go value as redaction meets it. `Other` is everything redaction returns as
      it is: scalars, and structs, pointers and typed slices and maps, of which
      only the document they are printed as is known. */
  datatype Go =
    | AnyMap(fields: map<string, Go>)
    | AnySlice(items: seq<Go>)
    | Other(printed: Printed)

  const PLACEHOLDER := Text("[REDACTED]")

  /** The keys whose values are withheld. `lower` is the source's ToLower. */
  predicate Sensitive(lower: string -> string, key: string) {
    var k := lower(key);
    || T.Contains(k, "password") || T.Contains(k, "secret") || T.Contains(k, "token")
    || T.Contains(k, "privatekey") || T.Contains(k, "private_key")
  }

  function Redact(lower: string -> string, v: Go): Go
    decreases v
  {
    match v
    case AnyMap(fields) =>
      AnyMap(map key | key in fields ::
               if Sensitive(lower, key) then Other(Leaf(PLACEHOLDER)) else Redact(lower, fields[key]))
    case AnySlice(items) => AnySlice(seq(|items|, i requires 0 <= i < |items| => Redact(lower, items[i])))
    case Other(_) => v
  }

  /** One of the five words stands in the text. */
  ghost predicate HoldsSecretWord(text: string) {
    exists u, w, v :: w in {"password", "secret", "token", "privatekey", "private_key"} && text == u + w + v
  }

  lemma ContainsIsBetween(text: string, word: string)
    ensures T.Contains(text, word) <==> exists u, v :: text == u + word + v
  {
    if T.Contains(text, word) {
      var i: nat :| i <= |text| && T.OccursAt(word, text, i);
      assert text == text[..i] + word + text[i + |word|..];
    }
    if u, v :| text == u + word + v {
      assert T.OccursAt(word, text, |u|);
    }
  }

  lemma SensitiveHoldsWord(lower: string -> string, key: string)
    ensures Sensitive(lower, key) <==> HoldsSecretWord(lower(key))
  {
    var k := lower(key);
    ContainsIsBetween(k, "password");
    ContainsIsBetween(k, "secret");
    ContainsIsBetween(k, "token");
    ContainsIsBetween(k, "privatekey");
    ContainsIsBetween(k, "private_key");
    if HoldsSecretWord(k) {
      var u, w, v :| w in {"password", "secret", "token", "privatekey", "private_key"} && k == u + w + v;
      ContainsIsBetween(k, w);
    }
  }

  /** WHAT IS WITHHELD. In a map exactly the values whose lower-case key holds one of
      the five words become the placeholder, and every other one is redacted in its
      turn; so is every item of a slice. Nothing else changes. */
  lemma RedactEntries(lower: string -> string, v: Go)
    ensures var r := Redact(lower, v);
            match v
            case AnyMap(fields) =>
              && r.AnyMap? && r.fields.Keys == fields.Keys
              && forall key :: key in fields ==>
                   r.fields[key] == if HoldsSecretWord(lower(key)) then Other(Leaf(Text("[REDACTED]")))
                                    else Redact(lower, fields[key])
            case AnySlice(items) =>
              && r.AnySlice? && |r.items| == |items|
              && forall i :: 0 <= i < |items| ==> r.items[i] == Redact(lower, items[i])
            case Other(_) => r == v
  {
    if v.AnyMap? {
      forall key | key in v.fields ensures Sensitive(lower, key) <==> HoldsSecretWord(lower(key)) {
        SensitiveHoldsWord(lower, key);
      }
    }
  }

  /** The document json.Marshal writes for a value. */
  function DocOf(v: Go): Doc
    decreases v
  {
    match v
    case AnyMap(fields) => SortedRecord(map key | key in fields :: DocOf(fields[key]))
    case AnySlice(items) => List(seq(|items|, i requires 0 <= i < |items| => DocOf(items[i])))
    case Other(printed) => printed
  }

  /** What the text of a value denotes, numbers as they are written. */
  function Decoded(v: Go): Json {
    Decode(DocOf(v))
  }

  /** A decoded value as a Go value: objects are maps and arrays slices again. */
  function FromJson(v: Json): Go
    decreases v
  {
    match v
    case Object(fields) => AnyMap(map key | key in fields :: FromJson(fields[key]))
    case Array(items) => AnySlice(seq(|items|, i requires 0 <= i < |items| => FromJson(items[i])))
    case _ => Other(Leaf(v))
  }

  lemma DecodedMap(fields: map<string, Go>, decoded: map<string, Json>)
    requires fields.Keys == decoded.Keys
    requires forall key :: key in fields ==> DecodesTo(DocOf(fields[key]), decoded[key])
    ensures DecodesTo(DocOf(AnyMap(fields)), Object(decoded))
  {
    var parts := map key | key in fields :: DocOf(fields[key]);
    assert parts.Keys == fields.Keys;
    forall key | key in parts ensures DecodesTo(parts[key], decoded[key]) {
      assert DecodesTo(DocOf(fields[key]), decoded[key]);
    }
    DecodeSortedRecord(parts, decoded);
    assert DocOf(AnyMap(fields)) == SortedRecord(parts);
  }

  lemma DecodedSlice(items: seq<Go>, decoded: seq<Json>)
    requires |decoded| == |items| && forall i :: 0 <= i < |items| ==> DecodesTo(DocOf(items[i]), decoded[i])
    ensures DecodesTo(DocOf(AnySlice(items)), Array(decoded))
  {
    assert forall i :: 0 <= i < |items| ==> DecodesTo(DocOf(items[i]), decoded[i]);
    assert Decode(DocOf(AnySlice(items))).items == decoded;
  }

  lemma {:induction false} FromJsonIsCanonical(v: Json)
    ensures DocOf(FromJson(v)) == Canonical(v)
    decreases v
  {
    match v
    case Object(fields) =>
      forall key | key in fields ensures DocOf(FromJson(fields[key])) == Canonical(fields[key]) {
        FromJsonIsCanonical(fields[key]);
      }
      var goFields := FromJson(v).fields;
      assert (map key | key in goFields :: DocOf(goFields[key])) == map key | key in fields :: Canonical(fields[key]);
    case Array(items) =>
      forall i | 0 <= i < |items| ensures DocOf(FromJson(items[i])) == Canonical(items[i]) {
        FromJsonIsCanonical(items[i]);
      }
      assert DocOf(FromJson(v)).items == Canonical(v).items;
    case _ =>
  }

  lemma {:induction false} DocsAreDistinct(v: Go)
    ensures Distinct(DocOf(v))
    decreases v
  {
    match v
    case AnyMap(fields) =>
      var parts := map key | key in fields :: DocOf(fields[key]);
      forall key | key in parts ensures Distinct(parts[key]) {
        DocsAreDistinct(fields[key]);
      }
      SortedRecordIsDistinct(parts);
    case AnySlice(items) =>
      forall i | 0 <= i < |items| ensures Distinct(DocOf(items[i])) {
        DocsAreDistinct(items[i]);
      }
    case Other(_) =>
  }

  lemma SortedRecordIsDistinct(parts: map<string, Doc>)
    requires forall key :: key in parts ==> Distinct(parts[key])
    ensures Distinct(SortedRecord(parts))
  {
    var keys := SortedKeys(parts.Keys);
    forall i, j | 0 <= i < j < |keys| ensures keys[i] != keys[j] {
      LessIsStrictTotal(keys[i], keys[j]);
    }
    forall i | 0 <= i < |keys| ensures Distinct(parts[keys[i]]) {
      assert keys[i] in keys;
    }
  }

  /** Nothing but the placeholder stands under a sensitive key, at any depth. */
  ghost predicate NoSecrets(lower: string -> string, v: Json)
    decreases v
  {
    match v
    case Object(fields) =>
      forall key :: key in fields ==>
        if Sensitive(lower, key) then fields[key] == PLACEHOLDER else NoSecrets(lower, fields[key])
    case Array(items) => forall i :: 0 <= i < |items| ==> NoSecrets(lower, items[i])
    case _ => true
  }

  /** The parts redaction does not enter, and does not take away as a whole, hold
      no secrets of their own. */
  ghost predicate OtherPartsClean(lower: string -> string, v: Go)
    decreases v
  {
    match v
    case AnyMap(fields) => forall key :: key in fields ==> Sensitive(lower, key) || OtherPartsClean(lower, fields[key])
    case AnySlice(items) => forall i :: 0 <= i < |items| ==> OtherPartsClean(lower, items[i])
    case Other(printed) => NoSecrets(lower, Decode(printed))
  }

  /** The two values differ at most in what stands under sensitive keys of maps. */
  ghost predicate SameButSecrets(lower: string -> string, v: Go, w: Go)
    decreases v
  {
    match v
    case AnyMap(fields) =>
      && w.AnyMap? && w.fields.Keys == fields.Keys
      && forall key :: key in fields ==> Sensitive(lower, key) || SameButSecrets(lower, fields[key], w.fields[key])
    case AnySlice(items) =>
      && w.AnySlice? && |w.items| == |items|
      && forall i :: 0 <= i < |items| ==> SameButSecrets(lower, items[i], w.items[i])
    case Other(_) => v == w
  }

  /** Redaction keeps exactly the public part of a value: two values redact alike
      iff they differ at most in their secrets. */
  lemma {:induction false} RedactKeepsPublicPart(lower: string -> string, v: Go, w: Go)
    ensures Redact(lower, v) == Redact(lower, w) <==> SameButSecrets(lower, v, w)
    decreases v
  {
    match v
    case AnyMap(fields) =>
      if w.AnyMap? {
        var rv, rw := Redact(lower, v).fields, Redact(lower, w).fields;
        forall key | key in fields && key in w.fields
          ensures Sensitive(lower, key) || (rv[key] == rw[key] <==> SameButSecrets(lower, fields[key], w.fields[key]))
        {
          RedactKeepsPublicPart(lower, fields[key], w.fields[key]);
        }
        assert rv.Keys == fields.Keys && rw.Keys == w.fields.Keys;
        if SameButSecrets(lower, v, w) {
          assert rv == rw;
        }
      }
    case AnySlice(items) =>
      if w.AnySlice? {
        var rv, rw := Redact(lower, v).items, Redact(lower, w).items;
        forall i | 0 <= i < |items| && i < |w.items|
          ensures rv[i] == rw[i] <==> SameButSecrets(lower, items[i], w.items[i])
        {
          RedactKeepsPublicPart(lower, items[i], w.items[i]);
        }
        if SameButSecrets(lower, v, w) {
          assert rv == rw;
        }
      }
    case Other(_) =>
  }

  /** Redacting twice is redacting once. */
  lemma {:induction false} RedactIsIdempotent(lower: string -> string, v: Go)
    ensures Redact(lower, Redact(lower, v)) == Redact(lower, v)
    decreases v
  {
    match v
    case AnyMap(fields) =>
      var once := Redact(lower, v).fields;
      forall key | key in fields && !Sensitive(lower, key) ensures Redact(lower, once[key]) == once[key] {
        RedactIsIdempotent(lower, fields[key]);
      }
      assert Redact(lower, AnyMap(once)).fields == once;
    case AnySlice(items) =>
      var once := Redact(lower, v).items;
      forall i | 0 <= i < |items| ensures Redact(lower, once[i]) == once[i] {
        RedactIsIdempotent(lower, items[i]);
      }
      assert Redact(lower, AnySlice(once)).items == once;
    case Other(_) =>
  }

  ghost predicate StoredCleanIffClean(lower: string -> string, v: Go) {
    NoSecrets(lower, Decoded(Redact(lower, v))) <==> OtherPartsClean(lower, v)
  }

  /** EXACTLY WHEN NO SECRET IS STORED. What is stored of a value holds no secrets
      iff none stands in a part that redaction neither enters nor takes away. */
  lemma {:induction false} NoSecretsIffOtherPartsClean(lower: string -> string, v: Go)
    ensures NoSecrets(lower, Decoded(Redact(lower, v))) <==> OtherPartsClean(lower, v)
    decreases v
  {
    match v
    case AnyMap(fields) =>
      forall key | key in fields ensures StoredCleanIffClean(lower, fields[key]) {
        NoSecretsIffOtherPartsClean(lower, fields[key]);
      }
      MapSecrets(lower, fields);
    case AnySlice(items) =>
      forall i | 0 <= i < |items| ensures StoredCleanIffClean(lower, items[i]) {
        NoSecretsIffOtherPartsClean(lower, items[i]);
      }
      SliceSecrets(lower, items);
    case Other(_) =>
  }

  lemma MapSecrets(lower: string -> string, fields: map<string, Go>)
    requires forall key :: key in fields ==> StoredCleanIffClean(lower, fields[key])
    ensures StoredCleanIffClean(lower, AnyMap(fields))
  {
    var redacted := Redact(lower, AnyMap(fields)).fields;
    var decoded := map key | key in fields :: Decoded(redacted[key]);
    assert forall key :: key in fields ==> DecodesTo(DocOf(redacted[key]), decoded[key]);
    DecodedMap(redacted, decoded);
    forall key | key in fields
      ensures if Sensitive(lower, key) then decoded[key] == PLACEHOLDER
              else NoSecrets(lower, decoded[key]) <==> OtherPartsClean(lower, fields[key])
    {
      assert StoredCleanIffClean(lower, fields[key]);
    }
    DecodedSecrets(lower, decoded, fields);
  }

  lemma DecodedSecrets(lower: string -> string, decoded: map<string, Json>, fields: map<string, Go>)
    requires decoded.Keys == fields.Keys
    requires forall key :: key in fields ==>
               if Sensitive(lower, key) then decoded[key] == PLACEHOLDER
               else NoSecrets(lower, decoded[key]) <==> OtherPartsClean(lower, fields[key])
    ensures NoSecrets(lower, Object(decoded)) <==> OtherPartsClean(lower, AnyMap(fields))
  {
  }

  lemma SliceSecrets(lower: string -> string, items: seq<Go>)
    requires forall i :: 0 <= i < |items| ==> StoredCleanIffClean(lower, items[i])
    ensures StoredCleanIffClean(lower, AnySlice(items))
  {
    var redacted := Redact(lower, AnySlice(items)).items;
    var decoded := seq(|items|, i requires 0 <= i < |items| => Decoded(redacted[i]));
    DecodedSlice(redacted, decoded);
    forall i | 0 <= i < |items| ensures NoSecrets(lower, decoded[i]) <==> OtherPartsClean(lower, items[i]) {
      assert StoredCleanIffClean(lower, items[i]);
    }
    DecodedItemSecrets(lower, decoded, items);
  }

  lemma DecodedItemSecrets(lower: string -> string, decoded: seq<Json>, items: seq<Go>)
    requires |decoded| == |items|
    requires forall i :: 0 <= i < |items| ==> (NoSecrets(lower, decoded[i]) <==> OtherPartsClean(lower, items[i]))
    ensures NoSecrets(lower, Array(decoded)) <==> OtherPartsClean(lower, AnySlice(items))
  {
  }

  /** Decoded values have no such parts, so redacting them leaves no secrets. */
  lemma {:induction false} DecodedPartsAreClean(lower: string -> string, v: Json)
    ensures OtherPartsClean(lower, FromJson(v))
    decreases v
  {
    match v
    case Object(fields) =>
      forall key | key in fields ensures OtherPartsClean(lower, FromJson(fields[key])) {
        DecodedPartsAreClean(lower, fields[key]);
      }
    case Array(items) =>
      forall i | 0 <= i < |items| ensures OtherPartsClean(lower, FromJson(items[i])) {
        DecodedPartsAreClean(lower, items[i]);
      }
    case _ =>
  }

  /** Redaction leaves a decoded value alone iff it holds no secrets. */
  lemma {:induction false} RedactFixesSecretFree(lower: string -> string, v: Json)
    ensures Decoded(Redact(lower, FromJson(v))) == v <==> NoSecrets(lower, v)
    ensures NoSecrets(lower, v) ==> Redact(lower, FromJson(v)) == FromJson(v)
    decreases v
  {
    DecodedPartsAreClean(lower, v);
    NoSecretsIffOtherPartsClean(lower, FromJson(v));
    if NoSecrets(lower, v) {
      match v {
        case Object(fields) =>
          var redacted := Redact(lower, FromJson(v)).fields;
          forall key | key in fields ensures redacted[key] == FromJson(fields[key]) {
            RedactFixesSecretFree(lower, fields[key]);
          }
          assert redacted == FromJson(v).fields;
        case Array(items) =>
          var redacted := Redact(lower, FromJson(v)).items;
          forall i | 0 <= i < |items| ensures redacted[i] == FromJson(items[i]) {
            RedactFixesSecretFree(lower, items[i]);
          }
          assert redacted == FromJson(v).items;
        case _ =>
      }
      FromJsonIsCanonical(v);
      DecodeCanonical(v);
    }
  }

  // ---------------------------------------------------- normal form, equality

  const MAX_BYTES := 4 * 1024 * 1024

  function ByteLength(s: string): nat {
    if s == "" then 0
    else
      (if s[0] < '\U{80}' then 1 else if s[0] < '\U{800}' then 2 else if s[0] < '\U{10000}' then 3 else 4) +
      ByteLength(s[1..])
  }

  /** The bytes of a text in UTF-8 (RFC 3629, section 3). */
  function Utf8(s: string): seq<nat> {
    if s == "" then [] else Utf8Char(s[0] as int) + Utf8(s[1..])
  }

  function Utf8Char(n: nat): (bytes: seq<nat>)
    requires n < 0x11_0000
    ensures forall b :: b in bytes ==> b < 256
  {
    if n < 0x80 then [n]
    else if n < 0x800 then [0xC0 + n / 64, 0x80 + n % 64]
    else if n < 0x1_0000 then [0xE0 + n / 4096, 0x80 + n / 64 % 64, 0x80 + n % 64]
    else [0xF0 + n / 262144, 0x80 + n / 4096 % 64, 0x80 + n / 64 % 64, 0x80 + n % 64]
  }

  lemma {:induction false} ByteLengthIsUtf8(s: string)
    ensures ByteLength(s) == |Utf8(s)|
  {
    if s != "" {
      ByteLengthIsUtf8(s[1..]);
    }
  }

  /** What is stored is the redacted value, and shows secrets iff the value had some
      where redaction does not enter. */
  ghost predicate IsStoredOf(lower: string -> string, stored: Doc, v: Go) {
    && stored == DocOf(Redact(lower, v))
    && (NoSecrets(lower, Decode(stored)) <==> OtherPartsClean(lower, v))
  }

  /** The document of the redacted value, unless its text is too long to store. */
  function Normalize(lower: string -> string, v: Go): (r: Option<Doc>)
    ensures r.Some? ==> IsStoredOf(lower, r.value, v)
    ensures r.Some? <==> |Utf8(Print(DocOf(Redact(lower, v))))| <= 4_194_304
  {
    var d := DocOf(Redact(lower, v));
    NoSecretsIffOtherPartsClean(lower, v);
    ByteLengthIsUtf8(Print(d));
    if ByteLength(Print(d)) > MAX_BYTES then None else Some(d)
  }

  predicate Equal(lower: string -> string, a: Go, b: Go) {
    var x, y := Normalize(lower, a), Normalize(lower, b);
    x.Some? && y.Some? && Print(x.value) == Print(y.value)
  }

  // --------------------------------------------------------------- difference

  datatype DiffLists = DiffLists(added: seq<string>, changed: seq<string>, removed: seq<string>)

  /** The names of the entries of one kind, below a base path, in order. */
  function Names(base: Path, entries: seq<Entry>, kind: Kind): seq<string> {
    if entries == [] then []
    else (if entries[0].kind == kind then [Dotted(base + entries[0].path)] else []) + Names(base, entries[1..], kind)
  }

  function DiffOf(l: Json, r: Json): DiffLists {
    if l.Object? && r.Object? then
      var d := Walk(l, r);
      DiffLists(Names([], d, Added), Names([], d, Changed), Names([], d, Removed))
    else if l == r then DiffLists([], [], [])
    else DiffLists([], ["$"], [])
  }

  const NO_DIFF := DiffLists([], [], [])

  lemma {:induction false} NamesConcat(base: Path, d: seq<Entry>, e: seq<Entry>, kind: Kind)
    ensures Names(base, d + e, kind) == Names(base, d, kind) + Names(base, e, kind)
    decreases |d|
  {
    if d == [] {
      assert d + e == e;
    } else {
      assert (d + e)[1..] == d[1..] + e;
      NamesConcat(base, d[1..], e, kind);
    }
  }

  lemma {:induction false} NamesUnder(base: Path, key: string, d: seq<Entry>, kind: Kind)
    ensures Names(base, Under(key, d), kind) == Names(base + [key], d, kind)
    decreases |d|
  {
    if d != [] {
      assert Under(key, d)[1..] == Under(key, d[1..]);
      assert base + ([key] + d[0].path) == base + [key] + d[0].path;
      NamesUnder(base, key, d[1..], kind);
    }
  }

  lemma {:induction false} NamesLength(base: Path, d: seq<Entry>)
    ensures |Names(base, d, Added)| + |Names(base, d, Changed)| + |Names(base, d, Removed)| == |d|
    decreases |d|
  {
    if d != [] {
      NamesLength(base, d[1..]);
    }
  }

  /** The paths of the entries of one kind, in order. */
  function PathsOf(entries: seq<Entry>, kind: Kind): seq<Path> {
    if entries == [] then []
    else (if entries[0].kind == kind then [entries[0].path] else []) + PathsOf(entries[1..], kind)
  }

  lemma {:induction false} NamesOfPaths(entries: seq<Entry>, kind: Kind)
    ensures |Names([], entries, kind)| == |PathsOf(entries, kind)|
    ensures forall i :: 0 <= i < |PathsOf(entries, kind)| ==>
              Names([], entries, kind)[i] == Dotted(PathsOf(entries, kind)[i])
  {
    if entries != [] {
      NamesOfPaths(entries[1..], kind);
      assert [] + entries[0].path == entries[0].path;
    }
  }

  lemma {:induction false} InPathsOf(entries: seq<Entry>, kind: Kind, p: Path)
    ensures p in PathsOf(entries, kind) <==> Entry(kind, p) in entries
  {
    if entries != [] {
      InPathsOf(entries[1..], kind, p);
    }
  }

  lemma {:induction false} PathsInOrder(entries: seq<Entry>, kind: Kind)
    requires forall i, j :: 0 <= i < j < |entries| ==> Before(entries[i].path, entries[j].path)
    ensures InOrder(PathsOf(entries, kind))
  {
    if entries != [] {
      var rest := PathsOf(entries[1..], kind);
      PathsInOrder(entries[1..], kind);
      forall j | 0 <= j < |rest| ensures Before(entries[0].path, rest[j]) {
        InPathsOf(entries[1..], kind, rest[j]);
      }
    }
  }

  ghost predicate InOrder(paths: seq<Path>) {
    forall i, j :: 0 <= i < j < |paths| ==> Before(paths[i], paths[j])
  }

  /** The names are those of the paths at which the sides differ in this way, each
      once and in order. */
  ghost predicate NamesAll(names: seq<string>, l: Json, r: Json, kind: Kind) {
    exists paths: seq<Path> ::
      && InOrder(paths) && (forall p :: p in paths <==> Situated(kind, l, r, p))
      && |names| == |paths| && forall i :: 0 <= i < |paths| ==> names[i] == Dotted(paths[i])
  }

  /** WHAT IS LISTED WHERE. Two objects: under added, removed and changed the names of
      exactly those paths. Otherwise: nothing, or "$" alone under changed. */
  ghost predicate ShowsDifference(lists: DiffLists, l: Json, r: Json) {
    if l.Object? && r.Object? then
      && NamesAll(lists.added, l, r, Added)
      && NamesAll(lists.removed, l, r, Removed)
      && NamesAll(lists.changed, l, r, Changed)
    else
      lists.added == [] && lists.removed == [] && lists.changed == if l == r then [] else ["$"]
  }

  lemma DiffOfShowsDifference(l: Json, r: Json)
    ensures ShowsDifference(DiffOf(l, r), l, r)
  {
    if l.Object? && r.Object? {
      NamesOfWalk(l, r, Added);
      NamesOfWalk(l, r, Removed);
      NamesOfWalk(l, r, Changed);
    }
  }

  lemma NamesOfWalk(l: Json, r: Json, kind: Kind)
    requires l.Object? && r.Object?
    ensures NamesAll(Names([], Walk(l, r), kind), l, r, kind)
  {
    var d := Walk(l, r);
    var paths := PathsOf(d, kind);
    forall i, j | 0 <= i < j < |d| ensures Before(d[i].path, d[j].path) {
      WalkIsOrdered(l, r, i, j);
    }
    PathsInOrder(d, kind);
    NamesOfPaths(d, kind);
    forall p ensures p in paths <==> Situated(kind, l, r, p) {
      InPathsOf(d, kind, p);
      WalkIsExact(l, r, Entry(kind, p));
      DiffIsSituated(l, r, p, kind);
    }
  }

  /** The difference is empty iff there is none. */
  lemma NoDiffIffEqual(l: Json, r: Json)
    ensures DiffOf(l, r) == NO_DIFF <==> l == r
  {
    if l.Object? && r.Object? {
      EmptyWalkIffEqual(l, r);
      NamesLength([], Walk(l, r));
    }
  }

  /** What the stored text of a value is decoded to. */
  function Stored(lower: string -> string, round: Rounding, v: Go): Json {
    Unmarshal(round, DocOf(Redact(lower, v)))
  }

  /** EQUAL AND THE DIFFERENCE. Equal compares texts, the difference compares what
      they are decoded to: Equal holds iff both sides can be stored, their
      difference is empty, and they have the same numbers and list their members
      in the same order. */
  lemma EqualIffNoDiffInSameOrder(lower: string -> string, round: Rounding, a: Go, b: Go)
    ensures Equal(lower, a, b) <==>
            && Normalize(lower, a).Some? && Normalize(lower, b).Some?
            && DiffOf(Stored(lower, round, a), Stored(lower, round, b)) == NO_DIFF
            && SameOrder(DocOf(Redact(lower, a)), DocOf(Redact(lower, b)))
            && SameNumbers(DocOf(Redact(lower, a)), DocOf(Redact(lower, b)))
  {
    var x, y := DocOf(Redact(lower, a)), DocOf(Redact(lower, b));
    PrintIsInjective(x, y);
    NoDiffIffEqual(Unmarshal(round, x), Unmarshal(round, y));
    DocsAreDistinct(Redact(lower, a));
    DocsAreDistinct(Redact(lower, b));
    if Unmarshal(round, x) == Unmarshal(round, y) {
      SameDocIffSameOrder(round, x, y);
    }
  }

  /** A document's text and its difference agree on a decoded value. */
  ghost predicate AgreesOn(round: Rounding, d: Doc, v: Json) {
    Print(d) == Encode(v) <==> DiffOf(Unmarshal(round, d), v) == NO_DIFF
  }

  /** Compared with every decoded value, the text of `a` agrees with the difference
      iff `a` prints its members by ascending key and no number that changes when
      it is decoded. */
  lemma TextAgreesIffAscending(lower: string -> string, round: Rounding, a: Go)
    ensures (forall v :: Rounded(round, v) ==> AgreesOn(round, DocOf(Redact(lower, a)), v)) <==>
            Ascending(DocOf(Redact(lower, a))) && Settled(round, DocOf(Redact(lower, a)))
  {
    TextAgrees(round, DocOf(Redact(lower, a)));
  }

  lemma TextAgrees(round: Rounding, d: Doc)
    ensures (forall v :: Rounded(round, v) ==> AgreesOn(round, d, v)) <==> Ascending(d) && Settled(round, d)
  {
    RoundTripsIffAscending(round, d);
    forall v | Rounded(round, v)
      ensures AgreesOn(round, d, v) <==> (d == Canonical(v) <==> Unmarshal(round, d) == v)
      ensures Unmarshal(round, Canonical(v)) == v
    {
      PrintIsInjective(d, Canonical(v));
      NoDiffIffEqual(Unmarshal(round, d), v);
      UnmarshalCanonical(round, v);
    }
    UnmarshalIsRounded(round, d);
  }

  /** DRIFT. The resource is read again and nothing has changed; it is reported as
      unchanged iff it is printed by ascending key, no number in it changes when it
      is decoded, and redaction misses no secret in it. */
  lemma UnchangedIsEqualIff(lower: string -> string, round: Rounding, current: Go)
    ensures Normalize(lower, current).Some? ==>
              (Equal(lower, current, FromJson(Stored(lower, round, current))) <==>
               && Ascending(DocOf(Redact(lower, current))) && Settled(round, DocOf(Redact(lower, current)))
               && OtherPartsClean(lower, current))
  {
    var d := DocOf(Redact(lower, current));
    var v := Unmarshal(round, d);
    PrintIsInjective(d, DocOf(Redact(lower, FromJson(v))));
    NoSecretsIffOtherPartsClean(lower, current);
    RereadIsSame(lower, round, d);
  }

  /** The same, of the document that was stored. */
  lemma RereadIsSame(lower: string -> string, round: Rounding, d: Doc)
    ensures d == DocOf(Redact(lower, FromJson(Unmarshal(round, d)))) <==>
            Ascending(d) && Settled(round, d) && NoSecrets(lower, Decode(d))
  {
    var v := Unmarshal(round, d);
    var w := RedactJson(lower, v);
    RedactStaysDecoded(lower, v);
    FromJsonIsCanonical(w);
    FloatIsSettled(round, d);
    RoundTripsIffAscending(round, d);
    RedactFixesSecretFree(lower, v);
    FromJsonIsCanonical(v);
    DecodeCanonical(w);
    if d == Canonical(w) {
      CanonicalIsAscending(w);
      UnmarshalIsRounded(round, d);
      RedactedIsRounded(lower, round, v);
      CanonicalIsSettled(round, w);
    }
  }

  lemma {:induction false} RedactedIsRounded(lower: string -> string, round: Rounding, v: Json)
    requires Rounded(round, v)
    ensures Rounded(round, RedactJson(lower, v))
    decreases v
  {
    match v
    case Object(fields) =>
      forall key | key in fields && !Sensitive(lower, key) ensures Rounded(round, RedactJson(lower, fields[key])) {
        RedactedIsRounded(lower, round, fields[key]);
      }
    case Array(items) =>
      forall i | 0 <= i < |items| ensures Rounded(round, RedactJson(lower, items[i])) {
        RedactedIsRounded(lower, round, items[i]);
      }
    case _ =>
  }

  function RedactJson(lower: string -> string, v: Json): Json
    decreases v
  {
    match v
    case Object(fields) =>
      Object(map key | key in fields :: if Sensitive(lower, key) then PLACEHOLDER else RedactJson(lower, fields[key]))
    case Array(items) => Array(seq(|items|, i requires 0 <= i < |items| => RedactJson(lower, items[i])))
    case _ => v
  }

  lemma {:induction false} RedactStaysDecoded(lower: string -> string, v: Json)
    ensures Redact(lower, FromJson(v)) == FromJson(RedactJson(lower, v))
    decreases v
  {
    match v
    case Object(fields) =>
      forall key | key in fields && !Sensitive(lower, key)
        ensures Redact(lower, FromJson(fields[key])) == FromJson(RedactJson(lower, fields[key]))
      {
        RedactStaysDecoded(lower, fields[key]);
      }
      assert Redact(lower, FromJson(v)).fields == FromJson(RedactJson(lower, v)).fields;
    case Array(items) =>
      forall i | 0 <= i < |items|
        ensures Redact(lower, FromJson(items[i])) == FromJson(RedactJson(lower, items[i]))
      {
        RedactStaysDecoded(lower, items[i]);
      }
      assert Redact(lower, FromJson(v)).items == FromJson(RedactJson(lower, v)).items;
    case _ =>
  }

  /** Between decoded values the two comparisons agree: Equal holds iff both can be
      stored and have no difference, that is, differ at most in their secrets. */
  lemma EqualIffNoDiff(lower: string -> string, round: Rounding, a: Json, b: Json)
    requires Rounded(round, a) && Rounded(round, b)
    ensures var x, y := FromJson(a), FromJson(b);
            && (Equal(lower, x, y) <==>
                && Normalize(lower, x).Some? && Normalize(lower, y).Some?
                && DiffOf(Stored(lower, round, x), Stored(lower, round, y)) == NO_DIFF)
            && (Equal(lower, x, y) <==> Normalize(lower, x).Some? && SameButSecrets(lower, x, y))
  {
    var x, y := FromJson(a), FromJson(b);
    var c, d := RedactJson(lower, a), RedactJson(lower, b);
    StoredIsRedacted(lower, round, a);
    StoredIsRedacted(lower, round, b);
    SameTextSameValue(c, d);
    NoDiffIffEqual(c, d);
    RedactKeepsPublicPart(lower, x, y);
    assert c == d ==> FromJson(c) == FromJson(d);
  }

  lemma StoredIsRedacted(lower: string -> string, round: Rounding, v: Json)
    requires Rounded(round, v)
    ensures Redact(lower, FromJson(v)) == FromJson(RedactJson(lower, v))
    ensures DocOf(Redact(lower, FromJson(v))) == Canonical(RedactJson(lower, v))
    ensures Stored(lower, round, FromJson(v)) == RedactJson(lower, v)
    ensures Decode(Canonical(RedactJson(lower, v))) == RedactJson(lower, v)
  {
    RedactStaysDecoded(lower, v);
    FromJsonIsCanonical(RedactJson(lower, v));
    RedactedIsRounded(lower, round, v);
    UnmarshalCanonical(round, RedactJson(lower, v));
    DecodeCanonical(RedactJson(lower, v));
  }

  // ------------------------------------------------- numbers decoding changes

  /** A struct with one number, as the website settings hold in
      traffic_alert_bytes. */
  function OneNumber(key: string, token: NumberToken): Go {
    var leaf := Leaf(Number(token));
    assert Distinct(leaf);
    Other(Record([Member(key, leaf)]))
  }

  /** Two numbers that are rounded to one have no difference and stand in the same
      order, yet are not equal. */
  lemma MergedNumbersAreNotEqual(lower: string -> string, round: Rounding, key: string, s: NumberToken, t: NumberToken)
    requires s != t && round(s) == round(t)
    ensures var a, b := OneNumber(key, s), OneNumber(key, t);
            && DiffOf(Stored(lower, round, a), Stored(lower, round, b)) == NO_DIFF
            && SameOrder(DocOf(Redact(lower, a)), DocOf(Redact(lower, b)))
            && !Equal(lower, a, b)
  {
    var a, b := OneNumber(key, s).printed, OneNumber(key, t).printed;
    MergedDocs(round, key, s, t);
    PrintIsInjective(a, b);
    NoDiffIffEqual(Unmarshal(round, a), Unmarshal(round, b));
  }

  lemma MergedDocs(round: Rounding, key: string, s: NumberToken, t: NumberToken)
    requires s != t && round(s) == round(t)
    ensures var a, b := OneNumber(key, s).printed, OneNumber(key, t).printed;
            a != b && Float(round, a) == Float(round, b) && SameOrder(a, b)
  {
    var a, b := OneNumber(key, s).printed, OneNumber(key, t).printed;
    assert a.members[0] != b.members[0];
    assert KeysOf(a.members) == [key] == KeysOf(b.members);
  }

  /** A number that changes when it is decoded is reported as changed whenever it is
      read again, although it is printed in order and holds no secret. */
  lemma LargeNumberAlwaysDrifts(lower: string -> string, round: Rounding, key: string, t: NumberToken)
    requires round(t) != t && !Sensitive(lower, key)
    ensures var a := OneNumber(key, t);
            && Ascending(DocOf(Redact(lower, a))) && OtherPartsClean(lower, a)
            && !Equal(lower, a, FromJson(Stored(lower, round, a)))
  {
    var a := OneNumber(key, t);
    var keys := KeysOf(a.printed.members);
    assert keys == [key];
    NumberIsNoSecret(lower, key, t);
    assert !Settled(round, a.printed.members[0].value);
    UnchangedIsEqualIff(lower, round, a);
  }

  lemma NumberIsNoSecret(lower: string -> string, key: string, t: NumberToken)
    requires !Sensitive(lower, key)
    ensures NoSecrets(lower, Decode(OneNumber(key, t).printed))
  {
    assert KeysOf(OneNumber(key, t).printed.members) == [key];
  }

  // ------------------------------------------------------- the panel's own request

  /** The panel's network request; its members are printed in this order. */
  datatype PanelRequest = PanelRequest(
    bindAddress: string, httpPort: string, httpsEnabled: bool, httpsPort: string,
    httpsCertificateFile: string, httpsPrivateKeyFile: string, trustedProxies: seq<string>,
    panelEntryEnabled: bool, panelEntryPath: string, rotatePanelEntry: bool)

  function PrintedRequest(p: PanelRequest): Doc {
    Record([
      Member("bindAddress", Leaf(Text(p.bindAddress))),
      Member("httpPort", Leaf(Text(p.httpPort))),
      Member("httpsEnabled", Leaf(Bool(p.httpsEnabled))),
      Member("httpsPort", Leaf(Text(p.httpsPort))),
      Member("httpsCertificateFile", Leaf(Text(p.httpsCertificateFile))),
      Member("httpsPrivateKeyFile", Leaf(Text(p.httpsPrivateKeyFile))),
      Member("trustedProxies", List(seq(|p.trustedProxies|, i requires 0 <= i < |p.trustedProxies| =>
                                       Leaf(Text(p.trustedProxies[i]))))),
      Member("panelEntryEnabled", Leaf(Bool(p.panelEntryEnabled))),
      Member("panelEntryPath", Leaf(Text(p.panelEntryPath))),
      Member("rotatePanelEntry", Leaf(Bool(p.rotatePanelEntry)))])
  }

  lemma RequestIsDistinct(p: PanelRequest)
    ensures Distinct(PrintedRequest(p))
  {
  }

  lemma KeyFileStandsInRequest(p: PanelRequest)
    ensures Decode(PrintedRequest(p)).Object?
    ensures "httpsPrivateKeyFile" in Decode(PrintedRequest(p)).fields
    ensures Decode(PrintedRequest(p)).fields["httpsPrivateKeyFile"] == Text(p.httpsPrivateKeyFile)
  {
    var members := PrintedRequest(p).members;
    var keys := KeysOf(members);
    assert keys[5] == "httpsPrivateKeyFile";
    assert LastAt(keys, "httpsPrivateKeyFile") == 5;
  }

  /** The request is a struct, so its private key path is stored as it is. */
  lemma PanelRequestIsStoredInClear(lower: string -> string, p: PanelRequest)
    requires lower("httpsPrivateKeyFile") == "httpsprivatekeyfile" && p.httpsPrivateKeyFile != "[REDACTED]"
    ensures Distinct(PrintedRequest(p))
    ensures var stored := Decoded(Redact(lower, Other(PrintedRequest(p))));
            && stored.Object? && "httpsPrivateKeyFile" in stored.fields
            && stored.fields["httpsPrivateKeyFile"] == Text(p.httpsPrivateKeyFile)
            && !NoSecrets(lower, stored)
  {
    RequestIsDistinct(p);
    KeyFileStandsInRequest(p);
    PrivateKeyIsSensitive(lower);
  }

  lemma PrivateKeyIsSensitive(lower: string -> string)
    requires lower("httpsPrivateKeyFile") == "httpsprivatekeyfile"
    ensures Sensitive(lower, "httpsPrivateKeyFile")
  {
    assert "httpsprivatekeyfile"[5..15] == "privatekey";
    assert T.OccursAt("privatekey", "httpsprivatekeyfile", 5);
  }

  /** Its members are not printed by ascending key, so an unchanged request is
      reported as changed, although there is no difference. */
  lemma PanelRequestAlwaysDrifts(lower: string -> string, round: Rounding, p: PanelRequest)
    ensures Distinct(PrintedRequest(p))
    ensures var request := Other(PrintedRequest(p));
            && !Equal(lower, request, FromJson(Stored(lower, round, request)))
            && DiffOf(Stored(lower, round, request), Stored(lower, round, request)) == NO_DIFF
  {
    RequestIsDistinct(p);
    var request := Other(PrintedRequest(p));
    var keys := KeysOf(PrintedRequest(p).members);
    assert keys[6] == "trustedProxies" && keys[7] == "panelEntryEnabled" && !Less(keys[6], keys[7]);
    UnchangedIsEqualIff(lower, round, request);
    NoDiffIffEqual(Stored(lower, round, request), Stored(lower, round, request));
  }

  lemma {:induction false} NamesOfFlip(base: Path, d: seq<Entry>, kind: Kind)
    ensures Names(base, Flip(d), kind) == Names(base, d, FlipKind(kind))
    decreases |d|
  {
    if d != [] {
      assert Flip(d)[1..] == Flip(d[1..]);
      NamesOfFlip(base, d[1..], kind);
    }
  }

  /** Comparing the other way round swaps Added and Removed. */
  lemma SwappedDiff(l: Json, r: Json)
    ensures DiffOf(r, l) == DiffLists(DiffOf(l, r).removed, DiffOf(l, r).changed, DiffOf(l, r).added)
  {
    if l.Object? && r.Object? {
      SwappedSides(l, r);
      NamesOfFlip([], Walk(l, r), Added);
      NamesOfFlip([], Walk(l, r), Changed);
      NamesOfFlip([], Walk(l, r), Removed);
    }
  }

  /** The source compares values by their texts. */
  method EqualJson(a: Json, b: Json) returns (r: bool)
    ensures r <==> a == b
  {
    SameTextSameValue(a, b);
    r := Encode(a) == Encode(b);
  }

  /** The difference under construction. */
  class Diff {
    var added: seq<string>
    var changed: seq<string>
    var removed: seq<string>

    constructor ()
      ensures added == changed == removed == []
    {
      added, changed, removed := [], [], [];
    }

    function Lists(): DiffLists
      reads this
    {
      DiffLists(added, changed, removed)
    }
  }

  /** What the lists become once the given entries are appended. */
  function Extended(lists: DiffLists, base: Path, d: seq<Entry>): DiffLists {
    DiffLists(lists.added + Names(base, d, Added), lists.changed + Names(base, d, Changed),
              lists.removed + Names(base, d, Removed))
  }

  lemma ExtendedConcat(lists: DiffLists, base: Path, d: seq<Entry>, e: seq<Entry>)
    ensures Extended(lists, base, d + e) == Extended(Extended(lists, base, d), base, e)
  {
    NamesConcat(base, d, e, Added);
    NamesConcat(base, d, e, Changed);
    NamesConcat(base, d, e, Removed);
    Regroup(lists.added, Names(base, d, Added), Names(base, e, Added));
    Regroup(lists.changed, Names(base, d, Changed), Names(base, e, Changed));
    Regroup(lists.removed, Names(base, d, Removed), Names(base, e, Removed));
  }

  lemma Regroup(x: seq<string>, y: seq<string>, z: seq<string>)
    ensures x + (y + z) == x + y + z
  {
  }

  lemma ExtendedUnder(lists: DiffLists, base: Path, key: string, d: seq<Entry>)
    ensures Extended(lists, base, Under(key, d)) == Extended(lists, base + [key], d)
  {
    NamesUnder(base, key, d, Added);
    NamesUnder(base, key, d, Changed);
    NamesUnder(base, key, d, Removed);
  }

  lemma ExtendedByOne(lists: DiffLists, base: Path, kind: Kind, key: string, path: string)
    requires path == Join(Dotted(base), key)
    ensures Extended(lists, base, [Entry(kind, [key])]) ==
            match kind
            case Added => lists.(added := lists.added + [path])
            case Changed => lists.(changed := lists.changed + [path])
            case Removed => lists.(removed := lists.removed + [path])
  {
    NamesOfOne(base, kind, key, Added);
    NamesOfOne(base, kind, key, Changed);
    NamesOfOne(base, kind, key, Removed);
  }

  lemma NamesOfOne(base: Path, kind: Kind, key: string, wanted: Kind)
    ensures Names(base, [Entry(kind, [key])], wanted) == if kind == wanted then [Join(Dotted(base), key)] else []
  {
    assert (base + [key])[..|base|] == base;
    assert Dotted(base + [key]) == Join(Dotted(base), key);
  }

  lemma ExtendedByNone(lists: DiffLists, base: Path)
    ensures Extended(lists, base, []) == lists
  {
  }

  /** Walks both objects and appends every difference found to `d`. */
  method CollectDiff(prefix: string, left: Json, right: Json, d: Diff, ghost base: Path)
    requires left.Object? && right.Object? && prefix == Dotted(base)
    modifies d
    ensures d.Lists() == Extended(old(d.Lists()), base, Walk(left, right))
    decreases left, 1
  {
    var ordered := SortedKeys(left.fields.Keys + right.fields.Keys);
    ghost var start := d.Lists();
    for i := 0 to |ordered|
      invariant Extended(d.Lists(), base, WalkKeys(left, right, ordered[i..]))
                == Extended(start, base, Walk(left, right))
    {
      var key := ordered[i];
      assert key in ordered && ordered[i..][0] == key && ordered[i..][1..] == ordered[i + 1..];
      ExtendedConcat(d.Lists(), base, WalkKey(left, right, key), WalkKeys(left, right, ordered[i + 1..]));
      CollectKey(prefix, left, right, key, d, base);
    }
    ExtendedByNone(d.Lists(), base);
  }

  /** The body of that loop: what one key contributes. */
  method CollectKey(prefix: string, left: Json, right: Json, key: string, d: Diff, ghost base: Path)
    requires left.Object? && right.Object? && prefix == Dotted(base)
    requires key in left.fields || key in right.fields
    modifies d
    ensures d.Lists() == Extended(old(d.Lists()), base, WalkKey(left, right, key))
    decreases left, 0
  {
    ghost var lists := d.Lists();
    var path := if prefix != "" then prefix + "." + key else key;
    if key !in left.fields {
      ExtendedByOne(lists, base, Added, key, path);
      d.added := d.added + [path];
    } else if key !in right.fields {
      ExtendedByOne(lists, base, Removed, key, path);
      d.removed := d.removed + [path];
    } else {
      var lv, rv := left.fields[key], right.fields[key];
      var same := EqualJson(lv, rv);
      if same {
        ExtendedByNone(lists, base);
      } else if lv.Object? && rv.Object? {
        assert (base + [key])[..|base|] == base;
        ExtendedUnder(lists, base, key, Walk(lv, rv));
        CollectDiff(path, lv, rv, d, base + [key]);
      } else {
        ExtendedByOne(lists, base, Changed, key, path);
        d.changed := d.changed + [path];
      }
    }
  }

  /** buildDiff: both sides are decoded before they are compared. */
  method BuildDiff(round: Rounding, before: Doc, after: Doc) returns (lists: DiffLists)
    ensures lists == DiffOf(Unmarshal(round, before), Unmarshal(round, after))
    ensures ShowsDifference(lists, Unmarshal(round, before), Unmarshal(round, after))
  {
    lists := Compare(Unmarshal(round, before), Unmarshal(round, after));
    DiffOfShowsDifference(Unmarshal(round, before), Unmarshal(round, after));
  }

  method Compare(left: Json, right: Json) returns (lists: DiffLists)
    ensures lists == DiffOf(left, right)
  {
    var d := new Diff();
    if left.Object? && right.Object? {
      CollectDiff("", left, right, d, []);
    } else {
      var same := EqualJson(left, right);
      if !same {
        d.changed := ["$"];
      }
    }
    lists := d.Lists();
  }

  // --------------------------------------------------------------------- rows

  /** One row. The two sides are stored as texts, which determine the documents. */
  datatype Snapshot = Snapshot(before: Doc, after: Doc, diff: DiffLists, status: string, finished: bool)

  datatype StoreError = InvalidSnapshot | TooLarge | NotFound | DuplicateId

  /** The statuses that close a snapshot: two, and all that end in "failed". */
  lemma FinishesIffClosing(status: string)
    ensures Finishes(status) <==>
            status == "succeeded" || status == "rolled_back" || exists u :: status == u + "failed"
  {
    if |status| >= 6 && status[|status| - 6..] == "failed" {
      assert status == status[..|status| - 6] + "failed";
    }
    if u :| status == u + "failed" {
      assert status[|status| - 6..] == "failed";
    }
  }

  /** The statuses that close a snapshot. */
  predicate Finishes(status: string) {
    || status == "succeeded" || status == "rolled_back"
    || (|status| >= 6 && status[|status| - 6..] == "failed")
  }

  ghost predicate ShowsItsDiff(round: Rounding, row: Snapshot) {
    row.diff == DiffOf(Unmarshal(round, row.before), Unmarshal(round, row.after))
  }

  method NewRow(round: Rounding, before: Doc, after: Doc, status: string, finished: bool) returns (row: Snapshot)
    ensures row.before == before && row.after == after && row.status == status && row.finished == finished
    ensures ShowsItsDiff(round, row)
  {
    var diff := BuildDiff(round, before, after);
    row := Snapshot(before, after, diff, status, finished);
  }

  class Service {
    const lower: string -> string
    const round: Rounding
    var rows: map<string, Snapshot>

    constructor (lower: string -> string, round: Rounding)
      ensures Valid() && rows == map[] && this.lower == lower && this.round == round
    {
      this.lower, this.round := lower, round;
      rows := map[];
    }

    /** Every stored row shows the difference of what it stores. */
    ghost predicate Valid()
      reads this
    {
      forall id :: id in rows ==> ShowsItsDiff(round, rows[id])
    }

    method Create(newId: string, resourceType: string, resourceId: string, requestedBy: int, before: Go, after: Go)
      returns (r: Result<Snapshot, StoreError>)
      requires Valid()
      modifies this
      ensures Valid()
      ensures r.Success? <==>
                && requestedBy > 0 && T.TrimSpace(resourceType) != "" && T.TrimSpace(resourceId) != ""
                && Normalize(lower, before).Some? && Normalize(lower, after).Some?
                && newId !in old(rows)
      ensures r.Success? ==>
                && rows == old(rows)[newId := r.value]
                && IsStoredOf(lower, r.value.before, before) && IsStoredOf(lower, r.value.after, after)
                && ShowsItsDiff(round, r.value) && r.value.status == "pending" && !r.value.finished
      ensures r.Failure? ==>
                && rows == old(rows)
                && r.error == (if requestedBy <= 0 || T.Blank(resourceType) || T.Blank(resourceId) then InvalidSnapshot
                               else if Normalize(lower, before).None? || Normalize(lower, after).None? then TooLarge
                               else DuplicateId)
    {
      T.TrimmedIsEmptyIffBlank(resourceType);
      T.TrimmedIsEmptyIffBlank(resourceId);
      if requestedBy <= 0 || T.TrimSpace(resourceType) == "" || T.TrimSpace(resourceId) == "" {
        return Failure(InvalidSnapshot);
      }
      var b, a := Normalize(lower, before), Normalize(lower, after);
      if b.None? || a.None? {
        return Failure(TooLarge);
      }
      if newId in rows {
        return Failure(DuplicateId);
      }
      var snapshot := NewRow(round, b.value, a.value, "pending", false);
      rows := rows[newId := snapshot];
      return Success(snapshot);
    }

    method Mark(rawId: string, status: string) returns (r: Result<(), StoreError>)
      requires Valid()
      modifies this
      ensures Valid()
      ensures var id := T.TrimSpace(rawId);
              if id in old(rows) then
                && r.Success?
                && rows == old(rows)[id := old(rows)[id].(status := T.TrimSpace(status),
                                                         finished := old(rows)[id].finished || Finishes(status))]
              else r == Failure(NotFound) && rows == old(rows)
    {
      var id := T.TrimSpace(rawId);
      if id !in rows {
        return Failure(NotFound);
      }
      var row := rows[id];
      rows := rows[id := row.(status := T.TrimSpace(status), finished := row.finished || Finishes(status))];
      return Success(());
    }

    /** Replaces what the row shows as the outcome, and the difference with it. */
    method MarkWithAfter(rawId: string, after: Go, status: string) returns (r: Result<(), StoreError>)
      requires Valid()
      modifies this
      ensures Valid()
      ensures var id := T.TrimSpace(rawId);
              if Normalize(lower, after).None? then r == Failure(TooLarge) && rows == old(rows)
              else if id !in old(rows) then r == Failure(NotFound) && rows == old(rows)
              else
                && r.Success? && id in rows && rows == old(rows)[id := rows[id]]
                && rows[id].before == old(rows)[id].before && IsStoredOf(lower, rows[id].after, after)
                && ShowsItsDiff(round, rows[id])
                && rows[id].status == T.TrimSpace(status)
                && rows[id].finished == (old(rows)[id].finished || Finishes(status))
    {
      var id := T.TrimSpace(rawId);
      var a := Normalize(lower, after);
      if a.None? {
        return Failure(TooLarge);
      }
      if id !in rows {
        return Failure(NotFound);
      }
      var row := rows[id];
      row := NewRow(round, row.before, a.value, T.TrimSpace(status), row.finished || Finishes(status));
      rows := rows[id := row];
      return Success(());
    }
  }
}
