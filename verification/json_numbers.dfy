/** What decoding does to numbers: json.Unmarshal into `any` makes a float64 of each,
    so two number tokens can become one. */
module JsonNumbers {
  import opened Json
  import opened JsonText

  ghost predicate Settles(round: NumberToken -> NumberToken) {
    forall t :: round(round(t)) == round(t)
  }

  /** The token written again for the float64 nearest to a token; rounding twice is
      rounding once. */
  type Rounding = r: NumberToken -> NumberToken | Settles(r) ghost witness (t: NumberToken) => t

  /** The document with every number rounded. */
  function Float(round: Rounding, d: Doc): Doc
    decreases d
  {
    match d
    case Leaf(v) => if v.Number? then Leaf(Number(round(v.token))) else d
    case List(items) => List(seq(|items|, i requires 0 <= i < |items| => Float(round, items[i])))
    case Record(members) =>
      Record(seq(|members|, i requires 0 <= i < |members| => Member(members[i].key, Float(round, members[i].value))))
  }

  /** json.Unmarshal into `any`. */
  function Unmarshal(round: Rounding, d: Doc): Json {
    Decode(Float(round, d))
  }

  /** No number of the document changes when it is decoded. */
  ghost predicate Settled(round: Rounding, d: Doc)
    decreases d
  {
    match d
    case Leaf(v) => v.Number? ==> round(v.token) == v.token
    case List(items) => forall i :: 0 <= i < |items| ==> Settled(round, items[i])
    case Record(members) => forall i :: 0 <= i < |members| ==> Settled(round, members[i].value)
  }

  /** The value holds only numbers that decoding can produce. */
  ghost predicate Rounded(round: Rounding, v: Json)
    decreases v
  {
    match v
    case Number(token) => round(token) == token
    case Array(items) => forall i :: 0 <= i < |items| ==> Rounded(round, items[i])
    case Object(fields) => forall key :: key in fields ==> Rounded(round, fields[key])
    case _ => true
  }

  /** At matching places both documents have the same numbers. */
  ghost predicate SameNumbers(a: Doc, b: Doc)
    decreases a
  {
    match a
    case Leaf(v) => v.Number? && b.Leaf? && b.value.Number? ==> v == b.value
    case List(items) =>
      b.List? && |items| == |b.items| ==> forall i :: 0 <= i < |items| ==> SameNumbers(items[i], b.items[i])
    case Record(members) =>
      b.Record? && |members| == |b.members| ==>
        forall i :: 0 <= i < |members| ==> SameNumbers(members[i].value, b.members[i].value)
  }

  lemma {:induction false} FloatIsSettled(round: Rounding, d: Doc)
    ensures Settled(round, Float(round, d))
    ensures Settled(round, d) <==> Float(round, d) == d
    decreases d
  {
    match d
    case Leaf(_) =>
    case List(items) =>
      forall i | 0 <= i < |items|
        ensures Settled(round, Float(round, items[i]))
        ensures Settled(round, items[i]) <==> Float(round, items[i]) == items[i]
      {
        FloatIsSettled(round, items[i]);
      }
      SettledItems(round, items);
    case Record(members) =>
      forall i | 0 <= i < |members|
        ensures Settled(round, Float(round, members[i].value))
        ensures Settled(round, members[i].value) <==> Float(round, members[i].value) == members[i].value
      {
        FloatIsSettled(round, members[i].value);
      }
      SettledMembers(round, members);
  }

  lemma SettledItems(round: Rounding, items: seq<Doc>)
    requires forall i :: 0 <= i < |items| ==> (Settled(round, items[i]) <==> Float(round, items[i]) == items[i])
    ensures Settled(round, List(items)) <==> Float(round, List(items)) == List(items)
  {
    var floated := Float(round, List(items)).items;
    assert floated == items <==> forall i :: 0 <= i < |items| ==> floated[i] == items[i];
  }

  lemma SettledMembers(round: Rounding, members: seq<Member>)
    requires forall i :: 0 <= i < |members| ==>
               (Settled(round, members[i].value) <==> Float(round, members[i].value) == members[i].value)
    ensures Settled(round, Record(members)) <==> Float(round, Record(members)) == Record(members)
  {
    var floated := Float(round, Record(members)).members;
    assert floated == members <==> forall i :: 0 <= i < |members| ==> floated[i] == members[i];
    assert forall i :: 0 <= i < |members| ==>
             (floated[i] == members[i] <==> Float(round, members[i].value) == members[i].value);
  }

  /** What is decoded holds only such numbers. */
  lemma {:induction false} SettledDecodes(round: Rounding, d: Doc)
    requires Settled(round, d)
    ensures Rounded(round, Decode(d))
    decreases d
  {
    match d
    case Leaf(_) =>
    case List(items) =>
      forall i | 0 <= i < |items| ensures Rounded(round, Decode(items[i])) {
        SettledDecodes(round, items[i]);
      }
    case Record(members) =>
      var fields := Decode(d).fields;
      forall key | key in fields ensures Rounded(round, fields[key]) {
        SettledDecodes(round, members[LastAt(KeysOf(members), key)].value);
      }
  }

  lemma UnmarshalIsRounded(round: Rounding, d: Doc)
    ensures Rounded(round, Unmarshal(round, d))
  {
    FloatIsSettled(round, d);
    SettledDecodes(round, Float(round, d));
  }

  lemma {:induction false} CanonicalIsSettled(round: Rounding, v: Json)
    requires Rounded(round, v)
    ensures Settled(round, Canonical(v))
    decreases v
  {
    match v
    case Array(items) =>
      forall i | 0 <= i < |items| ensures Settled(round, Canonical(items[i])) {
        CanonicalIsSettled(round, items[i]);
      }
    case Object(fields) =>
      var parts := map key | key in fields :: Canonical(fields[key]);
      forall key | key in parts ensures Settled(round, parts[key]) {
        CanonicalIsSettled(round, fields[key]);
      }
      SortedRecordKeys(parts);
    case _ =>
  }

  /** Decoded values are read back as they are. */
  lemma UnmarshalCanonical(round: Rounding, v: Json)
    requires Rounded(round, v)
    ensures Unmarshal(round, Canonical(v)) == v
  {
    CanonicalIsSettled(round, v);
    FloatIsSettled(round, Canonical(v));
    DecodeCanonical(v);
  }

  lemma FloatKeepsKeys(round: Rounding, members: seq<Member>)
    ensures KeysOf(Float(round, Record(members)).members) == KeysOf(members)
  {
  }

  lemma {:induction false} FloatKeepsDistinct(round: Rounding, d: Doc)
    requires Distinct(d)
    ensures Distinct(Float(round, d))
    decreases d
  {
    match d
    case Leaf(_) =>
    case List(items) =>
      forall i | 0 <= i < |items| ensures Distinct(Float(round, items[i])) {
        FloatKeepsDistinct(round, items[i]);
      }
    case Record(members) =>
      forall i | 0 <= i < |members| ensures Distinct(Float(round, members[i].value)) {
        FloatKeepsDistinct(round, members[i].value);
      }
  }

  lemma {:induction false} FloatKeepsOrder(round: Rounding, a: Doc, b: Doc)
    ensures SameOrder(Float(round, a), Float(round, b)) <==> SameOrder(a, b)
    decreases a
  {
    match a
    case Leaf(_) =>
    case List(items) =>
      if b.List? && |items| == |b.items| {
        var fa, fb := Float(round, a).items, Float(round, b).items;
        forall i | 0 <= i < |items| ensures SameOrder(fa[i], fb[i]) <==> SameOrder(items[i], b.items[i]) {
          FloatKeepsOrder(round, items[i], b.items[i]);
        }
      }
    case Record(members) =>
      if b.Record? {
        FloatKeepsKeys(round, members);
        FloatKeepsKeys(round, b.members);
        var fa, fb := Float(round, a).members, Float(round, b).members;
        forall i | 0 <= i < |members| && i < |b.members|
          ensures SameOrder(fa[i].value, fb[i].value) <==> SameOrder(members[i].value, b.members[i].value)
        {
          FloatKeepsOrder(round, members[i].value, b.members[i].value);
        }
      }
  }

  /** Documents that round to one document are the same iff they have the same
      numbers. */
  lemma {:induction false} SameDocIffSameNumbers(round: Rounding, a: Doc, b: Doc)
    requires Float(round, a) == Float(round, b)
    ensures a == b <==> SameNumbers(a, b)
    decreases a
  {
    match a
    case Leaf(_) =>
    case List(items) =>
      var fa, fb := Float(round, a).items, Float(round, b).items;
      assert |items| == |fa| == |fb| == |b.items|;
      forall i | 0 <= i < |items| ensures items[i] == b.items[i] <==> SameNumbers(items[i], b.items[i]) {
        assert fa[i] == fb[i];
        SameDocIffSameNumbers(round, items[i], b.items[i]);
      }
    case Record(members) =>
      var fa, fb := Float(round, a).members, Float(round, b).members;
      assert |members| == |fa| == |fb| == |b.members|;
      forall i | 0 <= i < |members|
        ensures members[i].key == b.members[i].key
        ensures members[i].value == b.members[i].value <==> SameNumbers(members[i].value, b.members[i].value)
      {
        assert fa[i] == fb[i];
        SameDocIffSameNumbers(round, members[i].value, b.members[i].value);
      }
  }

  /** Documents that are decoded alike are the same iff they list their members in
      the same order and have the same numbers. */
  lemma SameDocIffSameOrder(round: Rounding, a: Doc, b: Doc)
    requires Distinct(a) && Distinct(b) && Unmarshal(round, a) == Unmarshal(round, b)
    ensures a == b <==> SameOrder(a, b) && SameNumbers(a, b)
  {
    FloatKeepsDistinct(round, a);
    FloatKeepsDistinct(round, b);
    FloatKeepsOrder(round, a, b);
    SameValueSameOrder(Float(round, a), Float(round, b));
    if Float(round, a) == Float(round, b) {
      SameDocIffSameNumbers(round, a, b);
    }
  }

  /** Decoding a document and printing the result gives it back iff its objects list
      their members by ascending key and no number changes. */
  lemma RoundTripsIffAscending(round: Rounding, d: Doc)
    ensures Canonical(Unmarshal(round, d)) == d <==> Ascending(d) && Settled(round, d)
  {
    FloatIsSettled(round, d);
    CanonicalIffAscending(d);
    if Canonical(Unmarshal(round, d)) == d {
      UnmarshalIsRounded(round, d);
      CanonicalIsSettled(round, Unmarshal(round, d));
      assert IsCanonical(d);
    }
    if Ascending(d) && Settled(round, d) {
      assert IsCanonical(d);
    }
  }
}
