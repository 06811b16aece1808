/** What json.Marshal writes: documents whose object members have an order, their
    text, and how texts, documents and decoded values determine each other. */
module JsonText {
  import opened Json
  import opened Options

  /** A value without parts. */
  type Scalar = v: Json | !v.Array? && !v.Object? witness Null

  datatype Member = Member(key: string, value: Doc)

  /** A document as it is written: the members of an object in order. */
  datatype Doc =
    | Leaf(value: Scalar)
    | List(items: seq<Doc>)
    | Record(members: seq<Member>)

  // -------------------------------------------------------------------- text

  function HexDigit(n: nat): char
    requires n < 16
  {
    "0123456789abcdef"[n]
  }

  function Hex2(n: nat): string
    requires n < 0x100
  {
    [HexDigit(n / 16), HexDigit(n % 16)]
  }

  function Hex4(n: nat): string
    requires n < 0x10000
  {
    Hex2(n / 0x100) + Hex2(n % 0x100)
  }

  /** The letter after the backslash for characters with a short escape. */
  function ShortEscape(c: char): (r: char)
    ensures r != 'u'
  {
    if c == '"' then '"' else if c == '\\' then '\\' else if c == '\n' then 'n'
    else if c == '\r' then 'r' else if c == '\t' then 't' else if c == '\U{8}' then 'b'
    else if c == '\U{C}' then 'f' else ' '
  }

  predicate NeedsHex(c: char) {
    c < ' ' || c == '<' || c == '>' || c == '&' || c == '\U{2028}' || c == '\U{2029}'
  }

  function EscapeChar(c: char): string {
    if ShortEscape(c) != ' ' then ['\\', ShortEscape(c)]
    else if NeedsHex(c) then "\\u" + Hex4(c as int)
    else [c]
  }

  /** The characters of a string literal, with its closing quote. */
  function Quoted(s: string): string {
    if s == "" then "\"" else EscapeChar(s[0]) + Quoted(s[1..])
  }

  function PrintScalar(v: Scalar): string {
    match v
    case Null => "null"
    case Bool(b) => if b then "true" else "false"
    case Number(token) => token
    case Text(text) => "\"" + Quoted(text)
  }

  /** json.Marshal: no spaces, members in the order in which they stand. */
  function Print(d: Doc): string
    decreases d, 1, 0
  {
    match d
    case Leaf(v) => PrintScalar(v)
    case List(_) => "[" + PrintItems(d, 0)
    case Record(_) => "{" + PrintMembers(d, 0)
  }

  /** The items from position `i` on, and the closing bracket. */
  function PrintItems(d: Doc, i: nat): string
    requires d.List? && i <= |d.items|
    decreases d, 0, |d.items| - i
  {
    if i == |d.items| then "]"
    else (if i == 0 then "" else ",") + Print(d.items[i]) + PrintItems(d, i + 1)
  }

  /** The members from position `i` on, and the closing brace. */
  function PrintMembers(d: Doc, i: nat): string
    requires d.Record? && i <= |d.members|
    decreases d, 0, |d.members| - i
  {
    if i == |d.members| then "}"
    else
      (if i == 0 then "\"" else ",\"") + Quoted(d.members[i].key) + ":" + Print(d.members[i].value) +
      PrintMembers(d, i + 1)
  }

  // --------------------------------------------------- the text is JSON (RFC 8259)

  /** The parts with a comma between any two. */
  function Joined(parts: seq<string>): string {
    if parts == [] then "" else if |parts| == 1 then parts[0] else parts[0] + "," + Joined(parts[1..])
  }

  function ItemTexts(items: seq<Doc>): seq<string> {
    seq(|items|, i requires 0 <= i < |items| => Print(items[i]))
  }

  function MemberText(m: Member): string {
    "\"" + Quoted(m.key) + ":" + Print(m.value)
  }

  function MemberTexts(members: seq<Member>): seq<string> {
    seq(|members|, i requires 0 <= i < |members| => MemberText(members[i]))
  }

  lemma {:induction false} ItemsAreJoined(d: Doc, i: nat)
    requires d.List? && i <= |d.items|
    ensures PrintItems(d, i) == (if 0 < i < |d.items| then "," else "") + Joined(ItemTexts(d.items)[i..]) + "]"
    decreases |d.items| - i
  {
    if i < |d.items| {
      ItemsAreJoined(d, i + 1);
      ItemStep(d, i);
      var texts := ItemTexts(d.items);
      assert |texts| == |d.items|;
      assert PrintItems(d, i + 1) == (if i + 1 < |texts| then "," else "") + Joined(texts[i + 1..]) + "]";
      JoinedStep(if i == 0 then "" else ",", texts, i, "]");
    }
  }

  lemma ItemStep(d: Doc, i: nat)
    requires d.List? && i < |d.items|
    ensures PrintItems(d, i) == (if i == 0 then "" else ",") + ItemTexts(d.items)[i] + PrintItems(d, i + 1)
  {
  }

  lemma {:induction false} MembersAreJoined(d: Doc, i: nat)
    requires d.Record? && i <= |d.members|
    ensures PrintMembers(d, i) == (if 0 < i < |d.members| then "," else "") + Joined(MemberTexts(d.members)[i..]) + "}"
    decreases |d.members| - i
  {
    if i < |d.members| {
      MembersAreJoined(d, i + 1);
      MemberStep(if i == 0 then "" else ",", d.members[i], PrintMembers(d, i + 1));
      JoinedStep(if i == 0 then "" else ",", MemberTexts(d.members), i, "}");
    }
  }

  lemma MemberStep(comma: string, m: Member, rest: string)
    requires comma == "" || comma == ","
    ensures (if comma == "" then "\"" else ",\"") + Quoted(m.key) + ":" + Print(m.value) + rest
            == comma + MemberText(m) + rest
  {
    Regroup5(comma, Quoted(m.key), Print(m.value), rest);
  }

  lemma Regroup5(comma: string, key: string, value: string, rest: string)
    requires comma == "" || comma == ","
    ensures (if comma == "" then "\"" else ",\"") + key + ":" + value + rest
            == comma + ("\"" + key + ":" + value) + rest
  {
    var open := if comma == "" then "\"" else ",\"";
    assert open == comma + "\"";
    assert open + key + ":" + value == comma + ("\"" + key + ":" + value);
  }

  lemma JoinedStep(comma: string, texts: seq<string>, i: nat, end: string)
    requires i < |texts|
    ensures comma + texts[i] + ((if i + 1 < |texts| then "," else "") + Joined(texts[i + 1..]) + end)
            == comma + Joined(texts[i..]) + end
  {
    assert texts[i..][0] == texts[i] && texts[i..][1..] == texts[i + 1..];
    if i + 1 < |texts| {
      var u, v := texts[i], Joined(texts[i + 1..]);
      assert comma + u + ("," + v + end) == comma + (u + "," + v) + end;
    }
  }

  /** How a document is written: literals, digits and quoted texts, and the parts of
      lists and records between their brackets with commas in between. */
  lemma PrintIsJson(d: Doc)
    ensures match d
            case Leaf(Null) => Print(d) == "null"
            case Leaf(Bool(b)) => Print(d) == if b then "true" else "false"
            case Leaf(Number(token)) => Print(d) == token
            case Leaf(Text(text)) => Print(d) == "\"" + Quoted(text)
            case List(items) => Print(d) == "[" + Joined(ItemTexts(items)) + "]"
            case Record(members) => Print(d) == "{" + Joined(MemberTexts(members)) + "}"
  {
    match d
    case Leaf(_) =>
    case List(items) =>
      ItemsAreJoined(d, 0);
      WholeJoined(ItemTexts(items), "]");
    case Record(members) =>
      MembersAreJoined(d, 0);
      WholeJoined(MemberTexts(members), "}");
  }

  lemma WholeJoined(texts: seq<string>, end: string)
    ensures "" + Joined(texts[0..]) + end == Joined(texts) + end
  {
    assert texts[0..] == texts && "" + Joined(texts) == Joined(texts);
  }

  function HexValue(c: char): Option<nat> {
    if '0' <= c <= '9' then Some((c - '0') as nat)
    else if 'a' <= c <= 'f' then Some((c - 'a') as nat + 10)
    else if 'A' <= c <= 'F' then Some((c - 'A') as nat + 10)
    else None
  }

  /** The character an escape stands for, without its backslash, and its length. */
  function ReadEscape(s: string): Option<(char, nat)> {
    if s == "" then None
    else
      match s[0]
      case '"' => Some(('"', 1))
      case '\\' => Some(('\\', 1))
      case '/' => Some(('/', 1))
      case 'b' => Some(('\U{8}', 1))
      case 'f' => Some(('\U{C}', 1))
      case 'n' => Some(('\n', 1))
      case 'r' => Some(('\r', 1))
      case 't' => Some(('\t', 1))
      case 'u' =>
        if |s| < 5 then None
        else
          (match (HexValue(s[1]), HexValue(s[2]), HexValue(s[3]), HexValue(s[4]))
           case (Some(a), Some(b), Some(c), Some(d)) =>
             var n := ((a * 16 + b) * 16 + c) * 16 + d;
             if n < 0xD800 || 0xE000 <= n < 0x1_0000 then Some((n as char, 5)) else None
           case _ => None)
      case _ => None
  }

  /** Reading a string literal after its opening quote: the text and what follows. */
  function ReadText(s: string): Option<(string, string)>
    decreases |s|
  {
    if s == "" then None
    else if s[0] == '"' then Some(("", s[1..]))
    else if s[0] < ' ' then None
    else if s[0] == '\\' then
      match ReadEscape(s[1..])
      case None => None
      case Some((c, n)) =>
        if 1 + n > |s| then None
        else match ReadText(s[1 + n..])
          case None => None
          case Some((text, rest)) => Some(([c] + text, rest))
    else match ReadText(s[1..])
      case None => None
      case Some((text, rest)) => Some(([s[0]] + text, rest))
  }

  lemma HexReadsBack(n: nat)
    requires n < 16
    ensures HexValue(HexDigit(n)) == Some(n)
  {
  }

  lemma EscapeReadsBack(c: char, rest: string)
    requires EscapeChar(c) != [c]
    ensures EscapeChar(c)[0] == '\\'
    ensures ReadEscape(EscapeChar(c)[1..] + rest) == Some((c, |EscapeChar(c)| - 1))
  {
    if ShortEscape(c) == ' ' {
      var n := c as int;
      var s := EscapeChar(c)[1..] + rest;
      assert s[0] == 'u' && s[1] == HexDigit(n / 0x100 / 16) && s[2] == HexDigit(n / 0x100 % 16);
      assert s[3] == HexDigit(n % 0x100 / 16) && s[4] == HexDigit(n % 0x100 % 16);
      HexReadsBack(n / 0x100 / 16);
      HexReadsBack(n / 0x100 % 16);
      HexReadsBack(n % 0x100 / 16);
      HexReadsBack(n % 0x100 % 16);
    }
  }

  lemma ReadStep(c: char, tail: string, text: string, rest: string)
    requires ReadText(tail) == Some((text, rest))
    ensures ReadText(EscapeChar(c) + tail) == Some(([c] + text, rest))
  {
    var e := EscapeChar(c);
    var s := e + tail;
    assert s[|e|..] == tail;
    if e != [c] {
      EscapeReadsBack(c, tail);
      assert s[1..] == e[1..] + tail;
    }
  }

  /** A written text is read back, whatever follows it. */
  lemma {:induction false} TextReadsBack(text: string, rest: string)
    ensures ReadText(Quoted(text) + rest) == Some((text, rest))
    decreases |text|
  {
    if text == "" {
      assert (Quoted(text) + rest)[1..] == rest;
    } else {
      TextReadsBack(text[1..], rest);
      ReadStep(text[0], Quoted(text[1..]) + rest, text[1..], rest);
      assert Quoted(text) + rest == EscapeChar(text[0]) + (Quoted(text[1..]) + rest);
      assert text == [text[0]] + text[1..];
    }
  }

  predicate Tame(c: char) {
    c >= ' ' && c !in {'<', '>', '&', '\U{2028}', '\U{2029}'}
  }

  lemma HexIsTame(n: nat)
    requires n < 16
    ensures Tame(HexDigit(n))
  {
  }

  lemma EscapeIsTame(c: char)
    ensures forall e :: e in EscapeChar(c) ==> Tame(e)
  {
    if ShortEscape(c) == ' ' && NeedsHex(c) {
      var n := c as int;
      HexIsTame(n / 0x100 / 16);
      HexIsTame(n / 0x100 % 16);
      HexIsTame(n % 0x100 / 16);
      HexIsTame(n % 0x100 % 16);
    }
  }

  /** No written text holds a bare control character, angle bracket or ampersand. */
  lemma {:induction false} TextIsTame(text: string)
    ensures forall c :: c in Quoted(text) ==> Tame(c)
    decreases |text|
  {
    if text != "" {
      TextIsTame(text[1..]);
      EscapeIsTame(text[0]);
    }
  }

  // ------------------------------------------- the text determines the document

  /** What can follow a complete value in a text. */
  predicate Ends(rest: string) {
    rest == "" || rest[0] == ',' || rest[0] == ']' || rest[0] == '}'
  }

  lemma CancelPrefix(p: string, u: string, v: string)
    requires p + u == p + v
    ensures u == v
  {
    assert u == (p + u)[|p|..] && v == (p + v)[|p|..];
  }

  lemma HexDigitIsInjective(m: nat, n: nat)
    requires m < 16 && n < 16 && HexDigit(m) == HexDigit(n)
    ensures m == n
  {
  }

  lemma Hex2IsInjective(m: nat, n: nat)
    requires m < 0x100 && n < 0x100 && Hex2(m) == Hex2(n)
    ensures m == n
  {
    assert Hex2(m)[0] == Hex2(n)[0] && Hex2(m)[1] == Hex2(n)[1];
    HexDigitIsInjective(m / 16, n / 16);
    HexDigitIsInjective(m % 16, n % 16);
  }

  lemma Hex4IsInjective(m: nat, n: nat)
    requires m < 0x10000 && n < 0x10000 && Hex4(m) == Hex4(n)
    ensures m == n
  {
    assert Hex2(m / 0x100) == Hex4(m)[..2] == Hex4(n)[..2] == Hex2(n / 0x100);
    assert Hex2(m % 0x100) == Hex4(m)[2..] == Hex4(n)[2..] == Hex2(n % 0x100);
    Hex2IsInjective(m / 0x100, n / 0x100);
    Hex2IsInjective(m % 0x100, n % 0x100);
  }

  /** The escapes form a prefix code that never starts with a bare quote. */
  lemma EscapeIsPrefixCode(c: char, d: char, x: string, y: string)
    requires EscapeChar(c) + x == EscapeChar(d) + y
    ensures c == d && x == y
  {
    var s := EscapeChar(c) + x;
    assert s[0] == EscapeChar(c)[0] == EscapeChar(d)[0];
    if EscapeChar(c)[0] == '\\' {
      assert s[1] == EscapeChar(c)[1] == EscapeChar(d)[1];
      if s[1] == 'u' {
        assert EscapeChar(c) == s[..6] && EscapeChar(d) == s[..6];
        assert Hex4(c as int) == s[..6][2..] && Hex4(d as int) == s[..6][2..];
        Hex4IsInjective(c as int, d as int);
      }
    }
    assert x == s[|EscapeChar(c)|..] && y == s[|EscapeChar(d)|..];
  }

  lemma {:induction false} QuotedIsPrefixCode(s: string, t: string, x: string, y: string)
    requires Quoted(s) + x == Quoted(t) + y
    ensures s == t && x == y
    decreases |s|
  {
    var all := Quoted(s) + x;
    if s == "" || t == "" {
      assert all[0] == Quoted(s)[0] == Quoted(t)[0];
      assert s == "" && t == "";
      assert x == all[1..] && y == all[1..];
    } else {
      assert all == EscapeChar(s[0]) + (Quoted(s[1..]) + x);
      assert all == EscapeChar(t[0]) + (Quoted(t[1..]) + y);
      EscapeIsPrefixCode(s[0], t[0], Quoted(s[1..]) + x, Quoted(t[1..]) + y);
      QuotedIsPrefixCode(s[1..], t[1..], x, y);
    }
  }

  /** Length of the longest stretch of number characters a text begins with. */
  function NumberSpan(s: string): nat {
    if s == "" || !IsNumberChar(s[0]) then 0 else 1 + NumberSpan(s[1..])
  }

  lemma {:induction false} SpanOfNumber(token: string, rest: string)
    requires (forall c :: c in token ==> IsNumberChar(c)) && Ends(rest)
    ensures NumberSpan(token + rest) == |token|
  {
    if token == "" {
      assert token + rest == rest;
    } else {
      assert token[0] in token && (token + rest)[1..] == token[1..] + rest;
      SpanOfNumber(token[1..], rest);
    }
  }

  lemma NumberIsPrefixCode(s: string, t: string, x: string, y: string)
    requires (forall c :: c in s ==> IsNumberChar(c)) && (forall c :: c in t ==> IsNumberChar(c))
    requires s + x == t + y && Ends(x) && Ends(y)
    ensures s == t && x == y
  {
    SpanOfNumber(s, x);
    SpanOfNumber(t, y);
    assert s == (s + x)[..|s|] && t == (t + y)[..|s|];
    CancelPrefix(s, x, y);
  }

  /** The first character tells the kinds of documents apart. */
  lemma FirstChar(d: Doc)
    ensures Print(d) != ""
    ensures var c := Print(d)[0];
            match d
            case Leaf(Null) => c == 'n'
            case Leaf(Bool(b)) => c == (if b then 't' else 'f')
            case Leaf(Number(_)) => IsNumberChar(c)
            case Leaf(Text(_)) => c == '"'
            case List(_) => c == '['
            case Record(_) => c == '{'
  {
  }

  predicate SameKind(a: Doc, b: Doc) {
    match (a, b)
    case (List(_), List(_)) => true
    case (Record(_), Record(_)) => true
    case (Leaf(v), Leaf(w)) => v == w || (v.Number? && w.Number?) || (v.Text? && w.Text?)
    case _ => false
  }

  lemma SameTextSameKind(a: Doc, b: Doc, x: string, y: string)
    requires Print(a) + x == Print(b) + y
    ensures SameKind(a, b)
  {
    FirstChar(a);
    FirstChar(b);
    assert (Print(a) + x)[0] == Print(a)[0] && (Print(b) + y)[0] == Print(b)[0];
  }

  lemma OpeningCancels(open: string, u: string, v: string, x: string, y: string)
    requires open + u + x == open + v + y
    ensures u + x == v + y
  {
    assert open + (u + x) == open + u + x && open + (v + y) == open + v + y;
    CancelPrefix(open, u + x, v + y);
  }

  /** Two documents with the same text, each followed by a terminator, are the
      same document followed by the same rest. */
  lemma {:induction false} PrintIsPrefixCode(a: Doc, b: Doc, x: string, y: string)
    requires Print(a) + x == Print(b) + y && Ends(x) && Ends(y)
    ensures a == b && x == y
    decreases a, 1, 0
  {
    SameTextSameKind(a, b, x, y);
    match a
    case Leaf(v) => ScalarIsPrefixCode(v, b.value, x, y);
    case List(_) =>
      OpeningCancels("[", PrintItems(a, 0), PrintItems(b, 0), x, y);
      ItemsArePrefixCode(a, b, 0, x, y);
      assert a.items == a.items[0..] && b.items == b.items[0..];
    case Record(_) =>
      OpeningCancels("{", PrintMembers(a, 0), PrintMembers(b, 0), x, y);
      MembersArePrefixCode(a, b, 0, x, y);
      assert a.members == a.members[0..] && b.members == b.members[0..];
  }

  lemma ScalarIsPrefixCode(v: Scalar, w: Scalar, x: string, y: string)
    requires PrintScalar(v) + x == PrintScalar(w) + y && Ends(x) && Ends(y)
    requires SameKind(Leaf(v), Leaf(w))
    ensures v == w && x == y
  {
    if v.Number? && w.Number? {
      NumberIsPrefixCode(v.token, w.token, x, y);
    } else if v.Text? && w.Text? {
      OpeningCancels("\"", Quoted(v.text), Quoted(w.text), x, y);
      QuotedIsPrefixCode(v.text, w.text, x, y);
    } else {
      CancelPrefix(PrintScalar(v), x, y);
    }
  }

  lemma {:induction false} ItemsArePrefixCode(a: Doc, b: Doc, i: nat, x: string, y: string)
    requires a.List? && b.List? && i <= |a.items| && i <= |b.items|
    requires PrintItems(a, i) + x == PrintItems(b, i) + y
    ensures a.items[i..] == b.items[i..] && x == y
    decreases a, 0, |a.items| - i
  {
    SameItemsEnd(a, b, i, x, y);
    if i == |a.items| {
      CancelPrefix("]", x, y);
    } else {
      var p := if i == 0 then "" else ",";
      var xa, yb := PrintItems(a, i + 1) + x, PrintItems(b, i + 1) + y;
      var va, vb := Print(a.items[i]), Print(b.items[i]);
      ItemsSplit(a, i, x);
      ItemsSplit(b, i, y);
      CancelPrefix(p, va + xa, vb + yb);
      PrintIsPrefixCode(a.items[i], b.items[i], xa, yb);
      ItemsArePrefixCode(a, b, i + 1, x, y);
      assert a.items[i..] == [a.items[i]] + a.items[i + 1..] && b.items[i..] == [b.items[i]] + b.items[i + 1..];
    }
  }

  lemma ItemsSplit(d: Doc, i: nat, rest: string)
    requires d.List? && i < |d.items|
    ensures PrintItems(d, i) + rest
            == (if i == 0 then "" else ",") + (Print(d.items[i]) + (PrintItems(d, i + 1) + rest))
  {
    Regroup(if i == 0 then "" else ",", Print(d.items[i]), PrintItems(d, i + 1), rest);
  }

  lemma Regroup(u: string, v: string, w: string, rest: string)
    ensures u + v + w + rest == u + (v + (w + rest))
  {
  }

  /** Item lists with the same text run out of items at the same place. */
  lemma SameItemsEnd(a: Doc, b: Doc, i: nat, x: string, y: string)
    requires a.List? && b.List? && i <= |a.items| && i <= |b.items|
    requires PrintItems(a, i) + x == PrintItems(b, i) + y
    ensures i == |a.items| <==> i == |b.items|
    ensures i < |a.items| ==> Ends(PrintItems(a, i + 1) + x)
    ensures i < |b.items| ==> Ends(PrintItems(b, i + 1) + y)
  {
    if i < |a.items| {
      FirstChar(a.items[i]);
    }
    if i < |b.items| {
      FirstChar(b.items[i]);
    }
    assert (PrintItems(a, i) + x)[0] == PrintItems(a, i)[0];
    assert (PrintItems(b, i) + y)[0] == PrintItems(b, i)[0];
  }

  lemma {:induction false} MembersArePrefixCode(a: Doc, b: Doc, i: nat, x: string, y: string)
    requires a.Record? && b.Record? && i <= |a.members| && i <= |b.members|
    requires PrintMembers(a, i) + x == PrintMembers(b, i) + y
    ensures a.members[i..] == b.members[i..] && x == y
    decreases a, 0, |a.members| - i
  {
    SameMembersEnd(a, b, i, x, y);
    if i == |a.members| {
      CancelPrefix("}", x, y);
    } else {
      var p := if i == 0 then "\"" else ",\"";
      var m, n := a.members[i], b.members[i];
      var xa, yb := PrintMembers(a, i + 1) + x, PrintMembers(b, i + 1) + y;
      var va, vb := Print(m.value), Print(n.value);
      MembersSplit(a, i, x);
      MembersSplit(b, i, y);
      CancelPrefix(p, Quoted(m.key) + (":" + (va + xa)), Quoted(n.key) + (":" + (vb + yb)));
      QuotedIsPrefixCode(m.key, n.key, ":" + (va + xa), ":" + (vb + yb));
      CancelPrefix(":", va + xa, vb + yb);
      PrintIsPrefixCode(m.value, n.value, xa, yb);
      MembersArePrefixCode(a, b, i + 1, x, y);
      assert a.members[i..] == [m] + a.members[i + 1..] && b.members[i..] == [n] + b.members[i + 1..];
    }
  }

  lemma MembersSplit(d: Doc, i: nat, rest: string)
    requires d.Record? && i < |d.members|
    ensures PrintMembers(d, i) + rest
            == (if i == 0 then "\"" else ",\"") +
               (Quoted(d.members[i].key) + (":" + (Print(d.members[i].value) + (PrintMembers(d, i + 1) + rest))))
  {
  }

  lemma SameMembersEnd(a: Doc, b: Doc, i: nat, x: string, y: string)
    requires a.Record? && b.Record? && i <= |a.members| && i <= |b.members|
    requires PrintMembers(a, i) + x == PrintMembers(b, i) + y
    ensures i == |a.members| <==> i == |b.members|
    ensures i < |a.members| ==> Ends(PrintMembers(a, i + 1) + x)
    ensures i < |b.members| ==> Ends(PrintMembers(b, i + 1) + y)
  {
    assert (PrintMembers(a, i) + x)[0] == PrintMembers(a, i)[0];
    assert (PrintMembers(b, i) + y)[0] == PrintMembers(b, i)[0];
  }

  /** Comparing texts is comparing documents. */
  lemma PrintIsInjective(a: Doc, b: Doc)
    ensures Print(a) == Print(b) <==> a == b
  {
    if Print(a) == Print(b) {
      PrintIsPrefixCode(a, b, "", "");
    }
  }

  // ------------------------------------------------ documents and decoded values

  function KeysOf(members: seq<Member>): seq<string> {
    seq(|members|, i requires 0 <= i < |members| => members[i].key)
  }

  /** Where the key stands last; of members with one key, decoding keeps the last. */
  function LastAt(keys: seq<string>, key: string): (i: nat)
    requires key in keys
    ensures i < |keys| && keys[i] == key
    ensures forall j :: i < j < |keys| ==> keys[j] != key
  {
    if keys[|keys| - 1] == key then |keys| - 1 else LastAt(keys[..|keys| - 1], key)
  }

  /** The value a document denotes, with its numbers as they are written; the order
      of members is lost. */
  function Decode(d: Doc): Json
    decreases d
  {
    match d
    case Leaf(v) => v
    case List(items) => Array(seq(|items|, i requires 0 <= i < |items| => Decode(items[i])))
    case Record(members) =>
      var keys := KeysOf(members);
      Object(map key | key in keys :: Decode(members[LastAt(keys, key)].value))
  }

  /** A map as json.Marshal writes it: the members by ascending key. */
  function SortedRecord(parts: map<string, Doc>): Doc {
    var keys := SortedKeys(parts.Keys);
    Record(seq(|keys|, i requires 0 <= i < |keys| => assert keys[i] in keys; Member(keys[i], parts[keys[i]])))
  }

  /** The document json.Marshal writes for a decoded value. */
  function Canonical(v: Json): Doc
    decreases v
  {
    match v
    case Array(items) => List(seq(|items|, i requires 0 <= i < |items| => Canonical(items[i])))
    case Object(fields) => SortedRecord(map key | key in fields :: Canonical(fields[key]))
    case _ => Leaf(v)
  }

  function Encode(v: Json): string {
    Print(Canonical(v))
  }

  /** The member decoding takes for a key, when the keys are in order. */
  lemma DecodedMember(members: seq<Member>, i: nat)
    requires Increasing(KeysOf(members)) && i < |members|
    ensures members[i].key in Decode(Record(members)).fields
    ensures Decode(Record(members)).fields[members[i].key] == Decode(members[i].value)
  {
    var keys := KeysOf(members);
    assert keys[i] in keys;
    LessIsStrictTotal(keys[i], keys[i]);
    assert LastAt(keys, keys[i]) == i;
  }

  lemma DecodedKeys(members: seq<Member>)
    requires Increasing(KeysOf(members))
    ensures SortedKeys(Decode(Record(members)).fields.Keys) == KeysOf(members)
    ensures forall key :: key in Decode(Record(members)).fields <==> key in KeysOf(members)
  {
    var keys, fields := KeysOf(members), Decode(Record(members)).fields;
    assert forall key :: key in fields.Keys <==> key in keys;
    OneIncreasing(SortedKeys(fields.Keys), keys);
  }

  lemma SortedRecordKeys(parts: map<string, Doc>)
    ensures KeysOf(SortedRecord(parts).members) == SortedKeys(parts.Keys)
    ensures forall i :: 0 <= i < |SortedRecord(parts).members| ==>
              var m := SortedRecord(parts).members[i];
              m.key in parts && m.value == parts[m.key]
  {
    assert forall i :: 0 <= i < |SortedKeys(parts.Keys)| ==> SortedKeys(parts.Keys)[i] in SortedKeys(parts.Keys);
  }

  predicate DecodesTo(d: Doc, v: Json) {
    Decode(d) == v
  }

  lemma DecodedPart(parts: map<string, Doc>, key: string)
    requires key in parts
    ensures key in Decode(SortedRecord(parts)).fields
    ensures DecodesTo(parts[key], Decode(SortedRecord(parts)).fields[key])
  {
    var members := SortedRecord(parts).members;
    SortedRecordKeys(parts);
    assert key in KeysOf(members);
    var i :| 0 <= i < |members| && members[i].key == key;
    DecodedMember(members, i);
  }

  lemma DecodedPartKeys(parts: map<string, Doc>)
    ensures Decode(SortedRecord(parts)).fields.Keys == parts.Keys
  {
    SortedRecordKeys(parts);
    DecodedKeys(SortedRecord(parts).members);
  }

  /** A printed map decodes to the map of what its parts decode to. */
  lemma DecodeSortedRecord(parts: map<string, Doc>, fields: map<string, Json>)
    requires parts.Keys == fields.Keys
    requires forall key :: key in parts ==> DecodesTo(parts[key], fields[key])
    ensures DecodesTo(SortedRecord(parts), Object(fields))
  {
    var decoded := Decode(SortedRecord(parts)).fields;
    DecodedPartKeys(parts);
    forall key | key in parts ensures decoded[key] == fields[key] {
      DecodedPart(parts, key);
      assert DecodesTo(parts[key], fields[key]);
    }
    SameFields(decoded, fields);
  }

  lemma SameFields(a: map<string, Json>, b: map<string, Json>)
    requires a.Keys == b.Keys && forall key :: key in a.Keys ==> a[key] == b[key]
    ensures a == b
  {
  }

  /** Writing a value and decoding it gives the value back. */
  lemma {:induction false} DecodeCanonical(v: Json)
    ensures Decode(Canonical(v)) == v
    decreases v
  {
    match v
    case Array(items) =>
      forall i | 0 <= i < |items| ensures Decode(Canonical(items[i])) == items[i] {
        DecodeCanonical(items[i]);
      }
      assert Decode(Canonical(v)).items == items;
    case Object(fields) =>
      var parts := map key | key in fields :: Canonical(fields[key]);
      forall key | key in fields ensures DecodesTo(parts[key], fields[key]) {
        DecodeCanonical(fields[key]);
      }
      DecodeSortedRecord(parts, fields);
    case _ =>
  }

  predicate IsTextOf(text: string, v: Json) {
    text == Encode(v)
  }

  predicate IsMemberOf(text: string, key: string, fields: map<string, Json>) {
    key in fields && text == "\"" + Quoted(key) + ":" + Encode(fields[key])
  }

  /** An array is written item by item. */
  lemma ArrayIsJson(items: seq<Json>) returns (texts: seq<string>)
    ensures |texts| == |items| && forall i :: 0 <= i < |items| ==> IsTextOf(texts[i], items[i])
    ensures Encode(Array(items)) == "[" + Joined(texts) + "]"
  {
    var docs := Canonical(Array(items)).items;
    texts := ItemTexts(docs);
    PrintIsJson(List(docs));
    forall i | 0 <= i < |items| ensures IsTextOf(texts[i], items[i]) {
      assert docs[i] == Canonical(items[i]);
    }
  }

  /** An object is written member by member, in ascending order of the keys. */
  lemma ObjectIsJson(fields: map<string, Json>) returns (keys: seq<string>, texts: seq<string>)
    ensures Increasing(keys) && (forall key :: key in keys <==> key in fields) && |texts| == |keys|
    ensures forall i :: 0 <= i < |keys| ==> IsMemberOf(texts[i], keys[i], fields)
    ensures Encode(Object(fields)) == "{" + Joined(texts) + "}"
  {
    var parts := map key | key in fields :: Canonical(fields[key]);
    assert Canonical(Object(fields)) == SortedRecord(parts);
    keys, texts := PartsAreJson(fields, parts);
  }

  lemma PartsAreJson(fields: map<string, Json>, parts: map<string, Doc>) returns (keys: seq<string>, texts: seq<string>)
    requires parts.Keys == fields.Keys && forall key :: key in fields ==> parts[key] == Canonical(fields[key])
    ensures Increasing(keys) && (forall key :: key in keys <==> key in fields) && |texts| == |keys|
    ensures forall i :: 0 <= i < |keys| ==> IsMemberOf(texts[i], keys[i], fields)
    ensures Print(SortedRecord(parts)) == "{" + Joined(texts) + "}"
  {
    var members := SortedRecord(parts).members;
    keys, texts := SortedKeys(parts.Keys), MemberTexts(members);
    PrintIsJson(SortedRecord(parts));
    SortedRecordKeys(parts);
    assert |texts| == |members| == |KeysOf(members)| == |keys|;
    forall i | 0 <= i < |keys| ensures IsMemberOf(texts[i], keys[i], fields) {
      assert members[i].key == KeysOf(members)[i] == keys[i];
      assert texts[i] == MemberText(members[i]);
    }
  }

  /** Comparing the texts of decoded values is comparing the values. */
  lemma SameTextSameValue(a: Json, b: Json)
    ensures Encode(a) == Encode(b) <==> a == b
  {
    PrintIsInjective(Canonical(a), Canonical(b));
    DecodeCanonical(a);
    DecodeCanonical(b);
  }

  // ------------------------------------------------------------ member order

  ghost predicate Increasing(keys: seq<string>) {
    forall i, j :: 0 <= i < j < |keys| ==> Less(keys[i], keys[j])
  }

  /** Every object of the document lists its members by ascending key. */
  ghost predicate Ascending(d: Doc)
    decreases d
  {
    match d
    case Leaf(_) => true
    case List(items) => forall i :: 0 <= i < |items| ==> Ascending(items[i])
    case Record(members) =>
      && Increasing(KeysOf(members))
      && forall i :: 0 <= i < |members| ==> Ascending(members[i].value)
  }

  lemma {:induction false} CanonicalIsAscending(v: Json)
    ensures Ascending(Canonical(v))
    decreases v
  {
    match v
    case Array(items) =>
      forall i | 0 <= i < |items| ensures Ascending(Canonical(items[i])) {
        CanonicalIsAscending(items[i]);
      }
    case Object(fields) =>
      var keys := SortedKeys(fields.Keys);
      assert (map key | key in fields :: Canonical(fields[key])).Keys == fields.Keys;
      assert KeysOf(Canonical(v).members) == keys;
      forall i | 0 <= i < |keys| ensures Ascending(Canonical(v).members[i].value) {
        assert keys[i] in keys;
        CanonicalIsAscending(fields[keys[i]]);
      }
    case _ =>
  }

  /** A set has one increasing enumeration. */
  lemma {:induction false} OneIncreasing(a: seq<string>, b: seq<string>)
    requires Increasing(a) && Increasing(b) && forall k :: k in a <==> k in b
    ensures a == b
  {
    NoneIn(a, b);
    NoneIn(b, a);
    if a != [] {
      SameFirst(a, b);
      forall k ensures k in a[1..] <==> k in b[1..] {
        NotLater(a, k);
        NotLater(b, k);
      }
      OneIncreasing(a[1..], b[1..]);
      assert a == [a[0]] + a[1..] && b == [b[0]] + b[1..];
    }
  }

  lemma NoneIn(a: seq<string>, b: seq<string>)
    requires forall k :: k in b ==> k in a
    ensures a == [] ==> b == []
  {
    assert b == [] || b[0] in b;
  }

  lemma SameFirst(a: seq<string>, b: seq<string>)
    requires a != [] && b != [] && Increasing(a) && Increasing(b) && forall k :: k in a <==> k in b
    ensures a[0] == b[0]
  {
    assert a[0] in a && b[0] in b;
    var i :| 0 <= i < |b| && b[i] == a[0];
    var j :| 0 <= j < |a| && a[j] == b[0];
    LessIsStrictTotal(a[0], b[0]);
  }

  lemma NotLater(a: seq<string>, k: string)
    requires a != [] && Increasing(a)
    ensures k in a[1..] <==> k in a && k != a[0]
  {
    LessIsStrictTotal(a[0], a[0]);
    assert a == [a[0]] + a[1..];
    if k in a[1..] {
      var i :| 0 <= i < |a[1..]| && a[1..][i] == k;
      assert Less(a[0], a[i + 1]);
    }
  }

  /** The document is the one json.Marshal writes for the value it denotes. */
  predicate IsCanonical(d: Doc) {
    Canonical(Decode(d)) == d
  }

  lemma AscendingList(items: seq<Doc>)
    requires forall i :: 0 <= i < |items| ==> IsCanonical(items[i])
    ensures IsCanonical(List(items))
  {
    assert Canonical(Decode(List(items))).items == items;
  }

  lemma AscendingRecord(members: seq<Member>)
    requires Increasing(KeysOf(members))
    requires forall i :: 0 <= i < |members| ==> IsCanonical(members[i].value)
    ensures IsCanonical(Record(members))
  {
    var fields := Decode(Record(members)).fields;
    var parts := map key | key in fields :: Canonical(fields[key]);
    AscendingParts(members, parts);
    assert Canonical(Object(fields)) == SortedRecord(parts);
  }

  lemma AscendingParts(members: seq<Member>, parts: map<string, Doc>)
    requires Increasing(KeysOf(members))
    requires forall i :: 0 <= i < |members| ==> IsCanonical(members[i].value)
    requires var fields := Decode(Record(members)).fields;
             parts == map key | key in fields :: Canonical(fields[key])
    ensures SortedRecord(parts) == Record(members)
  {
    assert parts.Keys == Decode(Record(members)).fields.Keys;
    DecodedKeys(members);
    forall i | 0 <= i < |members|
      ensures members[i].key in parts && parts[members[i].key] == members[i].value
    {
      DecodedMember(members, i);
      assert IsCanonical(members[i].value);
    }
    SortedParts(parts, members);
  }

  lemma SortedParts(parts: map<string, Doc>, members: seq<Member>)
    requires SortedKeys(parts.Keys) == KeysOf(members)
    requires forall i :: 0 <= i < |members| ==>
               members[i].key in parts && parts[members[i].key] == members[i].value
    ensures SortedRecord(parts) == Record(members)
  {
    assert |SortedKeys(parts.Keys)| == |members|;
    assert SortedRecord(parts).members == members;
  }

  /** Exactly the documents whose objects list their members by ascending key. */
  lemma {:induction false} CanonicalIffAscending(d: Doc)
    ensures IsCanonical(d) <==> Ascending(d)
    decreases d
  {
    if IsCanonical(d) {
      CanonicalIsAscending(Decode(d));
    }
    if Ascending(d) {
      match d
      case Leaf(_) =>
      case List(items) =>
        forall i | 0 <= i < |items| ensures IsCanonical(items[i]) {
          CanonicalIffAscending(items[i]);
        }
        AscendingList(items);
      case Record(members) =>
        forall i | 0 <= i < |members| ensures IsCanonical(members[i].value) {
          CanonicalIffAscending(members[i].value);
        }
        AscendingRecord(members);
    }
  }

  /** No object of the document has two members with one key. */
  ghost predicate Distinct(d: Doc)
    decreases d
  {
    match d
    case Leaf(_) => true
    case List(items) => forall i :: 0 <= i < |items| ==> Distinct(items[i])
    case Record(members) =>
      && (forall i, j :: 0 <= i < j < |members| ==> members[i].key != members[j].key)
      && forall i :: 0 <= i < |members| ==> Distinct(members[i].value)
  }

  /** The objects of both documents list the same keys in the same order. */
  ghost predicate SameOrder(a: Doc, b: Doc)
    decreases a
  {
    match a
    case Leaf(_) => true
    case List(items) =>
      b.List? && |items| == |b.items| ==> forall i :: 0 <= i < |items| ==> SameOrder(items[i], b.items[i])
    case Record(members) =>
      b.Record? ==>
        && KeysOf(members) == KeysOf(b.members)
        && forall i :: 0 <= i < |members| && i < |b.members| ==> SameOrder(members[i].value, b.members[i].value)
  }

  /** Documents that denote one value are the same iff they list their members in
      the same order. */
  lemma {:induction false} SameValueSameOrder(a: Doc, b: Doc)
    requires Distinct(a) && Distinct(b) && Decode(a) == Decode(b)
    ensures a == b <==> SameOrder(a, b)
    decreases a
  {
    match a
    case Leaf(_) =>
    case List(items) =>
      assert |items| == |Decode(a).items| == |Decode(b).items| == |b.items|;
      forall i | 0 <= i < |items| ensures items[i] == b.items[i] <==> SameOrder(items[i], b.items[i]) {
        assert Decode(a).items[i] == Decode(b).items[i];
        SameValueSameOrder(items[i], b.items[i]);
      }
    case Record(members) =>
      if KeysOf(members) == KeysOf(b.members) {
        SameKeysSameOrder(a, b);
        assert |members| == |KeysOf(members)| == |KeysOf(b.members)| == |b.members|;
        forall i | 0 <= i < |members|
          ensures members[i].value == b.members[i].value <==> SameOrder(members[i].value, b.members[i].value)
        {
          SameValueSameOrder(members[i].value, b.members[i].value);
        }
        if SameOrder(a, b) {
          assert forall i :: 0 <= i < |members| ==> members[i].key == KeysOf(members)[i] == b.members[i].key;
          assert members == b.members;
        }
      }
  }

  lemma SameKeysSameOrder(a: Doc, b: Doc)
    requires a.Record? && b.Record? && KeysOf(a.members) == KeysOf(b.members)
    requires Distinct(a) && Distinct(b) && Decode(a) == Decode(b)
    ensures |a.members| == |b.members|
    ensures forall i :: 0 <= i < |a.members| ==> Decode(a.members[i].value) == Decode(b.members[i].value)
  {
    var keys := KeysOf(a.members);
    assert |a.members| == |keys| == |b.members|;
    forall i | 0 <= i < |a.members| ensures Decode(a.members[i].value) == Decode(b.members[i].value) {
      assert keys[i] in keys;
      assert LastAt(keys, keys[i]) == i;
      assert Decode(a).fields[keys[i]] == Decode(b).fields[keys[i]];
    }
  }
}
