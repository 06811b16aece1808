/** Searching the audit log: the pattern the service builds from a search text,
    and what SQL's LIKE with ESCAPE '\' makes of it. */
module AuditQuery {
  import opened Text

  // SQLite's LIKE ignores the case of ASCII letters.
  function FoldChar(c: char): char {
    if 'A' <= c <= 'Z' then c - 'A' + 'a' else c
  }

  function Fold(s: string): (r: string)
    ensures |r| == |s| && forall i :: 0 <= i < |s| ==> r[i] == FoldChar(s[i])
  {
    seq(|s|, i requires 0 <= i < |s| => FoldChar(s[i]))
  }

  /** LIKE with ESCAPE '\': `%` stands for any stretch, `_` for any one
      character, an escaped character for itself; a dangling escape matches nothing. */
  predicate Like(pattern: string, text: string)
    decreases |pattern|, |text|
  {
    if pattern == "" then text == ""
    else if pattern[0] == '%' then
      Like(pattern[1..], text) || (text != "" && Like(pattern, text[1..]))
    else if pattern[0] == '\\' then
      |pattern| > 1 && text != "" && FoldChar(pattern[1]) == FoldChar(text[0]) && Like(pattern[2..], text[1..])
    else
      && text != "" && (pattern[0] == '_' || FoldChar(pattern[0]) == FoldChar(text[0]))
      && Like(pattern[1..], text[1..])
  }

  /** Two characters are the same to LIKE iff they are equal or the two cases of one
      ASCII letter. */
  lemma FoldIsAsciiCase(c: char, d: char)
    ensures FoldChar(c) == FoldChar(d) <==>
            || c == d
            || ('A' <= c <= 'Z' && d as int == c as int + 32)
            || ('A' <= d <= 'Z' && c as int == d as int + 32)
  {
  }

  /** What a pattern matches, by its first character: `%` any stretch of text, `_`
      any one character, `\` the character after it, any other itself; and the rest of
      the pattern the rest of the text. */
  lemma {:induction false} LikeReadsPattern(pattern: string, text: string)
    ensures Like("", text) <==> text == ""
    ensures Like("%" + pattern, text) <==> exists i :: 0 <= i <= |text| && Like(pattern, text[i..])
    ensures Like("_" + pattern, text) <==> text != "" && Like(pattern, text[1..])
    ensures forall c :: Like("\\" + [c] + pattern, text) <==>
                        text != "" && FoldChar(c) == FoldChar(text[0]) && Like(pattern, text[1..])
    ensures forall c :: c !in {'%', '_', '\\'} ==>
              (Like([c] + pattern, text) <==>
               text != "" && FoldChar(c) == FoldChar(text[0]) && Like(pattern, text[1..]))
    ensures !Like("\\", text)
    decreases |text|
  {
    PercentSkips(pattern, text);
    assert ("_" + pattern)[1..] == pattern;
    forall c: char
      ensures Like("\\" + [c] + pattern, text) <==>
              text != "" && FoldChar(c) == FoldChar(text[0]) && Like(pattern, text[1..])
    {
      assert ("\\" + [c] + pattern)[2..] == pattern;
    }
    forall c | c !in {'%', '_', '\\'}
      ensures Like([c] + pattern, text) <==>
              text != "" && FoldChar(c) == FoldChar(text[0]) && Like(pattern, text[1..])
    {
      assert ([c] + pattern)[1..] == pattern;
    }
  }

  lemma {:induction false} PercentSkips(pattern: string, text: string)
    ensures Like("%" + pattern, text) <==> exists i :: 0 <= i <= |text| && Like(pattern, text[i..])
    decreases |text|
  {
    assert ("%" + pattern)[1..] == pattern && text[0..] == text;
    if text != "" {
      PercentSkips(pattern, text[1..]);
      assert forall i :: 0 <= i < |text| ==> text[1..][i..] == text[i + 1..];
      if i :| 0 < i <= |text| && Like(pattern, text[i..]) {
        assert text[1..][i - 1..] == text[i..];
      }
    }
  }

  predicate IsSpecial(c: char) {
    c == '\\' || c == '%' || c == '_'
  }

  /** The one-pass replacement of `\`, `%` and `_` by their escaped forms. */
  function Escape(value: string): string {
    if value == "" then ""
    else (if IsSpecial(value[0]) then ['\\', value[0]] else [value[0]]) + Escape(value[1..])
  }

  function ContainsPattern(value: string): string {
    "%" + Escape(TrimSpace(value)) + "%"
  }

  lemma {:induction false} PercentMatchesAll(text: string)
    ensures Like("%", text)
  {
    if text != "" {
      PercentMatchesAll(text[1..]);
    }
  }

  /** An escaped value followed by `%` matches exactly the texts that begin with
      the value. */
  lemma {:induction false} EscapedPrefix(value: string, text: string)
    ensures Like(Escape(value) + "%", text) <==> |value| <= |text| && Fold(text[..|value|]) == Fold(value)
    decreases |value|
  {
    var pattern := Escape(value) + "%";
    if value == "" {
      PercentMatchesAll(text);
      assert pattern == "%";
    } else {
      var rest := Escape(value[1..]) + "%";
      var head := if IsSpecial(value[0]) then ['\\', value[0]] else [value[0]];
      assert pattern == head + rest;
      assert pattern[|head|..] == rest;
      if text != "" {
        EscapedPrefix(value[1..], text[1..]);
        FoldedPrefixStep(value, text);
      }
    }
  }

  lemma FoldedPrefixStep(value: string, text: string)
    requires value != "" && text != ""
    ensures |value| <= |text| ==>
              (Fold(text[..|value|]) == Fold(value) <==>
               && FoldChar(text[0]) == FoldChar(value[0])
               && Fold(text[1..][..|value| - 1]) == Fold(value[1..]))
  {
    if |value| <= |text| {
      var a, b := text[..|value|], value;
      assert text[1..][..|value| - 1] == a[1..];
      FoldHeadTail(a);
      FoldHeadTail(b);
    }
  }

  lemma FoldHeadTail(s: string)
    requires s != ""
    ensures Fold(s) == [FoldChar(s[0])] + Fold(s[1..])
  {
  }

  /** The value occurs in the text at position `i`, up to ASCII case. */
  predicate OccursFolded(value: string, text: string, i: nat) {
    i + |value| <= |text| && Fold(text[i..i + |value|]) == Fold(value)
  }

  ghost predicate OccursSomewhere(value: string, text: string) {
    exists i: nat :: i <= |text| && OccursFolded(value, text, i)
  }

  lemma OccursShifted(value: string, text: string, i: nat)
    requires text != ""
    ensures OccursFolded(value, text[1..], i) <==> OccursFolded(value, text, i + 1)
  {
    if i + 1 + |value| <= |text| {
      assert text[1..][i..i + |value|] == text[i + 1..i + 1 + |value|];
    }
  }

  lemma OccursHereOrLater(value: string, text: string)
    ensures OccursSomewhere(value, text) <==>
            OccursFolded(value, text, 0) || (text != "" && OccursSomewhere(value, text[1..]))
  {
    if text != "" {
      if i: nat :| i <= |text| - 1 && OccursFolded(value, text[1..], i) {
        OccursShifted(value, text, i);
      }
      if i: nat :| 0 < i <= |text| && OccursFolded(value, text, i) {
        OccursShifted(value, text, i - 1);
      }
    }
  }

  /** `%` before an escaped value: the value may start anywhere. */
  lemma {:induction false} EscapedAnywhere(value: string, text: string)
    ensures Like("%" + Escape(value) + "%", text) <==> OccursSomewhere(value, text)
    decreases |text|
  {
    var pattern := "%" + Escape(value) + "%";
    assert pattern[1..] == Escape(value) + "%";
    EscapedPrefix(value, text);
    assert |value| <= |text| ==> text[0..0 + |value|] == text[..|value|];
    OccursHereOrLater(value, text);
    if text != "" {
      EscapedAnywhere(value, text[1..]);
    }
  }

  /** EXACT SEARCH. A text matches the pattern built for a search value iff the
      trimmed value occurs in it literally, up to ASCII case, whatever mix of
      wildcards and escapes the value holds. */
  lemma SearchIsLiteral(value: string, text: string)
    ensures Like(ContainsPattern(value), text) <==> OccursSomewhere(TrimSpace(value), text)
  {
    EscapedAnywhere(TrimSpace(value), text);
  }

  /** Two search values with the same pattern are the same search. */
  lemma {:induction false} EscapeIsInjective(a: string, b: string)
    requires Escape(a) == Escape(b)
    ensures a == b
  {
    if a != "" && b != "" {
      var ha := if IsSpecial(a[0]) then ['\\', a[0]] else [a[0]];
      var hb := if IsSpecial(b[0]) then ['\\', b[0]] else [b[0]];
      assert Escape(a)[0] == ha[0] && Escape(b)[0] == hb[0];
      if IsSpecial(a[0]) {
        assert Escape(a)[1] == a[0] && Escape(b)[1] == b[0];
      }
      assert Escape(a[1..]) == Escape(a)[|ha|..] && Escape(b[1..]) == Escape(b)[|hb|..];
      EscapeIsInjective(a[1..], b[1..]);
    }
  }
}
