/** String helpers shared by the models. */
module Text {

  /** Unicode white space, as trimmed by the source's TrimSpace. */
  predicate IsSpace(c: char) {
    || '\U{9}' <= c <= '\U{D}' || c == ' ' || c == '\U{85}' || c == '\U{A0}' || c == '\U{1680}'
    || '\U{2000}' <= c <= '\U{200A}' || c == '\U{2028}' || c == '\U{2029}' || c == '\U{202F}'
    || c == '\U{205F}' || c == '\U{3000}'
  }

  function TrimSpace(s: string): (r: string)
    ensures |r| <= |s|
    ensures r != [] ==> !IsSpace(r[0]) && !IsSpace(r[|r| - 1])
  {
    if s == [] then []
    else if IsSpace(s[0]) then TrimSpace(s[1..])
    else if IsSpace(s[|s| - 1]) then TrimSpace(s[..|s| - 1])
    else s
  }

  /** The 25 characters with Unicode's White_Space property. */
  lemma WhiteSpaceIs(c: char)
    ensures IsSpace(c) <==>
            c in {'\t', '\n', '\U{B}', '\U{C}', '\r', ' ', '\U{85}', '\U{A0}', '\U{1680}', '\U{2000}', '\U{2001}',
                  '\U{2002}', '\U{2003}', '\U{2004}', '\U{2005}', '\U{2006}', '\U{2007}', '\U{2008}', '\U{2009}',
                  '\U{200A}', '\U{2028}', '\U{2029}', '\U{202F}', '\U{205F}', '\U{3000}'}
  {
  }

  ghost predicate Blank(s: string) {
    forall i :: 0 <= i < |s| ==> IsSpace(s[i])
  }

  /** Not empty, and without white space at either end. */
  predicate Bare(s: string) {
    s != "" && !IsSpace(s[0]) && !IsSpace(s[|s| - 1])
  }

  /** Trimming takes the white space off both ends and nothing else. */
  lemma {:induction false} TrimSpaceKeepsCore(pre: string, core: string, post: string)
    requires Blank(pre) && Blank(post) && Bare(core)
    ensures TrimSpace(pre + core + post) == core
    decreases |pre| + |post|
  {
    var s := pre + core + post;
    if pre != "" {
      assert s[0] == pre[0] && s[1..] == pre[1..] + core + post;
      TrimSpaceKeepsCore(pre[1..], core, post);
    } else if post != "" {
      var init := post[..|post| - 1];
      assert s[0] == core[0] && s[|s| - 1] == post[|post| - 1] && s[..|s| - 1] == pre + core + init;
      TrimSpaceKeepsCore(pre, core, init);
    } else {
      assert s == core;
    }
  }

  lemma {:induction false} TrimSpaceOfBlank(s: string)
    requires Blank(s)
    ensures TrimSpace(s) == ""
  {
    if s != "" {
      TrimSpaceOfBlank(s[1..]);
    }
  }

  /** Every text that is not blank is its trimmed core between two blanks. */
  lemma {:induction false} CoreBetweenBlanks(s: string) returns (pre: string, post: string)
    requires !Blank(s)
    ensures Blank(pre) && Blank(post) && Bare(TrimSpace(s)) && s == pre + TrimSpace(s) + post
  {
    NotBlankKeepsSome(s);
    var core := TrimSpace(s);
    if IsSpace(s[0]) {
      TrimmedIsEmptyIffBlank(s[1..]);
      var inner;
      inner, post := CoreBetweenBlanks(s[1..]);
      pre := [s[0]] + inner;
      Prepend(s, inner, core, post);
    } else if IsSpace(s[|s| - 1]) {
      var n := |s| - 1;
      TrimmedIsEmptyIffBlank(s[..n]);
      var inner;
      pre, inner := CoreBetweenBlanks(s[..n]);
      post := inner + [s[n]];
      Append(s, pre, core, inner);
    } else {
      pre, post := "", "";
    }
  }

  lemma Prepend(s: string, pre: string, core: string, post: string)
    requires s != "" && s[1..] == pre + core + post
    ensures s == [s[0]] + pre + core + post
  {
    assert s == [s[0]] + s[1..];
  }

  lemma Append(s: string, pre: string, core: string, post: string)
    requires s != "" && s[..|s| - 1] == pre + core + post
    ensures s == pre + core + (post + [s[|s| - 1]])
  {
    assert s == s[..|s| - 1] + [s[|s| - 1]];
  }

  /** Nothing is left of a text iff it is blank. */
  lemma TrimmedIsEmptyIffBlank(s: string)
    ensures TrimSpace(s) == "" <==> Blank(s)
  {
    if Blank(s) {
      TrimSpaceOfBlank(s);
    } else {
      NotBlankKeepsSome(s);
    }
  }

  lemma {:induction false} NotBlankKeepsSome(s: string)
    requires !Blank(s)
    ensures TrimSpace(s) != ""
  {
    var i :| 0 <= i < |s| && !IsSpace(s[i]);
    if IsSpace(s[0]) {
      assert s[1..][i - 1] == s[i];
      NotBlankKeepsSome(s[1..]);
    } else if IsSpace(s[|s| - 1]) {
      assert s[..|s| - 1][i] == s[i];
      NotBlankKeepsSome(s[..|s| - 1]);
    }
  }

  predicate OccursAt<T(==)>(part: seq<T>, s: seq<T>, i: nat) {
    i + |part| <= |s| && s[i..i + |part|] == part
  }

  predicate Contains<T(==)>(s: seq<T>, part: seq<T>) {
    exists i: nat :: i <= |s| && OccursAt(part, s, i)
  }
}
