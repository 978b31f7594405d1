// The parts of Rust's `str` that the modelled code relies on, over `seq<char>`.
// Positions count characters; every delimiter the code searches for is ASCII,
// so character positions and byte positions pick out the same pieces of text.
module Text {
  import opened Wrappers

  // Unicode White_Space, the class `char::is_whitespace` tests.
  predicate IsWhitespace(c: char) {
    || '\U{9}' <= c <= '\U{D}'
    || c == ' ' || c == '\U{85}' || c == '\U{A0}' || c == '\U{1680}'
    || '\U{2000}' <= c <= '\U{200A}'
    || c == '\U{2028}' || c == '\U{2029}' || c == '\U{202F}' || c == '\U{205F}' || c == '\U{3000}'
  }

  // The twenty-five of them.
  lemma {:induction false} WhitespaceCharacters(c: char)
    ensures IsWhitespace(c) <==>
            c in {'\U{9}', '\U{A}', '\U{B}', '\U{C}', '\U{D}', '\U{20}', '\U{85}', '\U{A0}', '\U{1680}', '\U{2000}',
                  '\U{2001}', '\U{2002}', '\U{2003}', '\U{2004}', '\U{2005}', '\U{2006}', '\U{2007}', '\U{2008}',
                  '\U{2009}', '\U{200A}', '\U{2028}', '\U{2029}', '\U{202F}', '\U{205F}', '\U{3000}'}
  {
  }

  predicate AllWhitespace(s: string) {
    forall i :: 0 <= i < |s| ==> IsWhitespace(s[i])
  }

  // No leading and no trailing whitespace: `s == s.trim()`.
  predicate IsTrimmed(s: string) {
    s == "" || (!IsWhitespace(s[0]) && !IsWhitespace(s[|s| - 1]))
  }

  function TrimStart(s: string): (r: string)
    ensures |r| <= |s| && r == s[|s| - |r|..] && AllWhitespace(s[..|s| - |r|])
    ensures r != "" ==> !IsWhitespace(r[0])
  {
    if s != "" && IsWhitespace(s[0]) then
      var r := TrimStart(s[1..]);
      assert [s[0]] + s[1..][..|s| - 1 - |r|] == s[..|s| - |r|];
      assert s[1..][|s| - 1 - |r|..] == s[|s| - |r|..];
      r
    else
      assert s[0..] == s && s[..0] == "";
      s
  }

  function TrimEnd(s: string): (r: string)
    ensures |r| <= |s| && r == s[..|r|] && AllWhitespace(s[|r|..])
    ensures r != "" ==> !IsWhitespace(r[|r| - 1])
  {
    if s != "" && IsWhitespace(s[|s| - 1]) then
      var r := TrimEnd(s[..|s| - 1]);
      assert s[..|s| - 1][|r|..] + [s[|s| - 1]] == s[|r|..];
      assert s[..|s| - 1][..|r|] == s[..|r|];
      r
    else
      assert s[|s|..] == "" && s[..|s|] == s;
      s
  }

  function Trim(s: string): (r: string)
    ensures IsTrimmed(r)
  {
    TrimEnd(TrimStart(s))
  }

  lemma {:induction false} TrimStartSkips(pad: string, s: string)
    requires AllWhitespace(pad) && (s == "" || !IsWhitespace(s[0]))
    ensures TrimStart(pad + s) == s
  {
    if pad == "" {
      assert pad + s == s;
    } else {
      assert (pad + s)[1..] == pad[1..] + s;
      TrimStartSkips(pad[1..], s);
    }
  }

  lemma {:induction false} TrimEndSkips(s: string, pad: string)
    requires AllWhitespace(pad) && (s == "" || !IsWhitespace(s[|s| - 1]))
    ensures TrimEnd(s + pad) == s
  {
    if pad == "" {
      assert s + pad == s;
    } else {
      var shorter := pad[..|pad| - 1];
      assert (s + pad)[..|s + pad| - 1] == s + shorter;
      TrimEndSkips(s, shorter);
    }
  }

  // Whitespace around a trimmed text is exactly what trimming takes away.
  lemma {:induction false} TrimPadded(pre: string, s: string, post: string)
    requires AllWhitespace(pre) && AllWhitespace(post) && IsTrimmed(s)
    ensures Trim(pre + s + post) == s
  {
    if s == "" {
      assert pre + s + post == (pre + post) + "";
      TrimStartSkips(pre + post, "");
    } else {
      assert pre + s + post == pre + (s + post);
      TrimStartSkips(pre, s + post);
      TrimEndSkips(s, post);
    }
  }

  lemma {:induction false} TrimOfTrimmed(s: string)
    requires IsTrimmed(s)
    ensures Trim(s) == s
  {
    TrimPadded("", s, "");
    assert "" + s + "" == s;
  }

  lemma {:induction false} BlankTrimsAway(s: string)
    requires Trim(s) == ""
    ensures AllWhitespace(s)
  {
    var r := TrimStart(s);
    assert TrimEnd(r) == "" && r[0..] == r;
    assert s == s[..|s| - |r|] + r;
  }

  predicate EndsWith(s: string, suffix: string) {
    |suffix| <= |s| && s[|s| - |suffix|..] == suffix
  }

  lemma {:induction false} SlicesOfSuffix(s: string, from: nat, n: nat)
    requires from + n <= |s|
    ensures s[from..][..n] == s[from..from + n] && s[from..][n..] == s[from + n..]
  {
  }

  // Position of the first `c`, as `str::find(char)`.
  function IndexOf(s: string, c: char): (r: Option<nat>)
    ensures r.Some? ==> r.value < |s| && s[r.value] == c && forall j :: 0 <= j < r.value ==> s[j] != c
    ensures r.None? ==> forall j :: 0 <= j < |s| ==> s[j] != c
  {
    if s == "" then None
    else if s[0] == c then Some(0)
    else
      assert forall j :: 0 < j < |s| ==> s[j] == s[1..][j - 1];
      match IndexOf(s[1..], c)
      case None => None
      case Some(i) => Some(i + 1)
  }

  predicate OccursAt(s: string, pattern: string, i: nat) {
    i + |pattern| <= |s| && s[i..i + |pattern|] == pattern
  }

  // No occurrence of `pattern` starts in front of `n`.
  predicate NoneBefore(s: string, pattern: string, n: nat) {
    forall j: nat :: j < n ==> !OccursAt(s, pattern, j)
  }

  // Position of the first occurrence of `pattern`, as `str::find(&str)`.
  function Find(s: string, pattern: string): (r: Option<nat>)
    ensures r.Some? ==> r.value + |pattern| <= |s|
  {
    if pattern <= s then Some(0)
    else if s == "" then None
    else
      match Find(s[1..], pattern)
      case None => None
      case Some(i) => Some(i + 1)
  }

  lemma {:induction false} OccursAtDrop(s: string, pattern: string, k: nat, i: nat)
    requires k <= |s|
    ensures OccursAt(s[k..], pattern, i) <==> OccursAt(s, pattern, k + i)
  {
    if k + i + |pattern| <= |s| { assert s[k..][i..i + |pattern|] == s[k + i..k + i + |pattern|]; }
  }

  lemma {:induction false} OccursAtStart(s: string, pattern: string)
    ensures OccursAt(s, pattern, 0) <==> pattern <= s
  {
    if |pattern| <= |s| { assert s[0..|pattern|] == s[..|pattern|]; }
  }

  // What is found is an occurrence, and the first one.
  lemma {:induction false} FindFinds(s: string, pattern: string)
    ensures Find(s, pattern).Some? ==>
            OccursAt(s, pattern, Find(s, pattern).value) && NoneBefore(s, pattern, Find(s, pattern).value)
    ensures Find(s, pattern).None? ==> NoneBefore(s, pattern, |s| + 1)
  {
    hide OccursAt;
    OccursAtStart(s, pattern);
    if !(pattern <= s) && s != "" {
      FindFinds(s[1..], pattern);
      forall j: nat | 0 < j ensures OccursAt(s, pattern, j) <==> OccursAt(s[1..], pattern, j - 1) {
        OccursAtDrop(s, pattern, 1, j - 1);
      }
    }
  }

  lemma {:induction false} FindIs(s: string, pattern: string, i: nat)
    requires OccursAt(s, pattern, i) && NoneBefore(s, pattern, i)
    ensures Find(s, pattern) == Some(i)
  {
    FindFinds(s, pattern);
    hide Find;
    assert i < |s| + 1;
  }

  lemma {:induction false} FindIsNone(s: string, pattern: string)
    requires NoneBefore(s, pattern, |s| + 1)
    ensures Find(s, pattern) == None
  {
    FindFinds(s, pattern);
    hide Find, OccursAt;
  }

  predicate Contains(s: string, pattern: string) {
    Find(s, pattern).Some?
  }

  lemma {:induction false} ContainsWherever(s: string, pattern: string)
    ensures Contains(s, pattern) <==> exists a, b :: s == a + pattern + b
  {
    FindFinds(s, pattern);
    if Contains(s, pattern) {
      var i := Find(s, pattern).value;
      assert s == s[..i] + pattern + s[i + |pattern|..];
    }
    if a, b :| s == a + pattern + b {
      assert OccursAt(s, pattern, |a|);
    }
  }

  // Length of one character in UTF-8, the unit of `str::len`.
  function Utf8Width(c: char): (n: nat)
    ensures 1 <= n <= 4
  {
    if c < '\U{80}' then 1 else if c < '\U{800}' then 2 else if c < '\U{10000}' then 3 else 4
  }

  function Utf8Len(s: string): (n: nat)
    ensures |s| <= n <= 4 * |s|
  {
    if s == "" then 0 else Utf8Width(s[0]) + Utf8Len(s[1..])
  }

  // The positions of characters from `c` on.
  function From(s: string, c: char): set<int> {
    set i | 0 <= i < |s| && s[i] >= c
  }

  lemma {:induction false} OneMoreFrom(s: string, c: char)
    requires s != ""
    ensures var n := |s| - 1;
            n !in From(s[..n], c) && From(s, c) == From(s[..n], c) + if s[n] >= c then {n} else {}
  {
    var n := |s| - 1;
    assert forall i :: 0 <= i < n ==> s[..n][i] == s[i];
  }

  lemma {:induction false} Utf8LenJoins(a: string, b: string)
    ensures Utf8Len(a + b) == Utf8Len(a) + Utf8Len(b)
  {
    hide Utf8Width;
    if a == "" {
      assert a + b == b;
    } else {
      assert (a + b)[1..] == a[1..] + b && (a + b)[0] == a[0];
      Utf8LenJoins(a[1..], b);
    }
  }

  // A character takes one byte, and one more from each of the bounds of UTF-8 on.
  lemma {:induction false} Utf8LenIsBytes(s: string)
    ensures Utf8Len(s) == |s| + |From(s, '\U{80}')| + |From(s, '\U{800}')| + |From(s, '\U{10000}')|
  {
    hide From;
    if s == "" {
      NoneFrom('\U{80}');
      NoneFrom('\U{800}');
      NoneFrom('\U{10000}');
    } else {
      var n := |s| - 1;
      assert s == s[..n] + [s[n]];
      Utf8LenIsBytes(s[..n]);
      Utf8LenJoins(s[..n], [s[n]]);
      OneCharacterBytes(s[n]);
      hide Utf8Len, Utf8Width;
      OneMoreFrom(s, '\U{80}');
      OneMoreFrom(s, '\U{800}');
      OneMoreFrom(s, '\U{10000}');
    }
  }

  lemma {:induction false} NoneFrom(c: char)
    ensures From("", c) == {}
  {
  }

  lemma {:induction false} OneCharacterBytes(c: char)
    ensures Utf8Len([c]) == 1 + (if c >= '\U{80}' then 1 else 0) + (if c >= '\U{800}' then 1 else 0)
                            + (if c >= '\U{10000}' then 1 else 0)
  {
    assert [c][1..] == "";
  }

  const ELLIPSIS: string := "..."

  // `truncate_with_ellipsis` of src/util.rs.
  function TruncateWithEllipsis(s: string, maxChars: nat): (r: string)
    ensures |s| <= maxChars ==> r == s
    ensures maxChars < |s| ==> |r| <= maxChars + 3 && EndsWith(r, ELLIPSIS) && r[..|r| - 3] <= s
  {
    if maxChars < |s| then TrimEnd(s[..maxChars]) + ELLIPSIS else s
  }
}
