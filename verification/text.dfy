/** String helpers with the exact semantics of the `java.lang.String` and
    `StringBuilder` idioms the plugin uses. Strings are `seq<char>`. */
module Text {
  import opened Wrappers

  /** No element occurs twice. */
  predicate NoDups<T(==)>(s: seq<T>) {
    forall i, j :: 0 <= i < j < |s| ==> s[i] != s[j]
  }

  /** `order` lists every element of `keys` exactly once: one possible
      iteration order of a Java `HashMap` key set. */
  predicate Enumerates<T(==)>(order: seq<T>, keys: set<T>) {
    NoDups(order) && (set x | x in order) == keys
  }

  predicate IsSuffix(x: string, s: string) {
    |x| <= |s| && s[|s| - |x|..] == x
  }

  /** `pat` starts at position `i` of `s`. */
  predicate OccursAt(pat: string, s: string, i: int) {
    0 <= i && i + |pat| <= |s| && s[i..i + |pat|] == pat
  }

  /** `x` occurs somewhere in `s` as a contiguous block (`String.contains`). */
  predicate IsInfix(x: string, s: string) {
    exists i :: 0 <= i <= |s| && OccursAt(x, s, i)
  }

  lemma InfixOfConcat(x: string, a: string, b: string, c: string)
    requires IsInfix(x, b)
    ensures IsInfix(x, a + b + c)
  {
    var i :| 0 <= i <= |b| && OccursAt(x, b, i);
    var s := a + b + c;
    assert s[|a| + i..|a| + i + |x|] == b[i..i + |x|];
    assert OccursAt(x, s, |a| + i);
  }

  lemma PrefixOfAppend(a: string, b: string)
    ensures a <= a + b
  {
    assert (a + b)[..|a|] == a;
  }

  lemma SuffixOfAppend(a: string, b: string)
    ensures IsSuffix(b, a + b)
  {
    assert (a + b)[|a|..] == b;
  }

  lemma SuffixOfSuffix(x: string, y: string, s: string)
    requires IsSuffix(x, y) && IsSuffix(y, s)
    ensures IsSuffix(x, s)
  {
    assert s[|s| - |x|..] == s[|s| - |y|..][|y| - |x|..];
  }

  lemma InfixSelf(x: string)
    ensures IsInfix(x, x)
  {
    assert OccursAt(x, x, 0);
  }

  // ---------------------------------------------------------------------
  // String.indexOf(String) and String.lastIndexOf(char)
  // ---------------------------------------------------------------------

  function IndexFrom(s: string, pat: string, i: nat): (r: Option<nat>)
    requires i <= |s|
    ensures r.Some? ==> i <= r.value && OccursAt(pat, s, r.value)
    ensures r.Some? ==> forall j :: i <= j < r.value ==> !OccursAt(pat, s, j)
    ensures r.None? ==> forall j :: i <= j ==> !OccursAt(pat, s, j)
    decreases |s| - i
  {
    if i + |pat| > |s| then None
    else if s[i..i + |pat|] == pat then Some(i)
    else if i == |s| then None
    else IndexFrom(s, pat, i + 1)
  }

  /** First position of `pat` in `s`, like `String.indexOf(String)`
      (with `None` for Java's `-1`). */
  function IndexOf(s: string, pat: string): (r: Option<nat>)
    ensures r.Some? ==> OccursAt(pat, s, r.value)
    ensures r.Some? ==> forall j :: 0 <= j < r.value ==> !OccursAt(pat, s, j)
    ensures r.None? <==> !IsInfix(pat, s)
  {
    var r := IndexFrom(s, pat, 0);
    assert r.Some? ==> OccursAt(pat, s, r.value);
    r
  }

  /** `String.lastIndexOf(char)`: the last position of `c`, or -1. */
  function LastIndexOf(s: string, c: char): (r: int)
    ensures -1 <= r < |s|
    ensures r >= 0 ==> s[r] == c
    ensures forall k :: r < k < |s| ==> s[k] != c
    ensures r == -1 <==> c !in s
  {
    if |s| == 0 then -1
    else if s[|s| - 1] == c then |s| - 1
    else LastIndexOf(s[..|s| - 1], c)
  }

  lemma {:induction false} LastIndexOfAppend(a: string, b: string, c: char)
    requires c !in b
    ensures LastIndexOf(a + b, c) == LastIndexOf(a, c)
  {
    if |b| == 0 {
      assert a + b == a;
    } else {
      var b' := b[..|b| - 1];
      assert (a + b)[..|a + b| - 1] == a + b';
      LastIndexOfAppend(a, b', c);
    }
  }

  // ---------------------------------------------------------------------
  // String.trim()
  // ---------------------------------------------------------------------

  /** `String.trim` drops every character whose code is at most U+0020. */
  predicate IsTrimmed(c: char) {
    c <= ' '
  }

  function TrimStart(s: string): (r: string)
    ensures IsSuffix(r, s)
    ensures |r| > 0 ==> !IsTrimmed(r[0])
    ensures forall k :: 0 <= k < |s| - |r| ==> IsTrimmed(s[k])
  {
    if |s| > 0 && IsTrimmed(s[0]) then TrimStart(s[1..]) else s
  }

  function TrimEnd(s: string): (r: string)
    ensures r <= s
    ensures |r| > 0 ==> !IsTrimmed(r[|r| - 1])
    ensures forall k :: |r| <= k < |s| ==> IsTrimmed(s[k])
  {
    if |s| > 0 && IsTrimmed(s[|s| - 1]) then TrimEnd(s[..|s| - 1]) else s
  }

  /** `String.trim()`. */
  function Trim(s: string): string {
    TrimEnd(TrimStart(s))
  }

  /** The trimmed string is the block of the original left after cutting
      trimmable characters off either side, and it has none left at either
      end. */
  lemma TrimSpec(s: string)
    ensures var r := Trim(s);
      && (|r| > 0 ==> !IsTrimmed(r[0]) && !IsTrimmed(r[|r| - 1]))
      && exists i, j :: 0 <= i <= j <= |s| && r == s[i..j]
           && (forall k :: 0 <= k < i ==> IsTrimmed(s[k]))
           && (forall k :: j <= k < |s| ==> IsTrimmed(s[k]))
  {
    var t := TrimStart(s);
    var r := TrimEnd(t);
    var i := |s| - |t|;
    var j := i + |r|;
    assert t == s[i..];
    assert r == t[..|r|];
    assert r == s[i..j];
    if |r| > 0 {
      assert r[0] == t[0];
    }
    assert forall k :: 0 <= k < i ==> IsTrimmed(s[k]);
    assert forall k :: j <= k < |s| ==> IsTrimmed(s[k]) by {
      forall k | j <= k < |s|
        ensures IsTrimmed(s[k])
      {
        assert s[k] == t[k - i];
      }
    }
    assert 0 <= i <= j <= |s|;
  }

  /** The trimmed string is a trimmed block of the original. */
  lemma TrimInfix(s: string)
    ensures Trim(Trim(s)) == Trim(s) && IsInfix(Trim(s), s)
  {
    TrimIdempotent(s);
    var t := TrimStart(s);
    var r := TrimEnd(t);
    var i := |s| - |t|;
    assert r == t[..|r|] && t == s[i..];
    assert s[i..i + |r|] == r;
    assert OccursAt(r, s, i);
  }

  /** Trimming twice is trimming once. */
  lemma TrimIdempotent(s: string)
    ensures Trim(Trim(s)) == Trim(s)
  {
    var r := Trim(s);
    TrimSpec(s);
    if |r| > 0 {
      assert TrimStart(r) == r;
      assert TrimEnd(r) == r;
    }
  }

  // ---------------------------------------------------------------------
  // Comma-joined lists
  // ---------------------------------------------------------------------

  /** The list as a `StringBuilder` loop joins it: before each element a
      separator is appended only when the builder is already non-empty. */
  function BuilderJoin(parts: seq<string>, sep: char): string
  {
    if |parts| == 0 then ""
    else
      var acc := BuilderJoin(parts[..|parts| - 1], sep);
      (if |acc| > 0 then acc + [sep] else acc) + parts[|parts| - 1]
  }

  /** Plain separator join: one separator between consecutive elements. */
  function Join(parts: seq<string>, sep: char): string
  {
    if |parts| == 0 then ""
    else if |parts| == 1 then parts[0]
    else Join(parts[..|parts| - 1], sep) + [sep] + parts[|parts| - 1]
  }

  /** Splits at every occurrence of `sep`; the inverse of `Join`. */
  function Split(s: string, sep: char): (r: seq<string>)
    ensures |r| > 0
    decreases |s|
  {
    var j := LastIndexOf(s, sep);
    if j < 0 then [s] else Split(s[..j], sep) + [s[j + 1..]]
  }

  predicate NonEmptyParts(parts: seq<string>) {
    forall i :: 0 <= i < |parts| ==> |parts[i]| > 0
  }

  predicate SeparatorFree(parts: seq<string>, sep: char) {
    forall i :: 0 <= i < |parts| ==> sep !in parts[i]
  }

  /** With non-empty elements the builder loop is a plain separator join. */
  lemma {:induction false} BuilderJoinIsJoin(parts: seq<string>, sep: char)
    requires NonEmptyParts(parts)
    ensures BuilderJoin(parts, sep) == Join(parts, sep)
    ensures |parts| > 0 ==> |Join(parts, sep)| > 0
  {
    if |parts| > 1 {
      var init := parts[..|parts| - 1];
      BuilderJoinIsJoin(init, sep);
    }
  }

  /** A joined list of separator-free elements splits back into the list. */
  lemma {:induction false} SplitJoin(parts: seq<string>, sep: char)
    requires |parts| > 0
    requires SeparatorFree(parts, sep)
    ensures Split(Join(parts, sep), sep) == parts
  {
    if |parts| == 1 {
      assert sep !in parts[0] by {
        assert sep !in parts[0];
      }
    } else {
      var init := parts[..|parts| - 1];
      var last := parts[|parts| - 1];
      var j := Join(init, sep);
      var s := j + [sep] + last;
      assert sep !in last;
      LastIndexOfAppend(j + [sep], last, sep);
      assert LastIndexOf(j + [sep], sep) == |j|;
      assert s[..|j|] == j;
      assert s[|j| + 1..] == last;
      SplitJoin(init, sep);
      assert init + [last] == parts;
    }
  }

  /** The builder-joined list of non-empty, separator-free keys splits back
      into exactly the list: one entry per element, no stray separator. */
  lemma BuilderJoinRoundTrip(parts: seq<string>, sep: char)
    requires |parts| > 0
    requires NonEmptyParts(parts) && SeparatorFree(parts, sep)
    ensures Split(BuilderJoin(parts, sep), sep) == parts
  {
    BuilderJoinIsJoin(parts, sep);
    SplitJoin(parts, sep);
  }

  /** The separator just appended is the last one. */
  lemma LastIndexOfSeparator(x: string, c: char)
    ensures LastIndexOf(x + [c], c) == |x|
  {
    assert (x + [c])[|x|] == c;
  }

  /** Splitting distributes over a separator. */
  lemma {:induction false} SplitConcat(a: string, b: string, sep: char)
    ensures Split(a + [sep] + b, sep) == Split(a, sep) + Split(b, sep)
    decreases |b|
  {
    var s := a + [sep] + b;
    var j := LastIndexOf(b, sep);
    if j < 0 {
      LastIndexOfAppend(a + [sep], b, sep);
      LastIndexOfSeparator(a, sep);
      assert s[..|a|] == a;
      assert s[|a| + 1..] == b;
    } else {
      var b1 := b[..j];
      var b2 := b[j + 1..];
      assert b == b1 + [sep] + b2;
      var a1 := a + [sep] + b1;
      assert s == a1 + [sep] + b2;
      assert sep !in b2;
      LastIndexOfAppend(a1 + [sep], b2, sep);
      LastIndexOfSeparator(a1, sep);
      assert s[..|a1|] == a1;
      assert s[|a1| + 1..] == b2;
      assert Split(s, sep) == Split(a1, sep) + [b2];
      assert Split(b, sep) == Split(b1, sep) + [b2];
      SplitConcat(a, b1, sep);
      assert Split(s, sep) == Split(a, sep) + (Split(b1, sep) + [b2]);
    }
  }

  // ---------------------------------------------------------------------
  // Space-separated command lines
  // ---------------------------------------------------------------------

  /** Each token preceded by one space, as `cmd.append(" " + token)` builds
      a command line. */
  function Spaced(tokens: seq<string>): string {
    if |tokens| == 0 then ""
    else Spaced(tokens[..|tokens| - 1]) + " " + tokens[|tokens| - 1]
  }

  lemma {:induction false} SpacedAppend(a: seq<string>, b: seq<string>)
    ensures Spaced(a + b) == Spaced(a) + Spaced(b)
    decreases |b|
  {
    if |b| > 0 {
      var init := b[..|b| - 1];
      assert (a + b)[..|a + b| - 1] == a + init;
      SpacedAppend(a, init);
    } else {
      assert a + b == a;
    }
  }

  /** A command line of space-free tokens splits at spaces into an empty
      leading token followed by exactly those tokens. */
  lemma {:induction false} SplitSpaced(prefix: string, tokens: seq<string>)
    requires SeparatorFree(tokens, ' ')
    ensures Split(prefix + Spaced(tokens), ' ') == Split(prefix, ' ') + tokens
    decreases |tokens|
  {
    if |tokens| == 0 {
      assert prefix + Spaced(tokens) == prefix;
    } else {
      var init := tokens[..|tokens| - 1];
      var last := tokens[|tokens| - 1];
      assert SeparatorFree(init, ' ');
      var head := prefix + Spaced(init);
      assert Spaced(tokens) == Spaced(init) + " " + last;
      assert prefix + Spaced(tokens) == head + [' '] + last;
      SplitConcat(head, last, ' ');
      assert ' ' !in last;
      assert LastIndexOf(last, ' ') == -1;
      SplitSpaced(prefix, init);
      assert init + [last] == tokens;
    }
  }

  /** A character other than the separator occurs in a builder-joined list
      only if it occurs in an element. */
  lemma {:induction false} BuilderJoinFree(parts: seq<string>, sep: char, c: char)
    requires c != sep && SeparatorFree(parts, c)
    ensures c !in BuilderJoin(parts, sep)
  {
    if |parts| > 0 {
      var init := parts[..|parts| - 1];
      assert SeparatorFree(init, c);
      BuilderJoinFree(init, sep, c);
      assert c !in parts[|parts| - 1];
    }
  }
}
