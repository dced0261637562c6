/** The operations of Rust's `str` that the program relies on, over Dafny strings. */
module Text {
  import opened Wrappers

  /** `s.starts_with(prefix)` */
  predicate StartsWith(s: string, prefix: string) {
    |prefix| <= |s| && s[..|prefix|] == prefix
  }

  /** `pat` occurs in `s` at index `i`. */
  predicate OccursAt(s: string, pat: string, i: int) {
    0 <= i && i + |pat| <= |s| && s[i..i + |pat|] == pat
  }

  /** `s.contains(pat)`: tries every start position from the left. */
  function Contains(s: string, pat: string): bool
    decreases |s|
  {
    if |s| < |pat| then false
    else StartsWith(s, pat) || (s != [] && Contains(s[1..], pat))
  }

  /** The search finds `pat` exactly when it occurs somewhere in `s`. */
  lemma {:induction false} ContainsIffOccurs(s: string, pat: string)
    ensures Contains(s, pat) <==> exists i :: OccursAt(s, pat, i)
    decreases |s|
  {
    if StartsWith(s, pat) {
      assert OccursAt(s, pat, 0);
    } else if |s| >= |pat| {
      ContainsIffOccurs(s[1..], pat);
      if Contains(s[1..], pat) {
        var i :| OccursAt(s[1..], pat, i);
        assert s[1..][i..i + |pat|] == s[i + 1..i + 1 + |pat|];
        assert OccursAt(s, pat, i + 1);
      }
      if i :| OccursAt(s, pat, i) {
        assert i != 0;
        assert s[1..][i - 1..i - 1 + |pat|] == s[i..i + |pat|];
        assert OccursAt(s[1..], pat, i - 1);
      }
    }
  }

  /** Index of the first `c` in `s` (`s.find(c)`). */
  function IndexOf(s: string, c: char): (r: Option<nat>)
    ensures r.None? ==> c !in s
    ensures r.Some? ==> r.value < |s| && s[r.value] == c && c !in s[..r.value]
  {
    if s == [] then None
    else if s[0] == c then Some(0)
    else match IndexOf(s[1..], c)
      case None => None
      case Some(i) =>
        assert s[..i + 1] == [s[0]] + s[1..][..i];
        Some(i + 1)
  }

  /** An occurrence with none before it is the one `IndexOf` finds. */
  lemma IndexOfAt(s: string, c: char, k: nat)
    requires k < |s| && s[k] == c && c !in s[..k]
    ensures IndexOf(s, c) == Some(k)
  {
    assert s[k] in s;
    var i := IndexOf(s, c).value;
    assert forall j :: 0 <= j < k ==> s[..k][j] == s[j];
    assert forall j :: 0 <= j < i ==> s[..i][j] == s[j];
  }

  /** Index of the last `c` in `s` (`s.rfind(c)`). */
  function LastIndexOf(s: string, c: char): (r: Option<nat>)
    ensures r.None? ==> c !in s
    ensures r.Some? ==> r.value < |s| && s[r.value] == c && c !in s[r.value + 1..]
  {
    if s == [] then None
    else if s[|s| - 1] == c then Some(|s| - 1)
    else match LastIndexOf(s[..|s| - 1], c)
      case None =>
        assert s == s[..|s| - 1] + [s[|s| - 1]];
        None
      case Some(i) =>
        assert s[i + 1..] == s[..|s| - 1][i + 1..] + [s[|s| - 1]];
        Some(i)
  }

  /** The last `c` is the one with no `c` after it. */
  lemma LastIndexOfAt(s: string, c: char, k: nat)
    requires k < |s| && s[k] == c && c !in s[k + 1..]
    ensures LastIndexOf(s, c) == Some(k)
  {
    assert s[k] in s;
  }

  /** `s.split_once(c)`: the parts before and after the first `c`. */
  function SplitOnce(s: string, c: char): (r: Option<(string, string)>)
    ensures r.None? <==> c !in s
    ensures r.Some? ==> s == r.value.0 + [c] + r.value.1 && c !in r.value.0
  {
    match IndexOf(s, c)
    case None => None
    case Some(i) =>
      assert s == s[..i] + [c] + s[i + 1..];
      Some((s[..i], s[i + 1..]))
  }

  /** Splitting a joined pair at its separator gives the pair back when the first half is free of it. */
  lemma SplitOnceJoin(left: string, right: string, c: char)
    requires c !in left
    ensures SplitOnce(left + [c] + right, c) == Some((left, right))
  {
    var s := left + [c] + right;
    assert s[|left|] == c;
    assert s[..|left|] == left;
  }

  /** The pieces of `s` between the occurrences of `c` (`s.split(c)`). */
  function Split(s: string, c: char): (r: seq<string>)
    ensures |r| >= 1
    ensures forall i :: 0 <= i < |r| ==> c !in r[i]
    ensures c !in s ==> r == [s]
    decreases |s|
  {
    match IndexOf(s, c)
    case None => [s]
    case Some(i) => [s[..i]] + Split(s[i + 1..], c)
  }

  /** Splitting at a separator splits the two sides separately. */
  lemma {:induction false} SplitAround(a: string, c: char, b: string)
    ensures Split(a + [c] + b, c) == Split(a, c) + Split(b, c)
    decreases |a|
  {
    var s := a + [c] + b;
    match IndexOf(a, c)
    case None =>
      assert s[..|a|] == a && s[|a| + 1..] == b;
      IndexOfAt(s, c, |a|);
    case Some(i) =>
      assert s[..i] == a[..i] && s[i + 1..] == a[i + 1..] + [c] + b;
      IndexOfAt(s, c, i);
      SplitAround(a[i + 1..], c, b);
  }

  /** The pieces put back together, with `c` between each two (`join`). */
  function JoinWith(pieces: seq<string>, c: char): string
    decreases |pieces|
  {
    if pieces == [] then "" else if |pieces| == 1 then pieces[0] else pieces[0] + [c] + JoinWith(pieces[1..], c)
  }

  /** Splitting loses nothing: the pieces joined with the separator give the input back. */
  lemma {:induction false} JoinSplit(s: string, c: char)
    ensures JoinWith(Split(s, c), c) == s
    decreases |s|
  {
    match IndexOf(s, c)
    case None =>
    case Some(i) =>
      var rest := s[i + 1..];
      assert s[i] == c;
      assert s == s[..i] + [c] + rest;
      var tail := Split(rest, c);
      var pieces := [s[..i]] + tail;
      assert Split(s, c) == pieces;
      assert |pieces| > 1 && pieces[0] == s[..i] && pieces[1..] == tail;
      assert JoinWith(pieces, c) == s[..i] + [c] + JoinWith(tail, c);
      JoinSplit(rest, c);
  }

  /** `s.replace(from, repl)` for a one-character pattern: every `from` becomes `repl`. */
  function ReplaceChar(s: string, from: char, repl: string): string
    decreases |s|
  {
    if s == [] then []
    else (if s[0] == from then repl else [s[0]]) + ReplaceChar(s[1..], from, repl)
  }

  /** Replacing is done piece by piece. */
  lemma {:induction false} ReplaceCharAppend(a: string, b: string, from: char, repl: string)
    ensures ReplaceChar(a + b, from, repl) == ReplaceChar(a, from, repl) + ReplaceChar(b, from, repl)
    decreases |a|
  {
    if a != [] {
      assert (a + b)[1..] == a[1..] + b;
      ReplaceCharAppend(a[1..], b, from, repl);
    } else {
      assert a + b == b;
    }
  }

  /** A string without the pattern is left alone. */
  lemma {:induction false} ReplaceCharAbsent(s: string, from: char, repl: string)
    requires from !in s
    ensures ReplaceChar(s, from, repl) == s
    decreases |s|
  {
    if s != [] {
      ReplaceCharAbsent(s[1..], from, repl);
    }
  }
}
