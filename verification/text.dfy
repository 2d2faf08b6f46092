/**
 * The string operations the watcher applies to the text of the field:
 * `indexOf` of a character, the split of the text at the decimal separator,
 * `replace` of the thousands separator by nothing, and, for stating the
 * grouping, the split of a rendered number at its separators.
 */
module Text {
  import opened Wrappers

  /** Number of occurrences of `c` in `s`. */
  function Count(s: string, c: char): (n: nat)
    ensures n <= |s|
    ensures n == 0 <==> c !in s
  {
    if s == [] then 0
    else (if s[0] == c then 1 else 0) + Count(s[1..], c)
  }

  lemma {:induction false} CountAppend(a: string, b: string, c: char)
    ensures Count(a + b, c) == Count(a, c) + Count(b, c)
    decreases |a|
  {
    if a != [] {
      assert (a + b)[1..] == a[1..] + b;
      CountAppend(a[1..], b, c);
    } else {
      assert a + b == b;
    }
  }

  /** Index of the first occurrence of `c` in `s` (Kotlin `indexOf`, with -1 as `None`). */
  function IndexOf(s: string, c: char): (r: Option<nat>)
    ensures r.Some? ==> r.value < |s| && s[r.value] == c && c !in s[..r.value]
    ensures r.None? <==> c !in s
  {
    if s == [] then None
    else if s[0] == c then Some(0)
    else match IndexOf(s[1..], c)
      case None => None
      case Some(i) =>
        assert s[..i + 1] == [s[0]] + s[1..][..i];
        Some(i + 1)
  }

  /**
   * Split at the first `c`: the part before it, and the rest starting with
   * `c` itself (empty when `c` does not occur).
   */
  function SplitAtFirst(s: string, c: char): (r: (string, string))
    ensures r.0 + r.1 == s
    ensures c !in r.0
    ensures r.1 == [] || r.1[0] == c
    ensures r.1 == [] <==> IndexOf(s, c).None?
    ensures IndexOf(s, c).Some? ==> |r.0| == IndexOf(s, c).value
  {
    match IndexOf(s, c)
    case None => (s, [])
    case Some(i) => (s[..i], s[i..])
  }

  /** The three ensures of `SplitAtFirst` determine its result. */
  lemma SplitAtFirstUnique(s: string, c: char, a: string, b: string)
    requires a + b == s
    requires c !in a
    requires b == [] || b[0] == c
    ensures SplitAtFirst(s, c) == (a, b)
  {
    var (x, y) := SplitAtFirst(s, c);
    assert forall k :: 0 <= k < |x| ==> s[k] == x[k] != c;
    assert forall k :: 0 <= k < |a| ==> s[k] == a[k] != c;
    assert |a| < |s| ==> s[|a|] == b[0] == c;
    assert |x| < |s| ==> s[|x|] == y[0] == c;
    assert |a| == |x|;
    assert a == s[..|a|] == x;
    assert b == s[|a|..] == y;
  }

  /** `s` with every `c` removed (Kotlin `replace(c.toString(), "")`). */
  function Strip(s: string, c: char): (r: string)
    ensures c !in r
    ensures |r| == |s| - Count(s, c)
    ensures c !in s ==> r == s
  {
    if s == [] then []
    else
      assert s == [s[0]] + s[1..];
      if s[0] == c then Strip(s[1..], c)
      else [s[0]] + Strip(s[1..], c)
  }

  /** Removal keeps every other character, as often as it occurs. */
  lemma {:induction false} StripKeepsOthers(s: string, c: char)
    ensures multiset(Strip(s, c)) == multiset(s)[c := 0]
    decreases |s|
  {
    if s != [] {
      StripKeepsOthers(s[1..], c);
      assert s == [s[0]] + s[1..];
    }
  }

  /** Whatever survives removal was there before. */
  lemma StripSubset(s: string, c: char, x: char)
    requires x in Strip(s, c)
    ensures x in s && x != c
  {
    StripKeepsOthers(s, c);
    assert x in multiset(Strip(s, c));
  }

  /** Removal works piecewise, so every other character keeps its order. */
  lemma {:induction false} StripAppend(a: string, b: string, c: char)
    ensures Strip(a + b, c) == Strip(a, c) + Strip(b, c)
    decreases |a|
  {
    if a == [] {
      assert a + b == b;
    } else {
      assert (a + b)[0] == a[0];
      assert (a + b)[1..] == a[1..] + b;
      StripAppend(a[1..], b, c);
    }
  }

  /** Index of the last occurrence of `c` in `s`. */
  function LastIndexOf(s: string, c: char): (r: Option<nat>)
    ensures r.Some? ==> r.value < |s| && s[r.value] == c && c !in s[r.value + 1..]
    ensures r.None? <==> c !in s
  {
    if s == [] then None
    else if s[|s| - 1] == c then Some(|s| - 1)
    else
      assert s == s[..|s| - 1] + [s[|s| - 1]];
      LastIndexOf(s[..|s| - 1], c)
  }

  lemma LastIndexOfSplice(a: string, c: char, b: string)
    requires c !in b
    ensures LastIndexOf(a + [c] + b, c) == Some(|a|)
  {
    var s := a + [c] + b;
    var r := LastIndexOf(s, c);
    assert s[|a|] == c;
    if r.None? {
      assert false;
    } else if r.value < |a| {
      assert false;
    } else if r.value > |a| {
      assert false;
    }
  }

  /** The pieces of `s` between occurrences of `c`, left to right. */
  function SplitOn(s: string, c: char): (gs: seq<string>)
    ensures |gs| == Count(s, c) + 1
    ensures forall j :: 0 <= j < |gs| ==> c !in gs[j]
    decreases |s|
  {
    match LastIndexOf(s, c)
    case None => [s]
    case Some(i) =>
      assert s == s[..i] + [c] + s[i + 1..];
      CountAppend(s[..i] + [c], s[i + 1..], c);
      CountAppend(s[..i], [c], c);
      SplitOn(s[..i], c) + [s[i + 1..]]
  }

  /** The pieces joined back with `c` between them. */
  function Join(gs: seq<string>, c: char): string
  {
    if |gs| == 0 then []
    else if |gs| == 1 then gs[0]
    else Join(gs[..|gs| - 1], c) + [c] + gs[|gs| - 1]
  }

  lemma {:induction false} SplitOnJoin(s: string, c: char)
    ensures Join(SplitOn(s, c), c) == s
    decreases |s|
  {
    var r := LastIndexOf(s, c);
    if r.Some? {
      var i := r.value;
      var front := SplitOn(s[..i], c);
      var gs := SplitOn(s, c);
      assert gs == front + [s[i + 1..]];
      SplitOnJoin(s[..i], c);
      assert gs[..|gs| - 1] == front;
      assert Join(gs, c) == Join(front, c) + [c] + s[i + 1..];
      assert s == s[..i] + [c] + s[i + 1..];
    }
  }

  /** Splitting `a c b` at its separators splits `a` and keeps `b` whole. */
  lemma SplitOnSplice(a: string, c: char, b: string)
    requires c !in b
    ensures SplitOn(a + [c] + b, c) == SplitOn(a, c) + [b]
  {
    var s := a + [c] + b;
    LastIndexOfSplice(a, c, b);
    assert s[..|a|] == a;
    assert s[|a| + 1..] == b;
  }
}
