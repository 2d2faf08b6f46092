/**
 * What `DecimalFormat("#,###,###")` with grouping size 3 prints for a
 * `Long`: an optional `-`, then the digits of the magnitude without leading
 * zeros, a grouping separator before every third digit counted from the
 * right.
 */
module Grouping {
  import opened Wrappers
  import opened Text
  import opened Numbers

  function Abs(v: int): nat {
    if v < 0 then -v else v
  }

  /** Inserts `sep` before every group of three digits, counting from the right. */
  function GroupDigits(ds: string, sep: char): (r: string)
    decreases |ds|
  {
    if |ds| <= 3 then ds
    else GroupDigits(ds[..|ds| - 3], sep) + [sep] + ds[|ds| - 3..]
  }

  /** `DecimalFormat.format(v)` with `sep` as grouping separator. */
  function Render(v: int, sep: char): (r: string)
    ensures |r| >= 1
    ensures v < 0 <==> r[0] == '-'
    ensures v < 0 ==> DigitsAndSeparators(r[1..], sep)
    ensures v >= 0 ==> DigitsAndSeparators(r, sep)
  {
    var ds := ToDigits(Abs(v));
    GroupDigitsAlphabet(ds, sep);
    if v < 0 then "-" + GroupDigits(ds, sep) else GroupDigits(ds, sep)
  }

  /** Every character of `s` is a digit or `sep`. */
  predicate DigitsAndSeparators(s: string, sep: char) {
    forall i :: 0 <= i < |s| ==> IsDigit(s[i]) || s[i] == sep
  }

  lemma DigitsHaveNoSeparator(ds: string, sep: char)
    requires AllDigits(ds) && !IsDigit(sep)
    ensures sep !in ds
  {
  }

  /** A grouping holds nothing but digits and separators, and starts with a digit. */
  lemma {:induction false} GroupDigitsAlphabet(ds: string, sep: char)
    requires AllDigits(ds) && |ds| >= 1
    ensures DigitsAndSeparators(GroupDigits(ds, sep), sep)
    ensures IsDigit(GroupDigits(ds, sep)[0])
    decreases |ds|
  {
    if |ds| > 3 {
      var front := ds[..|ds| - 3];
      var last := ds[|ds| - 3..];
      GroupDigitsAlphabet(front, sep);
      var g := GroupDigits(front, sep);
      var r := g + [sep] + last;
      assert GroupDigits(ds, sep) == r;
      forall i | 0 <= i < |r|
        ensures IsDigit(r[i]) || r[i] == sep
      {
        if i < |g| {
          assert r[i] == g[i];
        } else if i > |g| {
          assert r[i] == last[i - |g| - 1] == ds[|ds| - 3 + (i - |g| - 1)];
        }
      }
    }
  }

  /**
   * The shape of a grouped magnitude: split at the separators, the first
   * group has one to three digits and every later group exactly three.
   */
  predicate WellGrouped(g: string, sep: char) {
    GroupsShaped(SplitOn(g, sep))
  }

  /** Digit groups: the first of one to three digits, every later one of three. */
  predicate GroupsShaped(gs: seq<string>) {
    && |gs| >= 1
    && 1 <= |gs[0]| <= 3
    && (forall j :: 1 <= j < |gs| ==> |gs[j]| == 3)
    && (forall j :: 0 <= j < |gs| ==> AllDigits(gs[j]))
  }

  /** Grouping D digits gives D + (D-1)/3 characters. */
  lemma {:induction false} GroupDigitsLength(ds: string, sep: char)
    requires |ds| >= 1
    ensures |GroupDigits(ds, sep)| == |ds| + (|ds| - 1) / 3
    decreases |ds|
  {
    if |ds| > 3 {
      GroupDigitsLength(ds[..|ds| - 3], sep);
    }
  }

  /** Removing the separators from a grouping gives the digits back. */
  lemma {:induction false} GroupDigitsStrip(ds: string, sep: char)
    requires AllDigits(ds) && !IsDigit(sep)
    ensures Strip(GroupDigits(ds, sep), sep) == ds
    decreases |ds|
  {
    if |ds| <= 3 {
      DigitsHaveNoSeparator(ds, sep);
    } else {
      var front := ds[..|ds| - 3];
      var last := ds[|ds| - 3..];
      DigitsHaveNoSeparator(last, sep);
      GroupDigitsStrip(front, sep);
      var g := GroupDigits(front, sep);
      StripAppend(g + [sep], last, sep);
      StripAppend(g, [sep], sep);
      assert Strip([sep], sep) == [];
      assert ds == front + last;
    }
  }

  /** Grouping D digits inserts (D-1)/3 separators. */
  lemma {:induction false} GroupDigitsCount(ds: string, sep: char)
    requires AllDigits(ds) && |ds| >= 1 && !IsDigit(sep)
    ensures Count(GroupDigits(ds, sep), sep) == (|ds| - 1) / 3
    decreases |ds|
  {
    if |ds| <= 3 {
      DigitsHaveNoSeparator(ds, sep);
    } else {
      var front := ds[..|ds| - 3];
      var last := ds[|ds| - 3..];
      DigitsHaveNoSeparator(last, sep);
      GroupDigitsCount(front, sep);
      var g := GroupDigits(front, sep);
      CountAppend(g + [sep], last, sep);
      CountAppend(g, [sep], sep);
    }
  }

  /** One more group of three digits keeps a list of groups well shaped. */
  lemma GroupsShapedSnoc(fs: seq<string>, last: string)
    requires GroupsShaped(fs)
    requires AllDigits(last) && |last| == 3
    ensures GroupsShaped(fs + [last])
  {
    var gs := fs + [last];
    assert forall j :: 0 <= j < |fs| ==> gs[j] == fs[j];
  }

  /** Grouping digits gives a well-grouped string. */
  lemma {:induction false} GroupDigitsWellGrouped(ds: string, sep: char)
    requires AllDigits(ds) && |ds| >= 1
    requires !IsDigit(sep)
    ensures WellGrouped(GroupDigits(ds, sep), sep)
    decreases |ds|
  {
    if |ds| <= 3 {
      DigitsHaveNoSeparator(ds, sep);
      assert SplitOn(ds, sep) == [ds];
    } else {
      var front := ds[..|ds| - 3];
      var last := ds[|ds| - 3..];
      DigitsHaveNoSeparator(last, sep);
      GroupDigitsWellGrouped(front, sep);
      var g := GroupDigits(front, sep);
      SplitOnSplice(g, sep, last);
      assert SplitOn(GroupDigits(ds, sep), sep) == SplitOn(g, sep) + [last];
      GroupsShapedSnoc(SplitOn(g, sep), last);
    }
  }

  /**
   * Grouping D digits is well grouped: its (D-1)/3 separators split it into
   * a first group of one to three digits and later groups of exactly three,
   * and it is D + (D-1)/3 characters long.
   */
  lemma GroupDigitsShape(ds: string, sep: char)
    requires AllDigits(ds) && |ds| >= 1
    requires !IsDigit(sep)
    ensures WellGrouped(GroupDigits(ds, sep), sep)
    ensures Count(GroupDigits(ds, sep), sep) == (|ds| - 1) / 3
    ensures |SplitOn(GroupDigits(ds, sep), sep)| == (|ds| - 1) / 3 + 1
    ensures |GroupDigits(ds, sep)| == |ds| + (|ds| - 1) / 3
  {
    GroupDigitsWellGrouped(ds, sep);
    GroupDigitsCount(ds, sep);
    GroupDigitsLength(ds, sep);
  }

  /** Three more digits on the right add one more group. */
  lemma GroupDigitsExtend(ds: string, last: string, sep: char)
    requires AllDigits(ds) && |ds| >= 1
    requires AllDigits(last) && |last| == 3
    ensures AllDigits(ds + last)
    ensures GroupDigits(ds + last, sep) == GroupDigits(ds, sep) + [sep] + last
  {
    var s := ds + last;
    assert s[..|s| - 3] == ds;
    assert s[|s| - 3..] == last;
  }

  /** A grouped front, a separator and three digits form a grouping. */
  lemma GroupingSplice(g: string, front: string, last: string, sep: char)
    requires !IsDigit(sep)
    requires g == front + [sep] + last
    requires AllDigits(Strip(front, sep)) && |Strip(front, sep)| >= 1
    requires GroupDigits(Strip(front, sep), sep) == front
    requires AllDigits(last) && |last| == 3
    ensures AllDigits(Strip(g, sep)) && |Strip(g, sep)| >= 1
    ensures GroupDigits(Strip(g, sep), sep) == g
  {
    var fds := Strip(front, sep);
    StripAppend(front + [sep], last, sep);
    StripAppend(front, [sep], sep);
    DigitsHaveNoSeparator(last, sep);
    assert Strip([sep], sep) == [];
    assert Strip(g, sep) == fds + last;
    GroupDigitsExtend(fds, last, sep);
  }

  /** Digit groups joined by the separator are the grouping of their digits. */
  lemma {:induction false} JoinedGroupsAreGrouping(gs: seq<string>, sep: char)
    requires GroupsShaped(gs)
    requires !IsDigit(sep)
    ensures AllDigits(Strip(Join(gs, sep), sep)) && |Strip(Join(gs, sep), sep)| >= 1
    ensures GroupDigits(Strip(Join(gs, sep), sep), sep) == Join(gs, sep)
    decreases |gs|
  {
    if |gs| == 1 {
      DigitsHaveNoSeparator(gs[0], sep);
    } else {
      var front := gs[..|gs| - 1];
      assert GroupsShaped(front) by {
        assert forall j :: 0 <= j < |front| ==> front[j] == gs[j];
      }
      JoinedGroupsAreGrouping(front, sep);
      GroupingSplice(Join(gs, sep), Join(front, sep), gs[|gs| - 1], sep);
    }
  }

  /**
   * Conversely a well-grouped string is the grouping of its own digits, so
   * the grouping is the only well-grouped spelling of a digit string.
   */
  lemma WellGroupedIsGrouping(g: string, sep: char)
    requires WellGrouped(g, sep)
    requires !IsDigit(sep)
    ensures AllDigits(Strip(g, sep)) && |Strip(g, sep)| >= 1
    ensures GroupDigits(Strip(g, sep), sep) == g
  {
    SplitOnJoin(g, sep);
    JoinedGroupsAreGrouping(SplitOn(g, sep), sep);
  }

  /** A grouping starts with the first digit. */
  lemma {:induction false} GroupDigitsFirst(ds: string, sep: char)
    requires |ds| >= 1
    ensures GroupDigits(ds, sep)[0] == ds[0]
    decreases |ds|
  {
    if |ds| > 3 {
      GroupDigitsFirst(ds[..|ds| - 3], sep);
    }
  }

  /**
   * Removing the separators from a rendering and parsing it gives back the
   * value. A `-` separator would also remove the sign of a negative value.
   */
  lemma RenderRoundTrip(v: int, sep: char)
    requires InLongRange(v)
    requires !IsDigit(sep) && (sep != '-' || v >= 0)
    ensures ParseLong(Strip(Render(v, sep), sep)) == Some(v)
  {
    var ds := ToDigits(Abs(v));
    GroupDigitsStrip(ds, sep);
    var s := Strip(Render(v, sep), sep);
    if v < 0 {
      StripAppend("-", GroupDigits(ds, sep), sep);
      assert s == "-" + ds;
      assert s[1..] == ds;
    } else {
      assert s == ds;
    }
  }
}
