/**
 * Reading the item list (listToPDF.py:41-42): every line of the input is
 * stripped of surrounding whitespace, blank lines are dropped and the order
 * of the remaining lines is kept. Reading the file itself is I/O and is left
 * to the caller: the model starts from the lines the file iterator yields.
 */
module ItemList {

  /** Python's `str.isspace()` for one character: the characters `str.strip()` removes. */
  predicate IsSpace(c: char) {
    var n := c as int;
    n == 0x20 || 0x09 <= n <= 0x0D || 0x1C <= n <= 0x1F || n == 0x85 || n == 0xA0
    || n == 0x1680 || 0x2000 <= n <= 0x200A || n == 0x2028 || n == 0x2029
    || n == 0x202F || n == 0x205F || n == 0x3000
  }

  /** The number of whitespace characters `s.lstrip()` removes: the position of the first non-space. */
  function LeadingSpaces(s: string): (n: nat)
    ensures n <= |s|
    ensures forall k :: 0 <= k < n ==> IsSpace(s[k])
    ensures n < |s| ==> !IsSpace(s[n])
  {
    if s != [] && IsSpace(s[0]) then 1 + LeadingSpaces(s[1..]) else 0
  }

  /** The number of whitespace characters `s.rstrip()` removes: how far the last non-space is from the end. */
  function TrailingSpaces(s: string): (n: nat)
    ensures n <= |s|
    ensures forall k :: |s| - n <= k < |s| ==> IsSpace(s[k])
    ensures n < |s| ==> !IsSpace(s[|s| - 1 - n])
  {
    if s != [] && IsSpace(s[|s| - 1]) then 1 + TrailingSpaces(s[..|s| - 1]) else 0
  }

  /** `s.lstrip()`. */
  function StripLeft(s: string): string {
    s[LeadingSpaces(s)..]
  }

  /** `s.rstrip()`. */
  function StripRight(s: string): string {
    s[..|s| - TrailingSpaces(s)]
  }

  /**
   * `r` is what stripping `s` must give: the slice `s[i..i + |r|]` with only
   * whitespace on either side of it, and no whitespace at either end of it.
   */
  ghost predicate IsStripOf(r: string, s: string) {
    exists i :: 0 <= i <= |s| - |r| && StrippedAt(r, s, i)
  }

  ghost predicate StrippedAt(r: string, s: string, i: nat) {
    && i + |r| <= |s|
    && r == s[i..i + |r|]
    && (forall k :: 0 <= k < i ==> IsSpace(s[k]))
    && (forall k :: i + |r| <= k < |s| ==> IsSpace(s[k]))
    && (r == [] || (!IsSpace(r[0]) && !IsSpace(r[|r| - 1])))
  }

  /** `s.strip()`. */
  function Strip(s: string): (r: string)
    ensures IsStripOf(r, s)
  {
    var i := LeadingSpaces(s);
    var l := StripLeft(s);
    var r := StripRight(l);
    assert StrippedAt(r, s, i) by {
      forall k | i + |r| <= k < |s|
        ensures IsSpace(s[k])
      {
        assert s[k] == l[k - i];
      }
    }
    r
  }

  /** A string made only of whitespace strips to the empty string, and only such a string does. */
  lemma {:induction false} StripEmpty(s: string)
    ensures Strip(s) == [] <==> forall k :: 0 <= k < |s| ==> IsSpace(s[k])
  {
    var r := Strip(s);
    var i :| 0 <= i <= |s| - |r| && StrippedAt(r, s, i);
    if r != [] {
      assert s[i] == r[0];
    }
  }

  /** Stripping is determined by `IsStripOf`: any string meeting it is `Strip(s)`. */
  lemma {:induction false} StripUnique(r: string, s: string)
    requires IsStripOf(r, s)
    ensures r == Strip(s)
  {
    var t := Strip(s);
    var i :| 0 <= i <= |s| - |r| && StrippedAt(r, s, i);
    var j :| 0 <= j <= |s| - |t| && StrippedAt(t, s, j);
    if r != [] && t != [] {
      // both start at the first non-space character and end at the last one
      assert s[i] == r[0] && s[j] == t[0];
      assert s[i + |r| - 1] == r[|r| - 1] && s[j + |t| - 1] == t[|t| - 1];
      assert i == j;
      assert |r| == |t|;
    }
  }

  /** Stripping twice is stripping once. */
  lemma StripIdempotent(s: string)
    ensures Strip(Strip(s)) == Strip(s)
  {
    var r := Strip(s);
    var i :| 0 <= i <= |s| - |r| && StrippedAt(r, s, i);
    assert StrippedAt(r, r, 0);
    StripUnique(r, r);
  }

  /** `[line.strip() for line in f if line.strip()]`. */
  function ParseElements(lines: seq<string>): (elements: seq<string>)
    ensures |elements| <= |lines|
    ensures forall k :: 0 <= k < |elements| ==> elements[k] != []
  {
    if lines == [] then []
    else
      var last := Strip(lines[|lines| - 1]);
      ParseElements(lines[..|lines| - 1]) + (if last != [] then [last] else [])
  }

  /** The positions of the lines the comprehension keeps, in increasing order. */
  function KeptLines(lines: seq<string>): seq<nat>
  {
    if lines == [] then []
    else
      KeptLines(lines[..|lines| - 1]) + (if Strip(lines[|lines| - 1]) != [] then [|lines| - 1] else [])
  }

  /**
   * `elements` is read off `lines` at the positions `idx`: element `k` is the
   * stripped line `idx[k]`, the positions increase, and every line left out
   * strips to the empty string.
   */
  ghost predicate ReadAt(lines: seq<string>, elements: seq<string>, idx: seq<nat>) {
    && |idx| == |elements|
    && StrippedLines(lines, elements, idx)
    && Increasing(idx)
    && OnlyBlankDropped(lines, idx)
  }

  /** Element `k` is line `idx[k]`, stripped. */
  ghost predicate StrippedLines(lines: seq<string>, elements: seq<string>, idx: seq<nat>)
    requires |idx| == |elements|
  {
    forall k :: 0 <= k < |idx| ==> idx[k] < |lines| && elements[k] == Strip(lines[idx[k]])
  }

  /** The kept line numbers increase strictly: line order is kept. */
  ghost predicate Increasing(idx: seq<nat>) {
    forall k, m :: 0 <= k < m < |idx| ==> idx[k] < idx[m]
  }

  /** Every line that was not kept strips to the empty string. */
  ghost predicate OnlyBlankDropped(lines: seq<string>, idx: seq<nat>) {
    forall i :: 0 <= i < |lines| && i !in idx ==> Strip(lines[i]) == []
  }

  /** Every element is a stripped non-blank line, no non-blank line is lost, and line order is kept. */
  lemma {:induction false} ParseKeepsOrder(lines: seq<string>)
    ensures ReadAt(lines, ParseElements(lines), KeptLines(lines))
  {
    if lines != [] {
      var n := |lines| - 1;
      ParseKeepsOrder(lines[..n]);
      var e, idx := ParseElements(lines[..n]), KeptLines(lines[..n]);
      var last := Strip(lines[n]);
      if last != [] {
        StrippedLinesExtend(lines, e, idx, [last], [n]);
        IncreasingExtend(idx, n);
        OnlyBlankDroppedExtend(lines, idx, [n]);
      } else {
        StrippedLinesExtend(lines, e, idx, [], []);
        OnlyBlankDroppedExtend(lines, idx, []);
      }
    }
  }

  /** Reading one more line keeps the earlier elements aligned with their lines. */
  lemma StrippedLinesExtend(lines: seq<string>, e: seq<string>, idx: seq<nat>, e1: seq<string>, idx1: seq<nat>)
    requires lines != [] && |idx| == |e| && |idx1| == |e1| <= 1
    requires StrippedLines(lines[..|lines| - 1], e, idx)
    requires idx1 != [] ==> idx1[0] == |lines| - 1 && e1[0] == Strip(lines[|lines| - 1])
    ensures StrippedLines(lines, e + e1, idx + idx1)
  {
    var n := |lines| - 1;
    forall k | 0 <= k < |idx + idx1|
      ensures (idx + idx1)[k] < |lines| && (e + e1)[k] == Strip(lines[(idx + idx1)[k]])
    {
      if k < |idx| {
        assert (idx + idx1)[k] == idx[k] && (e + e1)[k] == e[k];
        assert lines[..n][idx[k]] == lines[idx[k]];
      }
    }
  }

  /** A line number past every kept one keeps the sequence increasing. */
  lemma IncreasingExtend(idx: seq<nat>, n: nat)
    requires Increasing(idx)
    requires forall k :: 0 <= k < |idx| ==> idx[k] < n
    ensures Increasing(idx + [n])
  {
    forall k, m | 0 <= k < m < |idx + [n]|
      ensures (idx + [n])[k] < (idx + [n])[m]
    {
      assert (idx + [n])[k] == idx[k];
    }
  }

  /** Reading one more line drops it only when it is blank. */
  lemma OnlyBlankDroppedExtend(lines: seq<string>, idx: seq<nat>, idx1: seq<nat>)
    requires lines != []
    requires OnlyBlankDropped(lines[..|lines| - 1], idx)
    requires idx1 == [] ==> Strip(lines[|lines| - 1]) == []
    requires idx1 != [] ==> idx1 == [|lines| - 1]
    ensures OnlyBlankDropped(lines, idx + idx1)
  {
    var n := |lines| - 1;
    forall i | 0 <= i < |lines| && i !in idx + idx1
      ensures Strip(lines[i]) == []
    {
      if i < n {
        assert i !in idx;
        assert lines[..n][i] == lines[i];
      }
    }
  }
}
