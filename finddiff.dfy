// The playground's JSON editor applies a new document as one replacement of
// the old text: `findDiff` finds the range that differs by skipping the
// common prefix and then the common suffix.
module Playground {
  import opened Wrappers

  /** A replacement of `oldStr[start..end]` by `text`. */
  datatype Diff = Diff(start: nat, text: string, end: nat)

  /** The new document as `findDiff` reads it: `newStr || ''`. */
  function NewText(newStr: Option<string>): string
  {
    if newStr.Some? then newStr.value else ""
  }

  /** The result of applying a replacement to the old text. */
  function Apply(before: string, d: Diff): string
    requires d.start <= d.end <= |before|
  {
    before[..d.start] + d.text + before[d.end..]
  }

  /** The length of the longest common prefix. */
  function CommonPrefix(a: string, b: string): (n: nat)
    ensures n <= |a| && n <= |b|
    ensures a[..n] == b[..n]
    ensures n < |a| && n < |b| ==> a[n] != b[n]
  {
    if a == [] || b == [] || a[0] != b[0] then 0
    else
      var n := 1 + CommonPrefix(a[1..], b[1..]);
      assert a[..n] == [a[0]] + a[1..][..n - 1];
      assert b[..n] == [b[0]] + b[1..][..n - 1];
      n
  }

  /**
   * `findDiff(oldStr, newStr)`: null for identical texts; otherwise the
   * common prefix is skipped, and unless one text is a prefix of the other
   * the common suffix is skipped as well, never crossing the prefix.
   */
  method FindDiff(before: string, newStr: Option<string>) returns (r: Option<Diff>)
    ensures r.None? <==> newStr == Some(before)
    ensures r.Some? ==> r.value.start <= r.value.end <= |before| && Apply(before, r.value) == NewText(newStr)
    ensures r.Some? ==> r.value.start == CommonPrefix(before, NewText(newStr))
    ensures r.Some? && r.value.start == |before| ==> r.value.end == |before| && r.value.text == NewText(newStr)[|before|..]
    ensures r.Some? && r.value.start == |NewText(newStr)| ==> r.value.end == |before| && r.value.text == ""
    ensures r.Some? ==> MaximalSuffix(before, NewText(newStr), r.value)
  {
    if newStr == Some(before) {
      return None;
    }
    var nw := NewText(newStr);
    var minLength := if |before| < |nw| then |before| else |nw|;
    var start := 0;
    while start < minLength && before[start] == nw[start]
      invariant 0 <= start <= minLength
      invariant forall i :: 0 <= i < start ==> before[i] == nw[i]
    {
      start := start + 1;
    }
    PrefixIsCommon(before, nw, start);
    if start == minLength {
      PrefixDiff(before, nw, start);
      return Some(Diff(start, nw[start..], |before|));
    }
    var endOld, endNew := TrimSuffix(before, nw, start);
    MiddleDiff(before, nw, start, endOld, endNew);
    r := Some(Diff(start, nw[start..endNew], endOld));
  }

  /** When one text is a prefix of the other, the rest of the new text replaces the end of the old one. */
  lemma PrefixDiff(before: string, nw: string, start: nat)
    requires start == |before| || start == |nw|
    requires start <= |before| && start <= |nw| && forall i :: 0 <= i < start ==> before[i] == nw[i]
    ensures var d := Diff(start, nw[start..], |before|);
      d.start <= d.end <= |before| && Apply(before, d) == nw && MaximalSuffix(before, nw, d)
  {
    Splice(before, nw, start, |before|, |nw|);
    var d := Diff(start, nw[start..], |before|);
    assert |d.text| == |nw| - start && before[|before|..] == [] == nw[|nw|..];
  }

  /** Otherwise the differing middle, between the common prefix and the common suffix, is replaced. */
  lemma MiddleDiff(before: string, nw: string, start: nat, endOld: nat, endNew: nat)
    requires start < |before| && start < |nw| && forall i :: 0 <= i < start ==> before[i] == nw[i]
    requires start <= endOld <= |before| && start <= endNew <= |nw|
    requires |before| - endOld == |nw| - endNew
    requires forall k :: endOld <= k < |before| ==> before[k] == nw[k - endOld + endNew]
    requires endOld == start || endNew == start || before[endOld - 1] != nw[endNew - 1]
    ensures var d := Diff(start, nw[start..endNew], endOld);
      d.start <= d.end <= |before| && Apply(before, d) == nw && MaximalSuffix(before, nw, d)
  {
    Splice(before, nw, start, endOld, endNew);
  }

  /** The second loop of `findDiff`: steps both ends back over the common suffix, down to `start` at most. */
  method TrimSuffix(before: string, nw: string, start: nat) returns (endOld: nat, endNew: nat)
    requires start <= |before| && start <= |nw|
    ensures start <= endOld <= |before| && start <= endNew <= |nw|
    ensures |before| - endOld == |nw| - endNew
    ensures forall k :: endOld <= k < |before| ==> before[k] == nw[k - endOld + endNew]
    ensures endOld == start || endNew == start || before[endOld - 1] != nw[endNew - 1]
  {
    endOld := |before|;
    endNew := |nw|;
    while endOld > start && endNew > start && before[endOld - 1] == nw[endNew - 1]
      invariant start <= endOld <= |before| && start <= endNew <= |nw|
      invariant |before| - endOld == |nw| - endNew
      invariant forall k :: endOld <= k < |before| ==> before[k] == nw[k - endOld + endNew]
    {
      endOld := endOld - 1;
      endNew := endNew - 1;
    }
  }

  /**
   * The replacement keeps the longest common suffix that does not reach
   * into the common prefix: the kept tails agree, and either one of them
   * reaches the start or the characters before them differ.
   */
  predicate MaximalSuffix(before: string, nw: string, d: Diff)
  {
    var endNew := d.start + |d.text|;
    && d.start <= d.end <= |before| && endNew <= |nw|
    && |before| - d.end == |nw| - endNew
    && before[d.end..] == nw[endNew..]
    && (d.end == d.start || endNew == d.start || before[d.end - 1] != nw[endNew - 1])
  }

  /** Replacing the differing middle of `before` by that of `nw` gives `nw`. */
  lemma Splice(before: string, nw: string, start: nat, endOld: nat, endNew: nat)
    requires start <= endOld <= |before| && start <= endNew <= |nw|
    requires forall i :: 0 <= i < start ==> before[i] == nw[i]
    requires |before| - endOld == |nw| - endNew
    requires forall k :: endOld <= k < |before| ==> before[k] == nw[k - endOld + endNew]
    ensures before[..start] == nw[..start] && before[endOld..] == nw[endNew..]
    ensures Apply(before, Diff(start, nw[start..endNew], endOld)) == nw
  {
    assert before[..start] == nw[..start];
    assert before[endOld..] == nw[endNew..];
    assert nw == nw[..start] + nw[start..endNew] + nw[endNew..];
  }

  /** A loop that stops at the first difference has found the longest common prefix. */
  lemma PrefixIsCommon(a: string, b: string, n: nat)
    requires n <= |a| && n <= |b| && forall i :: 0 <= i < n ==> a[i] == b[i]
    requires n < |a| && n < |b| ==> a[n] != b[n]
    ensures n == CommonPrefix(a, b)
  {
    var m := CommonPrefix(a, b);
    assert forall i | 0 <= i < m :: a[i] == a[..m][i] == b[..m][i] == b[i];
  }

  /** Applying the diff of two different texts gives the new text; equal texts give no diff. */
  lemma FindDiffNoneIffEqual(before: string, nw: string)
    ensures CommonPrefix(before, nw) == |before| == |nw| <==> before == nw
  {
    if CommonPrefix(before, nw) == |before| == |nw| {
      assert before == before[..|before|] && nw == nw[..|nw|];
    }
  }
}
