/** Java's String.trim: drop every leading and trailing char at or below U+0020. */
module Text {

  predicate IsTrimmable(c: char) {
    c <= ' '
  }

  /** The first index at or after i whose char is kept: the leading scan of
      String.trim, which advances past trimmable chars. */
  function FirstKept(s: string, i: nat): (a: nat)
    requires i <= |s|
    ensures i <= a <= |s|
    ensures a == |s| || !IsTrimmable(s[a])
    ensures forall k :: i <= k < a ==> IsTrimmable(s[k])
    decreases |s| - i
  {
    if i < |s| && IsTrimmable(s[i]) then FirstKept(s, i + 1) else i
  }

  /** The end (exclusive) of the kept part, scanning back from j but not past a:
      the trailing scan of String.trim. */
  function LastKept(s: string, a: nat, j: nat): (b: nat)
    requires a <= j <= |s|
    ensures a <= b <= j
    ensures b == a || !IsTrimmable(s[b - 1])
    ensures forall k :: b <= k < j ==> IsTrimmable(s[k])
    decreases j
  {
    if a < j && IsTrimmable(s[j - 1]) then LastKept(s, a, j - 1) else j
  }

  /** t is s with a prefix of a trimmable chars and a suffix of trimmable chars cut away. */
  ghost predicate CutAt(s: string, t: string, a: int) {
    && 0 <= a <= |s| - |t|
    && t == s[a..a + |t|]
    && (forall k :: 0 <= k < a ==> IsTrimmable(s[k]))
    && (forall k :: a + |t| <= k < |s| ==> IsTrimmable(s[k]))
  }

  /** String.trim: the longest middle part of s that neither starts nor ends
      with a trimmable char, with only trimmable chars cut away around it. */
  function Trim(s: string): (t: string)
    ensures t == [] || (!IsTrimmable(t[0]) && !IsTrimmable(t[|t| - 1]))
  {
    var a := FirstKept(s, 0);
    var b := LastKept(s, a, |s|);
    s[a..b]
  }

  /** Trim cuts only trimmable chars away, from both ends. */
  lemma TrimCuts(s: string)
    ensures exists a :: CutAt(s, Trim(s), a)
  {
    var a := FirstKept(s, 0);
    assert CutAt(s, Trim(s), a);
  }

  /** Trimming twice is trimming once. */
  lemma TrimIdempotent(s: string)
    ensures Trim(Trim(s)) == Trim(s)
  {
    var t := Trim(s);
    assert FirstKept(t, 0) == 0;
    assert LastKept(t, 0, |t|) == |t|;
    assert t[0..|t|] == t;
  }
}
