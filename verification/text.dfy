/**
 Ruby's `String#strip`, which every route applies to the submitted name
 before validating it.
 */
module Text {

  /** The characters `strip` removes: NUL, tab, line feed, vertical tab,
      form feed, carriage return and space. */
  predicate IsSpace(c: char) {
    c == '\0' || c == '\t' || c == '\n' || c == '\U{B}' || c == '\U{C}' || c == '\r' || c == ' '
  }

  /** No leading and no trailing whitespace. */
  predicate IsStripped(s: string) {
    s == [] || (!IsSpace(s[0]) && !IsSpace(s[|s| - 1]))
  }

  /** Drops the leading whitespace: the result is a suffix of `s` and
      everything dropped is whitespace. */
  function TrimLeft(s: string): (r: string)
    ensures |r| <= |s| && r == s[|s| - |r|..]
    ensures forall i :: 0 <= i < |s| - |r| ==> IsSpace(s[i])
    ensures r == [] || !IsSpace(r[0])
  {
    if s != [] && IsSpace(s[0]) then TrimLeft(s[1..]) else s
  }

  /** Drops the trailing whitespace: the result is a prefix of `s` and
      everything dropped is whitespace. */
  function TrimRight(s: string): (r: string)
    ensures |r| <= |s| && r == s[..|r|]
    ensures forall i :: |r| <= i < |s| ==> IsSpace(s[i])
    ensures r == [] || !IsSpace(r[|r| - 1])
  {
    if s != [] && IsSpace(s[|s| - 1]) then TrimRight(s[..|s| - 1]) else s
  }

  /** `s.strip`: the infix `s[lo..lo + |r|]` of `s` that neither starts nor
      ends with whitespace, everything around it being whitespace (`lo` is
      the number of leading whitespace characters). */
  function Strip(s: string): (r: string)
    ensures IsStripped(r)
    ensures |r| <= |s|
    ensures var lo := |s| - |TrimLeft(s)|;
            && lo + |r| <= |s| && s[lo..lo + |r|] == r
            && (forall i :: 0 <= i < lo ==> IsSpace(s[i]))
            && (forall i :: lo + |r| <= i < |s| ==> IsSpace(s[i]))
  {
    var left := TrimLeft(s);
    var r := TrimRight(left);
    StripFrame(s, left, r);
    r
  }

  /** Where the stripped infix sits inside `s`, and that it is stripped,
      given what the two trims promise. */
  lemma StripFrame(s: string, left: string, r: string)
    requires |left| <= |s| && left == s[|s| - |left|..]
    requires left == [] || !IsSpace(left[0])
    requires |r| <= |left| && r == left[..|r|]
    requires r == [] || !IsSpace(r[|r| - 1])
    requires forall i :: |r| <= i < |left| ==> IsSpace(left[i])
    ensures IsStripped(r)
    ensures var lo := |s| - |left|;
            && s[lo..lo + |r|] == r
            && (forall i :: lo + |r| <= i < |s| ==> IsSpace(s[i]))
  {
    var lo := |s| - |left|;
    if r != [] {
      assert r[0] == left[0];
    }
    assert s[lo..lo + |r|] == r;
    forall i | lo + |r| <= i < |s|
      ensures IsSpace(s[i])
    {
      assert s[i] == left[i - lo];
    }
  }

  /** A string that is already stripped is left alone. */
  lemma StripStripped(s: string)
    requires IsStripped(s)
    ensures Strip(s) == s
  {
  }

  /** `strip` is idempotent. */
  lemma StripIdempotent(s: string)
    ensures Strip(Strip(s)) == Strip(s)
  {
    StripStripped(Strip(s));
  }
}
