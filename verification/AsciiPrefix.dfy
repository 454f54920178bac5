/** ASCII case-insensitive prefix stripping over UTF-8 text. */
module AsciiPrefix {
  import opened Prelude
  import opened Utf8

  function Lower(b: byte): byte {
    if 0x41 <= b <= 0x5A then b + 0x20 else b
  }

  /** `str::eq_ignore_ascii_case`. */
  predicate EqIgnoreAsciiCase(a: Bytes, b: Bytes) {
    |a| == |b| && forall i :: 0 <= i < |a| ==> Lower(a[i]) == Lower(b[i])
  }

  /** `strip_prefix_ignore_ascii_case`. Slicing the rest needs the boundary that `get` has checked. */
  function Strip(s: Bytes, prefix: Bytes): Option<Bytes> {
    var head :- GetTo(s, |prefix|);
    if EqIgnoreAsciiCase(head, prefix) then
      assert |prefix| <= |s| && IsCharBoundary(s, |prefix|);
      Some(s[|prefix|..])
    else None
  }

  /** `s` starts with `prefix` up to ASCII case, as bytes. */
  predicate StartsWithIgnoringCase(s: Bytes, prefix: Bytes) {
    |prefix| <= |s| && EqIgnoreAsciiCase(s[..|prefix|], prefix)
  }

  lemma FoldedCharLength(s: Bytes, t: Bytes)
    requires EqIgnoreAsciiCase(s, t)
    ensures CharLength(s) == CharLength(t)
  {
    assert forall i :: 0 <= i < |s| ==> (s[i] >= 0x80 || t[i] >= 0x80 ==> s[i] == t[i]);
  }

  /** Folding ASCII case keeps UTF-8 validity. */
  lemma {:induction false} FoldedValidity(s: Bytes, t: Bytes)
    requires EqIgnoreAsciiCase(s, t)
    ensures Valid(s) <==> Valid(t)
  {
    FoldedCharLength(s, t);
    var n := CharLength(s);
    if n == 0 {
    } else {
      FoldedValidity(s[n..], t[n..]);
    }
  }

  /**
   * The boundary check loses nothing and lets nothing through: the result is the rest exactly when the bytes match,
   * the cut is at a character boundary, and the rest is valid text.
   */
  lemma StripIsExact(s: Bytes, prefix: Bytes)
    requires Valid(s) && Valid(prefix)
    ensures Strip(s, prefix) ==
            if StartsWithIgnoringCase(s, prefix) then Some(s[|prefix|..]) else None
    ensures Strip(s, prefix).Some? ==> IsCharBoundary(s, |prefix|) && Valid(Strip(s, prefix).value)
  {
    if |prefix| <= |s| {
      BoundaryIsSplit(s, |prefix|);
      if StartsWithIgnoringCase(s, prefix) {
        FoldedValidity(s[..|prefix|], prefix);
      }
    }
  }

  lemma EqConcat(a: Bytes, b: Bytes, p: Bytes, q: Bytes)
    requires |a| == |p| && |b| == |q|
    ensures EqIgnoreAsciiCase(a + b, p + q) <==> EqIgnoreAsciiCase(a, p) && EqIgnoreAsciiCase(b, q)
  {
    if EqIgnoreAsciiCase(a + b, p + q) {
      assert forall i :: 0 <= i < |a| ==> (a + b)[i] == a[i] && (p + q)[i] == p[i];
      assert forall i :: 0 <= i < |b| ==> (a + b)[|a| + i] == b[i] && (p + q)[|a| + i] == q[i];
    }
  }

  lemma StartsConcat(s: Bytes, p: Bytes, q: Bytes)
    requires |p| <= |s|
    ensures StartsWithIgnoringCase(s, p + q) <==> StartsWithIgnoringCase(s, p) && StartsWithIgnoringCase(s[|p|..], q)
  {
    if |p + q| <= |s| {
      assert s[..|p + q|] == s[..|p|] + s[|p|..][..|q|];
      EqConcat(s[..|p|], s[|p|..][..|q|], p, q);
    }
  }

  /** Stripping a concatenation is stripping its parts in turn. */
  lemma StripConcat(s: Bytes, p: Bytes, q: Bytes)
    requires Valid(s) && Valid(p) && Valid(q)
    ensures Valid(p + q)
    ensures Strip(s, p + q) == if Strip(s, p).None? then None else Strip(Strip(s, p).value, q)
  {
    ValidConcat(p, q);
    StripIsExact(s, p);
    StripIsExact(s, p + q);
    if |p| <= |s| {
      StartsConcat(s, p, q);
    }
    if Strip(s, p).Some? {
      StripIsExact(s[|p|..], q);
      if |p + q| <= |s| {
        assert s[|p|..][|q|..] == s[|p + q|..];
      }
    }
  }

  /** Case never matters: a match is a match for every spelling of the prefix, with the same rest. */
  lemma StripFoldsPrefix(s: Bytes, p: Bytes, q: Bytes)
    requires Valid(s) && EqIgnoreAsciiCase(p, q)
    ensures Strip(s, p) == Strip(s, q)
  {}

  /** Two bytes are equal up to ASCII case when they are the same or the two cases of one letter, and not otherwise. */
  lemma CaseFolding(a: byte, b: byte)
    ensures Lower(a) == Lower(b) <==> a == b || CasesOfALetter(a, b) || CasesOfALetter(b, a)
  {}

  predicate CasesOfALetter(upper: byte, lower: byte) { 'A' as int <= upper <= 'Z' as int && lower == upper + 0x20 }
}
