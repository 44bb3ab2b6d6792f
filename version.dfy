/**
 * The immutable version record: major.minor.patch plus a release-candidate
 * counter, its five transitions and its rendering.  Fields are Java ints,
 * so a value loaded from a file may be negative.
 */
module Versions {
  import opened Text

  datatype Version = Version(major: int, minor: int, patch: int, releaseCandidate: int) {

    /** The fields by significance: 0 major, 1 minor, 2 patch, 3 release candidate. */
    function Field(i: nat): int
      requires i < 4
    {
      match i
      case 0 => major
      case 1 => minor
      case 2 => patch
      case _ => releaseCandidate
    }

    predicate InInt32Fields() {
      InInt32(major) && InInt32(minor) && InInt32(patch) && InInt32(releaseCandidate)
    }

    /** "M.m.p" when the release candidate is positive, followed by "-RCn" then. */
    function AsString(): (s: string)
      ensures ('R' in s) <==> releaseCandidate > 0
    {
      NoLetterIn(major);
      NoLetterIn(minor);
      NoLetterIn(patch);
      NoLetterIn(releaseCandidate);
      var base := IntToString(major) + "." + IntToString(minor) + "." + IntToString(patch);
      if releaseCandidate > 0 then base + "-RC" + IntToString(releaseCandidate) else base
    }

    /** Increments major; minor, patch and release candidate drop to 0. */
    function BumpMajor(): (r: Version)
      ensures IsBumpOf(this, r, 0) && Precedes(this, r)
    {
      Version(major + 1, 0, 0, 0)
    }

    /** Increments minor, keeps major; patch and release candidate drop to 0. */
    function BumpMinor(): (r: Version)
      ensures IsBumpOf(this, r, 1) && Precedes(this, r)
    {
      Version(major, minor + 1, 0, 0)
    }

    /** Increments patch, keeps major and minor; the release candidate drops to 0. */
    function BumpPatch(): (r: Version)
      ensures IsBumpOf(this, r, 2) && Precedes(this, r)
    {
      Version(major, minor, patch + 1, 0)
    }

    /** Increments the release candidate and keeps everything else. */
    function BumpRC(): (r: Version)
      ensures IsBumpOf(this, r, 3) && Precedes(this, r)
    {
      Version(major, minor, patch, releaseCandidate + 1)
    }

    /** Drops the release candidate, which finalises the release. */
    function ResetRC(): (r: Version)
      ensures SameBase(this, r) && r.releaseCandidate == 0
      ensures 'R' !in r.AsString()
      ensures releaseCandidate >= 0 ==> r == this || Precedes(r, this)
    {
      Version(major, minor, patch, 0)
    }
  }

  /** No character of a rendered int is a letter, so "-RC" can only come from the suffix. */
  lemma NoLetterIn(n: int)
    ensures 'R' !in IntToString(n) && '.' !in IntToString(n)
  {
    var s := IntToString(n);
    IntToStringChars(n);
    forall i | 0 <= i < |s| ensures s[i] != 'R' && s[i] != '.' {
      assert IsDigit(s[i]) || s[i] == '-';
    }
  }

  /**
   * The cascade rule every bump follows: field k goes up by one, every
   * more significant field is kept and every less significant one is 0.
   */
  ghost predicate IsBumpOf(v: Version, r: Version, k: nat)
    requires k < 4
  {
    forall i: nat :: i < 4 ==>
      r.Field(i) == if i < k then v.Field(i) else if i == k then v.Field(i) + 1 else 0
  }

  /** Strict lexicographic order on (major, minor, patch, releaseCandidate). */
  predicate Precedes(a: Version, b: Version) {
    a.major < b.major ||
    (a.major == b.major && (a.minor < b.minor ||
    (a.minor == b.minor && (a.patch < b.patch ||
    (a.patch == b.patch && a.releaseCandidate < b.releaseCandidate)))))
  }

  predicate SameBase(a: Version, b: Version) {
    a.major == b.major && a.minor == b.minor && a.patch == b.patch
  }

  /** Dropping the release candidate twice is the same as dropping it once. */
  lemma ResetRCIdempotent(v: Version)
    ensures v.ResetRC().ResetRC() == v.ResetRC()
  {
  }

  /** Bumping the release candidate twice adds two, so it is not idempotent. */
  lemma BumpRCNotIdempotent(v: Version)
    ensures v.BumpRC().BumpRC().releaseCandidate == v.releaseCandidate + 2
    ensures v.BumpRC().BumpRC() != v.BumpRC()
  {
  }

  /**
   * From a version with a non-negative release candidate, the three base
   * bumps and the reset render as final releases and bumpRC renders with
   * an "-RC" suffix.
   */
  lemma TransitionsRendering(v: Version)
    requires v.releaseCandidate >= 0
    ensures 'R' !in v.BumpMajor().AsString()
    ensures 'R' !in v.BumpMinor().AsString()
    ensures 'R' !in v.BumpPatch().AsString()
    ensures 'R' !in v.ResetRC().AsString()
    ensures 'R' in v.BumpRC().AsString()
  {
  }

  /** The cascade rule fixes the result of a bump completely. */
  lemma {:induction false} BumpIsDetermined(v: Version, r1: Version, r2: Version, k: nat)
    requires k < 4 && IsBumpOf(v, r1, k) && IsBumpOf(v, r2, k)
    ensures r1 == r2
  {
    assert r1.Field(0) == r2.Field(0) && r1.Field(1) == r2.Field(1);
    assert r1.Field(2) == r2.Field(2) && r1.Field(3) == r2.Field(3);
  }

  /** 0.0.0 bumped in major, minor, patch and RC order is 1.1.1-RC1. */
  lemma BumpSequenceFromZero()
    ensures Version(0, 0, 0, 0).BumpMajor().BumpMinor().BumpPatch().BumpRC() == Version(1, 1, 1, 1)
    ensures Version(1, 1, 1, 1).AsString() == "1.1.1-RC1"
  {
    IntToStringOfDigit(1);
    assert DigitChar(1) == '1';
    var one := IntToString(1);
    assert one == "1";
    assert Version(1, 1, 1, 1).AsString() == one + "." + one + "." + one + "-RC" + one;
  }

  /** Three RC bumps from 0.0.0 give RC 3; the reset then renders "0.0.0". */
  lemma ReleaseAfterThreeCandidates()
    ensures Version(0, 0, 0, 0).BumpRC().BumpRC().BumpRC() == Version(0, 0, 0, 3)
    ensures Version(0, 0, 0, 3).ResetRC().AsString() == "0.0.0"
  {
    IntToStringOfDigit(0);
    assert DigitChar(0) == '0';
    var zero := IntToString(0);
    assert zero == "0";
    assert Version(0, 0, 0, 0).AsString() == zero + "." + zero + "." + zero;
  }

  /** A marker character that neither prefix contains splits two equal strings the same way. */
  lemma SplitAtMarker(x1: string, r1: string, x2: string, r2: string, c: char)
    requires c !in x1 && c !in x2
    requires x1 + [c] + r1 == x2 + [c] + r2
    ensures x1 == x2 && r1 == r2
  {
    var s := x1 + [c] + r1;
    assert s[|x1|] == c && s[|x2|] == c;
    assert forall i :: 0 <= i < |x1| ==> s[i] == x1[i];
    assert forall i :: 0 <= i < |x2| ==> s[i] == x2[i];
    assert |x1| == |x2|;
    assert x1 == s[..|x1|] == x2;
    assert r1 == s[|x1| + 1..] == r2;
  }

  /** The text that follows the patch number in a rendering. */
  function RcSuffix(rc: int): string {
    if rc > 0 then "-RC" + IntToString(rc) else ""
  }

  lemma AsStringShape(v: Version)
    ensures v.AsString() ==
      IntToString(v.major) + ['.'] + (IntToString(v.minor) + ['.'] + (IntToString(v.patch) + RcSuffix(v.releaseCandidate)))
  {
  }

  lemma SuffixMarksCandidate(p: int, rc: int)
    ensures ('R' in IntToString(p) + RcSuffix(rc)) <==> rc > 0
  {
    NoLetterIn(p);
    NoLetterIn(rc);
    if rc > 0 {
      assert (IntToString(p) + RcSuffix(rc))[|IntToString(p)| + 1] == 'R';
    } else {
      assert IntToString(p) + RcSuffix(rc) == IntToString(p);
    }
  }

  lemma SplitBeforeCandidate(a1: string, b1: string, a2: string, b2: string)
    requires 'R' !in a1 && 'R' !in a2
    requires a1 + "-RC" + b1 == a2 + "-RC" + b2
    ensures a1 == a2 && b1 == b2
  {
    var c1, c2 := a1 + "-", a2 + "-";
    assert 'R' !in c1 && 'R' !in c2;
    assert a1 + "-RC" + b1 == c1 + ['R'] + ("C" + b1);
    assert a2 + "-RC" + b2 == c2 + ['R'] + ("C" + b2);
    SplitAtMarker(c1, "C" + b1, c2, "C" + b2, 'R');
    assert a1 == c1[..|a1|] && a2 == c2[..|a2|];
    assert b1 == ("C" + b1)[1..] && b2 == ("C" + b2)[1..];
  }

  lemma PatchAndSuffixInjective(p1: int, rc1: int, p2: int, rc2: int)
    requires rc1 >= 0 && rc2 >= 0
    requires IntToString(p1) + RcSuffix(rc1) == IntToString(p2) + RcSuffix(rc2)
    ensures p1 == p2 && rc1 == rc2
  {
    SuffixMarksCandidate(p1, rc1);
    SuffixMarksCandidate(p2, rc2);
    if rc1 > 0 {
      CandidateSuffixInjective(p1, rc1, p2, rc2);
    } else {
      assert IntToString(p1) + RcSuffix(rc1) == IntToString(p1);
      assert IntToString(p2) + RcSuffix(rc2) == IntToString(p2);
      IntToStringInjective(p1, p2);
    }
  }

  lemma CandidateSuffixInjective(p1: int, rc1: int, p2: int, rc2: int)
    requires rc1 > 0 && rc2 > 0
    requires IntToString(p1) + RcSuffix(rc1) == IntToString(p2) + RcSuffix(rc2)
    ensures p1 == p2 && rc1 == rc2
  {
    var a1, a2 := IntToString(p1), IntToString(p2);
    var b1, b2 := IntToString(rc1), IntToString(rc2);
    NoLetterIn(p1);
    NoLetterIn(p2);
    assert a1 + RcSuffix(rc1) == a1 + "-RC" + b1;
    assert a2 + RcSuffix(rc2) == a2 + "-RC" + b2;
    SplitBeforeCandidate(a1, b1, a2, b2);
    IntToStringInjective(rc1, rc2);
    IntToStringInjective(p1, p2);
  }

  /**
   * For release candidates that are not negative, the rendering loses
   * nothing: two versions that print the same are the same version.
   */
  lemma AsStringInjective(v: Version, w: Version)
    requires v.releaseCandidate >= 0 && w.releaseCandidate >= 0
    requires v.AsString() == w.AsString()
    ensures v == w
  {
    NoLetterIn(v.major); NoLetterIn(v.minor);
    NoLetterIn(w.major); NoLetterIn(w.minor);
    AsStringShape(v);
    AsStringShape(w);
    var pv := IntToString(v.patch) + RcSuffix(v.releaseCandidate);
    var pw := IntToString(w.patch) + RcSuffix(w.releaseCandidate);
    SplitAtMarker(IntToString(v.major), IntToString(v.minor) + ['.'] + pv,
                  IntToString(w.major), IntToString(w.minor) + ['.'] + pw, '.');
    SplitAtMarker(IntToString(v.minor), pv, IntToString(w.minor), pw, '.');
    IntToStringInjective(v.major, w.major);
    IntToStringInjective(v.minor, w.minor);
    PatchAndSuffixInjective(v.patch, v.releaseCandidate, w.patch, w.releaseCandidate);
  }
}
