/** Rotations of a sequence: the order in which a first-in first-out work
    list hands its elements back after some have been moved to the back. */
module Rotation {

  /** `s` with its first `k` elements moved to the back. */
  function Rotate<T>(s: seq<T>, k: nat): (r: seq<T>)
    requires k <= |s|
    ensures |r| == |s| && multiset(r) == multiset(s)
  {
    assert s == s[..k] + s[k..];
    s[k..] + s[..k]
  }

  ghost predicate IsRotation<T>(a: seq<T>, b: seq<T>) {
    exists k: nat :: k <= |b| && a == Rotate(b, k)
  }

  /** Moving a prefix to the back is a rotation. */
  lemma RotateConcat<T>(x: seq<T>, y: seq<T>)
    ensures IsRotation(y + x, x + y)
  {
    var s := x + y;
    assert s[|x|..] == y && s[..|x|] == x;
    assert y + x == Rotate(s, |x|);
  }

  /** Slicing a concatenation inside its first part. */
  lemma SliceInFirst<T>(a: seq<T>, b: seq<T>, d: nat)
    requires d <= |a|
    ensures (a + b)[d..] == a[d..] + b && (a + b)[..d] == a[..d]
  {
  }

  /** Slicing a concatenation inside its second part. */
  lemma SliceInSecond<T>(a: seq<T>, b: seq<T>, d: nat)
    requires |a| <= d <= |a| + |b|
    ensures (a + b)[d..] == b[d - |a|..] && (a + b)[..d] == a + b[..d - |a|]
  {
  }

  /** Two rotations that together stay within the length add up. */
  lemma RotateShort<T>(s: seq<T>, k: nat, d: nat)
    requires k + d <= |s|
    ensures Rotate(Rotate(s, k), d) == Rotate(s, k + d)
  {
    SliceInFirst(s[k..], s[..k], d);
    assert s[k..][d..] == s[k + d..];
    SliceInFirst(s[..k + d], s[k + d..], k);
    assert s[..k + d][k..] == s[k..][..d];
  }

  /** Two rotations that together pass the length wrap around. */
  lemma RotateLong<T>(s: seq<T>, k: nat, d: nat)
    requires k <= |s| && d <= |s| < k + d
    ensures Rotate(Rotate(s, k), d) == Rotate(s, k + d - |s|)
  {
    var k' := k + d - |s|;
    var a, b, c := s[k'..k], s[k..], s[..k'];
    assert Rotate(Rotate(s, k), d) == a + (b + c) by {
      SliceInSecond(s[k..], s[..k], d);
      assert s[..k][k'..] == a && s[..k][..k'] == c;
    }
    assert a + b == s[k'..] by {
      SliceInFirst(s[k'..], [], k - k');
    }
    ConcatAssoc(a, b, c);
  }

  lemma ConcatAssoc<T>(a: seq<T>, b: seq<T>, c: seq<T>)
    ensures a + (b + c) == (a + b) + c
  {
  }

  /** Two rotations in a row are one rotation. */
  lemma RotateRotate<T>(s: seq<T>, k: nat, d: nat)
    requires k <= |s| && d <= |s|
    ensures IsRotation(Rotate(Rotate(s, k), d), s)
  {
    if k + d <= |s| {
      RotateShort(s, k, d);
    } else {
      RotateLong(s, k, d);
    }
  }

  lemma RotationTransitive<T>(a: seq<T>, b: seq<T>, c: seq<T>)
    requires IsRotation(a, b) && IsRotation(b, c)
    ensures IsRotation(a, c)
  {
    var d: nat :| d <= |b| && a == Rotate(b, d);
    var k: nat :| k <= |c| && b == Rotate(c, k);
    RotateRotate(c, k, d);
  }

  /** A rotation has the same elements, each as often. */
  lemma RotationMultiset<T>(a: seq<T>, b: seq<T>)
    requires IsRotation(a, b)
    ensures |a| == |b| && multiset(a) == multiset(b)
  {
    var k: nat :| k <= |b| && a == Rotate(b, k);
  }
}
