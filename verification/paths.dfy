/**
 POSIX path splitting and joining as Python's `os.path.split` and the
 two-argument `os.path.join` perform them, with '/' as the only separator.
 */
module Paths {

  predicate NoSlash(s: string) {
    forall k :: 0 <= k < |s| ==> s[k] != '/'
  }

  predicate AllSlashes(s: string) {
    forall k :: 0 <= k < |s| ==> s[k] == '/'
  }

  /**
   The directory parts `Split` can return: empty, a run of slashes (the
   root), or a string that does not end in '/'.
   */
  predicate IsDirPart(h: string) {
    h == [] || AllSlashes(h) || h[|h| - 1] != '/'
  }

  /** Position just after the last '/' of `p`, or 0 when `p` has none. */
  function TailStart(p: string): (i: nat)
    ensures i <= |p|
    ensures i > 0 ==> p[i - 1] == '/'
    ensures NoSlash(p[i..])
    decreases |p|
  {
    if |p| == 0 then 0
    else if p[|p| - 1] == '/' then |p|
    else TailStart(p[..|p| - 1])
  }

  /** `h.rstrip('/')`: drops every trailing slash. */
  function StripTrailingSlashes(h: string): (r: string)
    ensures |r| <= |h| && h[..|r|] == r
    ensures r == [] || r[|r| - 1] != '/'
    ensures forall k :: |r| <= k < |h| ==> h[k] == '/'
    decreases |h|
  {
    if |h| > 0 && h[|h| - 1] == '/' then StripTrailingSlashes(h[..|h| - 1]) else h
  }

  /**
   `os.path.split(p)`: the tail is everything after the last '/'; the head
   is everything up to and including it, with trailing slashes removed
   unless the head consists of slashes only.
   */
  function Split(p: string): (string, string) {
    var i := TailStart(p);
    var head := p[..i];
    (if head != [] && !AllSlashes(head) then StripTrailingSlashes(head) else head, p[i..])
  }

  /**
   The parts `Split` returns: the tail is everything after the last '/',
   the directory part begins the path, and nothing but slashes lie in
   between; a directory part made only of slashes is kept whole.
   */
  lemma SplitParts(p: string)
    ensures NoSlash(Split(p).1)
    ensures IsDirPart(Split(p).0)
    ensures |Split(p).0| + |Split(p).1| <= |p|
    ensures p[..|Split(p).0|] == Split(p).0 && p[|p| - |Split(p).1|..] == Split(p).1
    ensures forall k :: |Split(p).0| <= k < |p| - |Split(p).1| ==> p[k] == '/'
    ensures Split(p).0 == [] <==> TailStart(p) == 0
    ensures Split(p).1 == p[TailStart(p)..]
    ensures AllSlashes(p[..TailStart(p)]) ==> Split(p).0 == p[..TailStart(p)]
  {
    var i := TailStart(p);
    var head := p[..i];
    if head != [] && !AllSlashes(head) {
      var dir := StripTrailingSlashes(head);
      assert Split(p) == (dir, p[i..]);
    } else {
      assert Split(p) == (head, p[i..]);
    }
  }

  /**
   `os.path.join(a, b)`: `b` when it is absolute; otherwise `b` appended to
   `a`, with a '/' in between unless `a` is empty or already ends in one.
   */
  function Join(a: string, b: string): string {
    if |b| > 0 && b[0] == '/' then b
    else if a == [] || a[|a| - 1] == '/' then a + b
    else a + "/" + b
  }

  /**
   The joined path ends with `b`; an absolute `b` replaces `a`, and a
   relative one follows `a` after exactly one '/' when `a` is non-empty and
   does not already end in one, and directly otherwise.
   */
  lemma JoinParts(a: string, b: string)
    ensures var r := Join(a, b);
      && |r| >= |b| && r[|r| - |b|..] == b
      && (|b| > 0 && b[0] == '/' ==> r == b)
      && (!(|b| > 0 && b[0] == '/') ==>
            && |r| == |a| + |b| + (if a == [] || a[|a| - 1] == '/' then 0 else 1)
            && r[..|a|] == a
            && AllSlashes(r[|a|..|r| - |b|]))
  {
  }

  /** Appending text without a slash does not move the last slash. */
  lemma {:induction false} TailStartAppend(p: string, s: string)
    requires NoSlash(s)
    ensures TailStart(p + s) == TailStart(p)
    decreases |s|
  {
    if |s| > 0 {
      assert (p + s)[..|p + s| - 1] == p + s[..|s| - 1];
      TailStartAppend(p, s[..|s| - 1]);
    } else {
      assert p + s == p;
    }
  }

  /**
   Appending text without a slash to a path leaves its directory part alone
   and extends its last component.
   */
  lemma SplitAppend(p: string, s: string)
    requires NoSlash(s)
    ensures Split(p + s) == (Split(p).0, Split(p).1 + s)
  {
    TailStartAppend(p, s);
    var i := TailStart(p);
    assert (p + s)[..i] == p[..i];
    assert (p + s)[i..] == p[i..] + s;
  }

  /** A path ending in a slash-free name can serve as a directory part. */
  lemma JoinNameIsDirPart(d: string, n: string)
    requires n != [] && NoSlash(n)
    ensures IsDirPart(Join(d, n))
  {
    var r := Join(d, n);
    JoinParts(d, n);
    assert r[|r| - 1] == r[|r| - |n|..][|n| - 1];
  }

  /**
   Joining a directory part with a single non-empty name and splitting the
   result gives back the directory part and the name.
   */
  lemma SplitJoin(d: string, n: string)
    requires IsDirPart(d)
    requires n != [] && NoSlash(n)
    ensures Split(Join(d, n)) == (d, n)
  {
    if d == [] {
      assert Join(d, n) == [] + n;
      TailStartAppend([], n);
    } else if d[|d| - 1] == '/' {
      TailStartAppend(d, n);
    } else {
      var q := d + "/";
      assert Join(d, n) == q + n;
      TailStartAppend(q, n);
      assert q[..|q|] == q;
      assert !AllSlashes(q) by { assert q[|d| - 1] != '/'; }
      assert q[..|q| - 1] == d;
    }
  }
}
