/**
 * The parts of Python's `posixpath` (os.path on POSIX) and of `str` that
 * the web application relies on: `rfind`, `join`, `basename`, `dirname`
 * and `splitext`, on strings of characters.
 */
module PosixPath {

  /** `s.rfind(c)`: the index of the last `c` in `s`, or -1 when there is none. */
  function LastIndex(s: string, c: char): (r: int)
    ensures -1 <= r < |s|
    ensures r == -1 <==> c !in s
    ensures r >= 0 ==> s[r] == c
    ensures forall j :: r < j < |s| ==> s[j] != c
    decreases |s|
  {
    if s == [] then -1
    else if s[|s| - 1] == c then |s| - 1
    else LastIndex(s[..|s| - 1], c)
  }

  predicate StartsWithSlash(s: string) {
    |s| > 0 && s[0] == '/'
  }

  /** One step of `posixpath.join`: an absolute segment replaces what was joined so far. */
  function JoinStep(path: string, b: string): (r: string)
    ensures EndsWithSegment(r, b)
    ensures StartsWithSlash(b) ==> r == b
    ensures !StartsWithSlash(b) ==> |path| <= |r| && r[..|path|] == path
  {
    if StartsWithSlash(b) then b
    else if path == [] || path[|path| - 1] == '/' then path + b
    else path + "/" + b
  }

  /** `p` ends with the segment `b`, which is all of `p` or follows a slash. */
  predicate EndsWithSegment(p: string, b: string) {
    |b| <= |p| && p[|p| - |b|..] == b && (|p| == |b| || p[|p| - |b| - 1] == '/')
  }

  predicate NoAbsolute(parts: seq<string>) {
    forall i :: 0 <= i < |parts| ==> !StartsWithSlash(parts[i])
  }

  /**
   * `os.path.join(a, *parts)`: the result ends with the last segment, and
   * when no segment is absolute it starts with `a`.
   */
  function Join(a: string, parts: seq<string>): (r: string)
    ensures parts != [] ==> EndsWithSegment(r, parts[|parts| - 1])
    ensures NoAbsolute(parts) ==> |a| <= |r| && r[..|a|] == a
    decreases |parts|
  {
    if parts == [] then a
    else
      var next := JoinStep(a, parts[0]);
      var rest := parts[1..];
      assert rest != [] ==> rest[|rest| - 1] == parts[|parts| - 1];
      assert NoAbsolute(parts) ==> NoAbsolute(rest) && next[..|a|] == a by {
        if NoAbsolute(parts) {
          assert !StartsWithSlash(parts[0]);
          forall i | 0 <= i < |rest| ensures !StartsWithSlash(rest[i]) {
            assert rest[i] == parts[i + 1];
          }
        }
      }
      Join(next, rest)
  }

  /** `os.path.basename(p)`: what follows the last slash. */
  function Basename(p: string): (r: string)
    ensures '/' !in r
    ensures |r| <= |p| && p[|p| - |r|..] == r
    ensures |r| == |p| || p[|p| - |r| - 1] == '/'
  {
    p[LastIndex(p, '/') + 1..]
  }

  predicate AllSlashes(s: string) {
    forall i :: 0 <= i < |s| ==> s[i] == '/'
  }

  /** `s.rstrip('/')`: the longest prefix not ending in a slash, with only slashes cut off. */
  function StripTrailingSlashes(s: string): (r: string)
    ensures |r| <= |s| && r == s[..|r|]
    ensures r == [] || r[|r| - 1] != '/'
    ensures AllSlashes(s[|r|..])
    decreases |s|
  {
    if s != [] && s[|s| - 1] == '/' then
      var r := StripTrailingSlashes(s[..|s| - 1]);
      assert s[|r|..] == s[..|s| - 1][|r|..] + ['/'];
      r
    else s
  }

  /**
   * `os.path.dirname(p)`: the head up to and including the last slash, with
   * its trailing slashes removed unless it is made of slashes only.
   */
  function Dirname(p: string): (r: string)
    ensures |r| <= |p| && r == p[..|r|]
    ensures var k := LastIndex(p, '/') + 1;
      |r| <= k && AllSlashes(p[|r|..k]) &&
      (AllSlashes(p[..k]) ==> r == p[..k]) &&
      (!AllSlashes(p[..k]) ==> r != [] && r[|r| - 1] != '/')
  {
    var k := LastIndex(p, '/') + 1;
    var head := p[..k];
    if head != [] && !AllSlashes(head) then
      var r := StripTrailingSlashes(head);
      assert p[|r|..k] == head[|r|..];
      assert head[0..] == head;
      r
    else head
  }

  /**
   * The extension part of `os.path.splitext(p)`: from the last dot of the
   * final component, provided that component has a character other than a
   * dot before it (leading dots do not start an extension); otherwise empty.
   * It is a suffix of the path that starts with a dot and holds no other dot
   * and no slash.
   */
  function Extension(p: string): (r: string)
    ensures |r| <= |p| && p[|p| - |r|..] == r
    ensures r != [] ==> r[0] == '.' && '.' !in r[1..] && '/' !in r
  {
    var sep := LastIndex(p, '/');
    var dot := LastIndex(p, '.');
    if dot > sep && exists j | sep + 1 <= j < dot :: p[j] != '.' then
      assert forall k :: 1 <= k < |p| - dot ==> p[dot..][k] == p[dot + k];
      p[dot..]
    else ""
  }

  /**
   * The converse: a suffix that starts at a dot, has no further dot or
   * slash, and follows some non-dot character of the final component is
   * exactly the extension.
   */
  lemma ExtensionFromSuffix(p: string, k: nat)
    requires k < |p| && p[k] == '.'
    requires forall j :: k < j < |p| ==> p[j] != '.' && p[j] != '/'
    requires exists j :: LastIndex(p, '/') < j < k && p[j] != '.'
    ensures Extension(p) == p[k..]
  {
    var sep := LastIndex(p, '/');
    var dot := LastIndex(p, '.');
    assert dot >= k;
    assert dot == k;
    var j :| sep < j < k && p[j] != '.';
    assert sep + 1 <= j < dot && p[j] != '.';
  }

  /** A segment that starts with a slash discards everything joined before it. */
  lemma {:induction false} JoinAbsoluteResets(a: string, parts: seq<string>, k: nat)
    requires k < |parts| && StartsWithSlash(parts[k])
    ensures Join(a, parts) == Join(parts[k], parts[k + 1..])
    decreases k
  {
    if k == 0 {
      assert parts[1..] == parts[k + 1..];
    } else {
      JoinAbsoluteResets(JoinStep(a, parts[0]), parts[1..], k - 1);
      assert parts[1..][k - 1 + 1..] == parts[k + 1..];
    }
  }

  /** Joining one more segment at the end is one more `JoinStep`. */
  lemma {:induction false} JoinSnoc(a: string, parts: seq<string>, b: string)
    ensures Join(a, parts + [b]) == JoinStep(Join(a, parts), b)
    decreases |parts|
  {
    if parts == [] {
      assert [b][1..] == [];
    } else {
      assert (parts + [b])[1..] == parts[1..] + [b];
      JoinSnoc(JoinStep(a, parts[0]), parts[1..], b);
    }
  }

  /** When the last segment has no slash, it is exactly the final component of the joined path. */
  lemma JoinBasename(a: string, parts: seq<string>)
    requires parts != [] && '/' !in parts[|parts| - 1]
    ensures Basename(Join(a, parts)) == parts[|parts| - 1]
  {
    SegmentBasename(Join(a, parts), parts[|parts| - 1]);
  }

  /** A slash-free segment at the end of a path, after a slash or alone, is its base name. */
  lemma SegmentBasename(p: string, b: string)
    requires EndsWithSegment(p, b) && '/' !in b
    ensures Basename(p) == b
  {
    var k := |p| - |b|;
    forall j | k <= j < |p| ensures p[j] != '/' {
      assert p[j] == p[k..][j - k];
    }
    if k == 0 {
      assert p == p[k..];
    } else {
      assert LastIndex(p, '/') == k - 1;
    }
  }


}
