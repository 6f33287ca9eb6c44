/** The POSIX flavour of Python's `os.path`: `join`, `split`, `dirname`, `basename`
    and `splitext`, with `/` as the only separator. */
module PosixPath {
  import opened Text

  /** `s.rfind(c)`: the index of the last `c` in `s`, or -1 when there is none. */
  function RFind(s: string, c: char): (i: int)
    ensures -1 <= i < |s|
    ensures i >= 0 ==> s[i] == c
    ensures forall k | i < k < |s| :: s[k] != c
    decreases |s|
  {
    if s == [] then -1
    else if s[|s| - 1] == c then |s| - 1
    else RFind(s[..|s| - 1], c)
  }

  predicate IsAbsolute(p: string) {
    StartsWith(p, "/")
  }

  /** `os.path.join(a, b)`: an absolute `b` discards `a`; otherwise `b` is appended
      with one `/` in between unless `a` is empty or already ends with `/`. */
  function Join(a: string, b: string): (r: string)
    ensures EndsWith(r, b)
    ensures IsAbsolute(b) ==> r == b
    ensures !IsAbsolute(b) ==> StartsWith(r, a) && |r| <= |a| + 1 + |b|
  {
    if IsAbsolute(b) then b
    else if a == "" || EndsWith(a, "/") then a + b
    else a + "/" + b
  }

  /** `os.path.join(a, *parts)` */
  function JoinAll(a: string, parts: seq<string>): (r: string)
    ensures parts != [] ==> EndsWith(r, parts[|parts| - 1])
    ensures (forall p | p in parts :: !IsAbsolute(p)) ==> StartsWith(r, a)
    decreases |parts|
  {
    if parts == [] then a
    else
      var j := Join(a, parts[0]);
      var r := JoinAll(j, parts[1..]);
      assert |parts| > 1 ==> parts[1..][|parts[1..]| - 1] == parts[|parts| - 1];
      assert StartsWith(r, j) && StartsWith(j, a) ==> r[..|a|] == j[..|a|];
      r
  }

  /** A later absolute part makes `join` forget everything before it. */
  lemma {:induction false} JoinAllAbsoluteResets(a: string, parts: seq<string>, k: nat)
    requires k < |parts| && IsAbsolute(parts[k])
    ensures JoinAll(a, parts) == JoinAll(parts[k], parts[k + 1..])
    decreases k
  {
    if k > 0 {
      assert parts[1..][k - 1] == parts[k];
      assert parts[1..][k..] == parts[k + 1..];
      JoinAllAbsoluteResets(Join(a, parts[0]), parts[1..], k - 1);
    }
  }

  predicate AllSlashes(s: string) {
    forall k | 0 <= k < |s| :: s[k] == '/'
  }

  /** `s.rstrip('/')` */
  function TrimSlashes(s: string): (r: string)
    ensures StartsWith(s, r)
    ensures AllSlashes(s[|r|..])
    ensures r == [] || r[|r| - 1] != '/'
    decreases |s|
  {
    if s != [] && s[|s| - 1] == '/' then TrimSlashes(s[..|s| - 1]) else s
  }

  /** `os.path.split(p)`: everything after the last `/` is the tail; the head keeps
      the rest, with trailing slashes removed unless it consists of slashes only. */
  function Split(p: string): (r: (string, string))
    ensures '/' !in r.1
    ensures EndsWith(p, r.1)
    ensures StartsWith(p, r.0)
    ensures r.0 == "" <==> '/' !in p
    ensures r.1 == p || p[|p| - |r.1| - 1] == '/'
    ensures '/' in p ==> var before := p[..|p| - |r.1|];
      && StartsWith(before, r.0) && AllSlashes(before[|r.0|..])
      && (if AllSlashes(before) then r.0 == before else r.0[|r.0| - 1] != '/')
  {
    var i := RFind(p, '/') + 1;
    var head := p[..i];
    var tail := p[i..];
    assert forall c | c in tail :: c != '/';
    assert head == "" ==> forall c | c in p :: c != '/';
    assert p[..|p| - |tail|] == head;
    (SplitHead(head), tail)
  }

  /** The head of `split` from everything up to the last `/`: trailing slashes are
      removed unless it consists of slashes only. */
  function SplitHead(head: string): (h: string)
    ensures StartsWith(head, h)
    ensures h == "" <==> head == ""
    ensures AllSlashes(head[|h|..])
    ensures head != "" ==> if AllSlashes(head) then h == head else h[|h| - 1] != '/'
  {
    if head != "" && !AllSlashes(head) then
      var h := TrimSlashes(head);
      assert head[|h|..] == head || h != "";
      h
    else head
  }

  /** `os.path.dirname(p)`: the head of `split` */
  function Dirname(p: string): string {
    Split(p).0
  }

  /** `os.path.dirname` of every path. */
  function Parents(paths: seq<string>): (ps: seq<string>)
    ensures |ps| == |paths|
    ensures forall i | 0 <= i < |paths| :: ps[i] == Dirname(paths[i])
  {
    seq(|paths|, i requires 0 <= i < |paths| => Dirname(paths[i]))
  }

  /** `os.path.basename(p)`: the tail of `split` */
  function Basename(p: string): string {
    Split(p).1
  }

  /** Joining a separator-free name under a directory and splitting again gives
      the directory and the name back, as long as the directory is written without
      a trailing slash. */
  lemma SplitJoin(dir: string, name: string)
    requires '/' !in name
    requires dir != "" && !EndsWith(dir, "/")
    ensures Split(Join(dir, name)) == (dir, name)
  {
    var p := Join(dir, name);
    assert name != [] ==> name[0] in name;
    assert p == dir + "/" + name;
    assert RFind(p, '/') == |dir| by {
      assert p[|dir|] == '/';
      forall k | |dir| < k < |p| ensures p[k] != '/' {
        assert p[k] == name[k - |dir| - 1];
      }
      RFindLast(p, '/', |dir|);
    }
    var head := p[..|dir| + 1];
    assert head == dir + "/";
    assert !AllSlashes(head) by {
      assert head[|dir| - 1] == dir[|dir| - 1] != '/';
    }
    TrimSlashesOnce(dir);
  }

  /** The basename of a joined path is the last part, whatever the directory. */
  lemma BasenameJoin(dir: string, name: string)
    requires '/' !in name
    ensures Basename(Join(dir, name)) == name
  {
    var p := Join(dir, name);
    assert name != [] ==> name[0] in name;
    var start := |p| - |name|;
    assert p[start..] == name;
    forall k | start <= k < |p| ensures p[k] != '/' {
      assert p[k] == name[k - start];
    }
    if start == 0 {
      RFindNone(p, '/');
    } else {
      assert p[start - 1] == '/';
      RFindLast(p, '/', start - 1);
    }
  }

  lemma RFindLast(s: string, c: char, i: nat)
    requires i < |s| && s[i] == c
    requires forall k | i < k < |s| :: s[k] != c
    ensures RFind(s, c) == i
  {
  }

  lemma TrimSlashesOnce(dir: string)
    requires dir != "" && dir[|dir| - 1] != '/'
    ensures TrimSlashes(dir + "/") == dir
  {
    assert (dir + "/")[..|dir + "/"| - 1] == dir;
  }

  /** True when some character of `p[lo..hi]` is not a dot. */
  predicate HasNonDot(p: string, lo: int, hi: int)
    requires 0 <= lo && hi <= |p|
  {
    exists k | lo <= k < hi :: p[k] != '.'
  }

  /** `os.path.splitext(p)`: the extension runs from the last dot of the base name,
      provided that dot follows some character of the base name other than a dot
      (so `.bashrc` and `..` have no extension). */
  function Splitext(p: string): (r: (string, string))
    ensures r.0 + r.1 == p
    ensures r.1 != "" ==> r.1[0] == '.' && '/' !in r.1 && '.' !in r.1[1..]
    ensures r.1 == "" ==> r.0 == p
    ensures r.1 != "" ==> RFind(p, '/') < |r.0|
  {
    var sepIndex := RFind(p, '/');
    var dotIndex := RFind(p, '.');
    if dotIndex > sepIndex && HasNonDot(p, sepIndex + 1, dotIndex) then
      assert forall k | 0 <= k < |p[dotIndex..]| :: p[dotIndex..][k] == p[dotIndex + k];
      (p[..dotIndex], p[dotIndex..])
    else (p, "")
  }

  /** Position `k` holds a dot of the base name that follows some character of the
      base name other than a dot. */
  predicate NamedDot(p: string, k: int) {
    && RFind(p, '/') < k < |p|
    && p[k] == '.'
    && HasNonDot(p, RFind(p, '/') + 1, k)
  }

  /** A path has an extension exactly when some dot of its base name follows a
      character of the base name other than a dot; otherwise `splitext` gives the
      whole path and an empty extension. */
  lemma SplitextFindsExtension(p: string)
    ensures Splitext(p).1 != "" <==> exists k | 0 <= k < |p| :: NamedDot(p, k)
  {
    if Splitext(p).1 != "" {
      ExtensionDotFollowsName(p);
    } else {
      NoExtensionNoNamedDot(p);
    }
  }

  lemma ExtensionDotFollowsName(p: string)
    requires Splitext(p).1 != ""
    ensures NamedDot(p, |Splitext(p).0|)
  {
    var r := Splitext(p);
    assert p[|r.0|] == r.1[0];
  }

  lemma NoExtensionNoNamedDot(p: string)
    requires Splitext(p).1 == ""
    ensures forall k | 0 <= k < |p| :: !NamedDot(p, k)
  {
    forall k | 0 <= k < |p| ensures !NamedDot(p, k) {
      NamedDotGivesExtension(p, k);
    }
  }

  lemma NamedDotGivesExtension(p: string, k: int)
    ensures NamedDot(p, k) ==> Splitext(p).1 != ""
  {
    if NamedDot(p, k) {
      var sep := RFind(p, '/');
      var d := RFind(p, '.');
      assert k <= d;
      var j :| sep + 1 <= j < k && p[j] != '.';
      assert HasNonDot(p, sep + 1, d);
    }
  }

  /** Appending an extension to a name that has a non-dot character and splitting it
      off again gives the name and the extension back. */
  lemma SplitextRoundTrip(stem: string, ext: string)
    requires exists k | RFind(stem, '/') < k < |stem| :: stem[k] != '.'
    requires ext != "" && ext[0] == '.' && '/' !in ext && '.' !in ext[1..]
    ensures Splitext(stem + ext) == (stem, ext)
  {
    var p := stem + ext;
    var s := RFind(stem, '/');
    assert RFind(p, '/') == s by {
      forall k | |stem| <= k < |p| ensures p[k] != '/' {
        assert p[k] == ext[k - |stem|];
      }
      if s >= 0 {
        RFindLast(p, '/', s);
      } else {
        RFindNone(p, '/');
      }
    }
    assert RFind(p, '.') == |stem| by {
      forall k | |stem| < k < |p| ensures p[k] != '.' {
        assert p[k] == ext[1..][k - |stem| - 1];
      }
      RFindLast(p, '.', |stem|);
    }
    var k :| s < k < |stem| && stem[k] != '.';
    assert p[k] == stem[k];
    assert HasNonDot(p, s + 1, |stem|);
    assert p[..|stem|] == stem && p[|stem|..] == ext;
  }

  lemma RFindNone(s: string, c: char)
    requires forall k | 0 <= k < |s| :: s[k] != c
    ensures RFind(s, c) == -1
    decreases |s|
  {
    if s != [] {
      RFindNone(s[..|s| - 1], c);
    }
  }

  /** Characters without a `/` appended to the base name leave the directory as it
      is. */
  lemma DirnameKeepsHead(q: string, t: string)
    requires '/' !in t
    ensures Dirname(q + t) == Dirname(q)
  {
    var p := q + t;
    var s := RFind(q, '/');
    assert RFind(p, '/') == s by {
      forall k | s < k < |p| ensures p[k] != '/' {
        if k >= |q| {
          assert p[k] == t[k - |q|];
        }
      }
      if s >= 0 {
        RFindLast(p, '/', s);
      } else {
        RFindNone(p, '/');
      }
    }
    DirnameSameHead(p, q, s);
  }

  /** Two paths that agree up to their last `/`, which is at the same place, have
      the same directory. */
  lemma DirnameSameHead(p: string, q: string, s: int)
    requires s == RFind(p, '/') == RFind(q, '/')
    requires forall k | 0 <= k <= s :: p[k] == q[k]
    ensures Dirname(p) == Dirname(q)
  {
    assert p[..s + 1] == q[..s + 1];
    DirnameOfHead(p, s);
    DirnameOfHead(q, s);
  }

  /** The directory is a function of everything up to the last `/`. */
  lemma DirnameOfHead(p: string, s: int)
    requires s == RFind(p, '/')
    ensures Dirname(p) == SplitHead(p[..s + 1])
  {
  }

  /** Dropping the extension never moves a path to another directory. */
  lemma DirnameSplitext(p: string)
    ensures Dirname(Splitext(p).0) == Dirname(p)
  {
    var (root, ext) := Splitext(p);
    if ext != "" {
      DirnameKeepsHead(root, ext);
    }
  }
}
