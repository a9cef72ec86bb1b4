/**
 * Resolution of a client-supplied path inside the file area (`resolve_path`):
 * the path is stripped, its leading slashes are dropped, it is joined onto
 * the root with `os.path.join`, normalised with `posixpath.normpath`, and
 * refused unless the resulting string starts with the root.
 *
 * The root (`FILES_ROOT`) is taken to be an absolute, already normalised
 * path, given by its components; `os.path.abspath` of such a path is the
 * path itself.
 */
module Paths {
  import opened Wrappers
  import opened Text

  /** A component that can remain in a normalised path. */
  predicate IsName(c: string) {
    c != "" && c != "." && c != ".." && '/' !in c
  }

  predicate IsNormal(p: seq<string>) {
    forall i :: 0 <= i < |p| ==> IsName(p[i])
  }

  /** The absolute path with components `p`. */
  function Render(p: seq<string>): string {
    "/" + Join(p, '/')
  }

  /** `os.path.join(a, b)` for two arguments. */
  function PathJoin(a: string, b: string): string {
    if |b| > 0 && b[0] == '/' then b
    else if a == "" || a[|a| - 1] == '/' then a + b
    else a + "/" + b
  }

  /** Components as `split('/')` gives them: none holds a slash. */
  predicate NoSlash(comps: seq<string>) {
    forall i :: 0 <= i < |comps| ==> '/' !in comps[i]
  }

  /** One step of `normpath`'s loop over the components of an absolute
      path: empty and `.` components vanish, `..` drops the last kept
      component (and is dropped itself at the root), anything else is
      kept. */
  function Step(kept: seq<string>, comp: string): (r: seq<string>)
    ensures IsNormal(kept) && '/' !in comp ==> IsNormal(r)
  {
    if comp == "" || comp == "." then kept
    else if comp == ".." then (if kept == [] then [] else kept[..|kept| - 1])
    else kept + [comp]
  }

  /** The loop itself: a left fold of `Step` over `comps`. */
  function Normalize(kept: seq<string>, comps: seq<string>): (r: seq<string>)
    ensures IsNormal(kept) && NoSlash(comps) ==> IsNormal(r)
    decreases |comps|
  {
    if comps == [] then kept
    else
      assert NoSlash(comps) ==> NoSlash(comps[1..]) && '/' !in comps[0] by {
        if NoSlash(comps) {
          forall i | 0 <= i < |comps[1..]| ensures '/' !in comps[1..][i] {
            assert comps[1..][i] == comps[i + 1];
          }
        }
      }
      Normalize(Step(kept, comps[0]), comps[1..])
  }

  /** `posixpath.normpath(path)` for an absolute path: two leading slashes
      are kept when there are exactly two, otherwise one. */
  function NormPath(path: string): string
    requires |path| > 0 && path[0] == '/'
  {
    var lead := if |path| >= 2 && path[1] == '/' && (|path| == 2 || path[2] != '/') then "//" else "/";
    lead + Join(Normalize([], Split(path, '/')), '/')
  }

  /** The relative part as `resolve_path` prepares it: stripped, then
      without leading slashes. */
  function Relative(relPath: string): (rel: string)
    ensures rel == [] || rel[0] != '/'
  {
    TrimLeading(Strip(relPath), '/')
  }

  /** The components the resolved path has. */
  function Target(root: seq<string>, relPath: string): seq<string> {
    Normalize(root, Split(Relative(relPath), '/'))
  }

  /** `normpath(os.path.join(root, rel))` on the prepared relative part:
      the string of the components that folding the relative part onto the
      root gives. */
  function SafePath(root: seq<string>, relPath: string): (r: string)
    requires IsNormal(root)
    ensures r == Render(Target(root, relPath))
    ensures IsNormal(Target(root, relPath))
  {
    SafePathIsTarget(root, relPath);
    NormPath(PathJoin(Render(root), Relative(relPath)))
  }

  lemma SafePathIsTarget(root: seq<string>, relPath: string)
    requires IsNormal(root)
    ensures var joined := PathJoin(Render(root), Relative(relPath));
      |joined| > 0 && joined[0] == '/' && NormPath(joined) == Render(Target(root, relPath))
    ensures IsNormal(Target(root, relPath))
  {
    JoinedIsFold(root, Relative(relPath));
  }

  /** The same for a prepared relative part `rel`. */
  lemma JoinedIsFold(root: seq<string>, rel: string)
    requires IsNormal(root) && (rel == [] || rel[0] != '/')
    ensures var joined := PathJoin(Render(root), rel);
      |joined| > 0 && joined[0] == '/' && NormPath(joined) == Render(Normalize(root, Split(rel, '/')))
    ensures IsNormal(Normalize(root, Split(rel, '/')))
  {
    NormPathOfJoined(root, rel);
    assert NoSlash(Split(rel, '/'));
  }

  /** `resolve_path(rel_path)` with `FILES_ROOT` given by `root`: the
      normalised path, or the `invalid_path` error when its string does not
      start with the root's string. */
  function ResolvePath(root: seq<string>, relPath: string): (r: Result<string, string>)
    requires IsNormal(root)
    ensures IsNormal(Target(root, relPath))
    ensures r.Ok? ==> r.value == Render(Target(root, relPath)) && Render(root) <= r.value
    ensures r.Err? <==> !(Render(root) <= Render(Target(root, relPath)))
    ensures r.Err? ==> r.error == "invalid_path"
  {
    var safePath := SafePath(root, relPath);
    if Render(root) <= safePath then Ok(safePath) else Err("invalid_path")
  }

  /** Joining the root and a relative part and normalising the string is
      the fold of the relative part's components onto the root. */
  lemma NormPathOfJoined(root: seq<string>, rel: string)
    requires IsNormal(root) && (rel == [] || rel[0] != '/')
    ensures PathJoin(Render(root), rel)[0] == '/'
    ensures NormPath(PathJoin(Render(root), rel)) == Render(Normalize(root, Split(rel, '/')))
  {
    if root == [] {
      assert PathJoin(Render(root), rel) == "/" + rel;
      NormPathAbsolute(rel);
    } else {
      var names := Join(root, '/');
      JoinEnds(root);
      var t := names + ['/'] + rel;
      assert PathJoin(Render(root), rel) == "/" + t;
      NormPathAbsolute(t);
      SplitUnderRoot(root, rel);
    }
  }

  /** The components of a non-empty root followed by a relative part. */
  lemma SplitUnderRoot(root: seq<string>, rel: string)
    requires IsNormal(root) && root != []
    ensures Normalize([], Split(Join(root, '/') + ['/'] + rel, '/')) == Normalize(root, Split(rel, '/'))
  {
    var x := Split(rel, '/');
    SplitConcat(Join(root, '/'), rel, '/');
    SplitJoin(root, '/');
    assert Split(Join(root, '/') + ['/'] + rel, '/') == root + x;
    NormalizeConcat([], root, x);
    NormalizeNames([], root);
    assert [] + root == root;
  }

  /** A path with a single leading slash normalises to the fold of the
      components after it. */
  lemma NormPathAbsolute(t: string)
    requires t == [] || t[0] != '/'
    ensures NormPath("/" + t) == "/" + Join(Normalize([], Split(t, '/')), '/')
  {
    var path := "/" + t;
    assert path == "" + ['/'] + t;
    SplitConcat("", t, '/');
    assert Split(path, '/') == [""] + Split(t, '/');
    assert ([""] + Split(t, '/'))[1..] == Split(t, '/');
  }

  /** The joined components of a normal path start and end with a name
      character, never with a slash. */
  lemma {:induction false} JoinEnds(p: seq<string>)
    requires IsNormal(p) && p != []
    ensures var s := Join(p, '/'); |s| > 0 && s[0] != '/' && s[|s| - 1] != '/'
  {
    if |p| > 1 {
      JoinEnds(p[1..]);
      assert p[0][0] in p[0];
    } else {
      assert p[0][0] in p[0] && p[0][|p[0]| - 1] in p[0];
    }
  }

  /** The fold over two lists is the fold over the second, started from the
      result of the first. */
  lemma {:induction false} NormalizeConcat(kept: seq<string>, a: seq<string>, b: seq<string>)
    ensures Normalize(kept, a + b) == Normalize(Normalize(kept, a), b)
    decreases |a|
  {
    if a == [] {
      assert a + b == b;
    } else {
      assert (a + b)[1..] == a[1..] + b;
      NormalizeConcat(Step(kept, a[0]), a[1..], b);
    }
  }

  /** Plain names are appended as they are. */
  lemma {:induction false} NormalizeNames(kept: seq<string>, names: seq<string>)
    requires IsNormal(names)
    ensures Normalize(kept, names) == kept + names
    decreases |names|
  {
    if names != [] {
      NormalizeNames(kept + [names[0]], names[1..]);
      assert kept + [names[0]] + names[1..] == kept + names;
    }
  }

  /** Joining a normal path extended by more names extends its string. */
  lemma {:induction false} JoinAppend(p: seq<string>, q: seq<string>)
    requires p != [] && q != []
    ensures Join(p + q, '/') == Join(p, '/') + "/" + Join(q, '/')
    decreases |p|
  {
    if |p| == 1 {
      assert (p + q)[1..] == q;
    } else {
      assert (p + q)[1..] == p[1..] + q;
      JoinAppend(p[1..], q);
    }
  }

  /** A path whose components start with the root's is accepted. */
  lemma InsideRootAccepted(root: seq<string>, relPath: string)
    requires IsNormal(root) && root <= Target(root, relPath)
    ensures ResolvePath(root, relPath) == Ok(Render(Target(root, relPath)))
  {
    RenderPrefix(root, Target(root, relPath));
  }

  /** Extending the components extends the rendered string. */
  lemma RenderPrefix(p: seq<string>, q: seq<string>)
    requires p <= q
    ensures Render(p) <= Render(q)
  {
    if p != [] && |q| > |p| {
      assert q == p + q[|p|..];
      JoinAppend(p, q[|p|..]);
    } else if p != [] {
      assert q == p;
    }
  }

  /** A relative part without `..` components stays under the root: its
      names are appended to the root's. */
  lemma {:induction false} NoParentStaysInside(kept: seq<string>, comps: seq<string>)
    requires forall i :: 0 <= i < |comps| ==> comps[i] != ".."
    ensures kept <= Normalize(kept, comps)
    decreases |comps|
  {
    if comps != [] {
      NoParentStaysInside(Step(kept, comps[0]), comps[1..]);
    }
  }

  /** Hence `resolve_path` accepts every such path. */
  lemma NoParentAccepted(root: seq<string>, relPath: string)
    requires IsNormal(root)
    requires forall i :: 0 <= i < |Split(Relative(relPath), '/')| ==> Split(Relative(relPath), '/')[i] != ".."
    ensures ResolvePath(root, relPath).Ok?
    ensures root <= Target(root, relPath)
  {
    NoParentStaysInside(root, Split(Relative(relPath), '/'));
    InsideRootAccepted(root, relPath);
  }

  /** A leading slash is dropped, so an absolute path names the same place
      as the relative one, for a relative part that does not start with
      whitespace (a slash in front would keep that whitespace from
      `strip()`). */
  lemma LeadingSlashIgnored(root: seq<string>, relPath: string)
    requires IsNormal(root) && (relPath == [] || !IsSpace(relPath[0]))
    ensures ResolvePath(root, "/" + relPath) == ResolvePath(root, relPath)
  {
    RelativeDropsSlash(relPath);
    SameRelative(root, "/" + relPath, relPath);
  }

  /** Resolution depends on the input only through its prepared relative
      part. */
  lemma SameRelative(root: seq<string>, p: string, q: string)
    requires IsNormal(root) && Relative(p) == Relative(q)
    ensures ResolvePath(root, p) == ResolvePath(root, q)
  {
    var t := Target(root, p);
    assert t == Target(root, q);
    var r := ResolvePath(root, p);
    assert r.Ok? <==> ResolvePath(root, q).Ok?;
  }

  lemma RelativeDropsSlash(relPath: string)
    requires relPath == [] || !IsSpace(relPath[0])
    ensures Relative("/" + relPath) == Relative(relPath)
  {
    var t := Strip(relPath);
    StripAfterSlash(relPath);
    assert ("/" + t)[1..] == t;
  }

  /** Stripping `/p` keeps the slash and strips `p`, when `p` does not start
      with whitespace. */
  lemma StripAfterSlash(p: string)
    requires p == [] || !IsSpace(p[0])
    ensures Strip("/" + p) == "/" + Strip(p)
  {
    var s := "/" + p;
    NotSpace('/');
    var t := TrailingSpace(p);
    TrailingSpaceAfterSlash(p);
    assert LeadingSpace(s) == 0;
    if p == [] {
      assert s[..|s| - t] == "/";
    } else {
      assert LeadingSpace(p) == 0;
      assert s[..|s| - t] == "/" + p[..|p| - t];
    }
  }

  /** The slash in front of `p` ends any run of trailing whitespace. */
  lemma {:induction false} TrailingSpaceAfterSlash(p: string)
    ensures TrailingSpace("/" + p) == TrailingSpace(p)
    decreases |p|
  {
    var s := "/" + p;
    NotSpace('/');
    if p != [] {
      assert s[|s| - 1] == p[|p| - 1];
      if IsSpace(p[|p| - 1]) {
        assert s[..|s| - 1] == "/" + p[..|p| - 1];
        TrailingSpaceAfterSlash(p[..|p| - 1]);
      }
    }
  }

  /** Stepping up out of the root is refused. */
  lemma ParentOfRootRejected(root: seq<string>)
    requires IsNormal(root) && root != []
    ensures ResolvePath(root, "..") == Err("invalid_path")
  {
    TargetOfParent(root);
    RenderShorter(root);
  }

  /** `..` names the parent's components. */
  lemma TargetOfParent(root: seq<string>)
    requires root != []
    ensures Target(root, "..") == root[..|root| - 1]
  {
    NotSpace('.');
    RelativeOfPlain("..");
    SplitNoSeparator("..", '/');
    assert Normalize(root, [".."]) == Normalize(Step(root, ".."), []);
  }

  /** A relative part that neither needs stripping nor starts with a
      slash is used as it is. */
  lemma RelativeOfPlain(s: string)
    requires s != [] && !IsSpace(s[0]) && !IsSpace(s[|s| - 1]) && s[0] != '/'
    ensures Relative(s) == s
  {
    StripUnchanged(s);
  }

  /** A path is rendered longer than its parent. */
  lemma RenderShorter(p: seq<string>)
    requires p != [] && p[|p| - 1] != ""
    ensures |Render(p[..|p| - 1])| < |Render(p)|
  {
    var up := p[..|p| - 1];
    assert p == up + [p[|p| - 1]];
    if up != [] {
      JoinAppend(up, [p[|p| - 1]]);
    }
  }

  /** As written, the containment test compares strings, so a sibling
      directory whose name extends the root's last name is accepted: with
      the root `/data/files`, `../files2` resolves to `/data/files2`. */
  lemma SiblingAccepted(up: seq<string>, name: string, sibling: string)
    requires IsNormal(up + [name]) && IsName(sibling)
    requires name < sibling && !IsSpace(sibling[|sibling| - 1])
    ensures ResolvePath(up + [name], "../" + sibling) == Ok(Render(up + [sibling]))
    ensures !(up + [name] <= Target(up + [name], "../" + sibling))
  {
    SiblingTarget(up, name, sibling);
    SiblingRenderPrefix(up, name, sibling);
    assert (up + [sibling])[|up|] == sibling;
  }

  /** The root's string is a prefix of the sibling's string. */
  lemma SiblingRenderPrefix(up: seq<string>, name: string, sibling: string)
    requires name < sibling
    ensures Render(up + [name]) <= Render(up + [sibling])
  {
    if up == [] {
      assert [] + [name] == [name] && [] + [sibling] == [sibling];
    } else {
      JoinAppend(up, [name]);
      JoinAppend(up, [sibling]);
    }
  }

  /** `../sibling` under `up + [name]` has the components `up + [sibling]`. */
  lemma SiblingTarget(up: seq<string>, name: string, sibling: string)
    requires IsName(sibling) && !IsSpace(sibling[|sibling| - 1])
    ensures Target(up + [name], "../" + sibling) == up + [sibling]
  {
    var rel := "../" + sibling;
    assert rel[|rel| - 1] == sibling[|sibling| - 1];
    NotSpace('.');
    RelativeOfPlain(rel);
    assert rel == ".." + ['/'] + sibling;
    SplitConcat("..", sibling, '/');
    SplitNoSeparator("..", '/');
    SplitNoSeparator(sibling, '/');
    var comps := ["..", sibling];
    assert Split(rel, '/') == comps;
    assert (up + [name])[..|up|] == up;
    assert Normalize(up + [name], comps) == Normalize(up, [sibling]);
    assert Normalize(up, [sibling]) == Normalize(up + [sibling], []);
  }

  /** The containment the check evidently intends: the resolved components
      must start with the root's components. */
  function ResolveInside(root: seq<string>, relPath: string): (r: Result<string, string>)
    requires IsNormal(root)
    ensures r.Ok? <==> root <= Target(root, relPath)
    ensures r.Ok? ==> r.value == Render(Target(root, relPath)) && Render(root) <= r.value
    ensures r.Err? ==> r.error == "invalid_path"
  {
    var target := Target(root, relPath);
    if root <= target then
      InsideRootAccepted(root, relPath);
      Ok(Render(target))
    else Err("invalid_path")
  }

  /** The corrected check only ever refuses more: what it accepts,
      `resolve_path` accepts with the same result. */
  lemma ResolveInsideRefines(root: seq<string>, relPath: string)
    requires IsNormal(root) && ResolveInside(root, relPath).Ok?
    ensures ResolvePath(root, relPath) == ResolveInside(root, relPath)
  {
    InsideRootAccepted(root, relPath);
  }

  /** The corrected check refuses the sibling directory. */
  lemma SiblingRejectedInside(up: seq<string>, name: string, sibling: string)
    requires IsNormal(up + [name]) && IsName(sibling)
    requires name < sibling && !IsSpace(sibling[|sibling| - 1])
    ensures ResolveInside(up + [name], "../" + sibling) == Err("invalid_path")
  {
    SiblingAccepted(up, name, sibling);
  }
}
