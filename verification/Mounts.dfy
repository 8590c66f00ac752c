/** Mount points and path resolution of the virtual file system. */
module Mounts {
  import opened Wrappers

  /** A mounted file system, as far as resolution sees it. */
  datatype Mount = Mount(point: string, root: nat, fs: Fs)

  datatype Fs = Fs(isDir: nat -> bool, lookup: (nat, string) -> Option<nat>)

  predicate Matches(m: string, path: string) {
    if m == "/" then |path| > 0 && path[0] == '/'
    else path == m || m + "/" <= path
  }

  function Relative(m: string, path: string): string
    requires Matches(m, path)
  {
    if path == m then "" else if m == "/" then path[1..] else path[|m|..]
  }

  /** The first mount that matches, or the number of mounts. */
  function FirstMatch(ms: seq<Mount>, path: string): (i: nat)
    ensures i <= |ms|
    ensures i < |ms| ==> Matches(ms[i].point, path)
    ensures forall j | 0 <= j < i :: !Matches(ms[j].point, path)
  {
    if ms == [] || Matches(ms[0].point, path) then 0 else
    1 + FirstMatch(ms[1..], path)
  }

  /** Longer mount points first. */
  ghost predicate Sorted(ms: seq<Mount>) {
    forall i, j | 0 <= i < j < |ms| :: |ms[i].point| >= |ms[j].point|
  }

  /** Two mount points of the same length that both match are the same. */
  lemma SameLengthSame(m: string, m': string, path: string)
    requires Matches(m, path) && Matches(m', path) && |m| == |m'|
    ensures m == m'
  {
    assert m == path[..|m|] && m' == path[..|m'|];
  }

  /** In a sorted list the first match is the longest one, and every other match of that length is the same point. */
  lemma FirstIsLongest(ms: seq<Mount>, path: string, j: nat)
    requires Sorted(ms) && j < |ms| && Matches(ms[j].point, path)
    ensures var i := FirstMatch(ms, path);
            && i < |ms| && |ms[j].point| <= |ms[i].point|
            && (|ms[j].point| == |ms[i].point| ==> ms[j].point == ms[i].point)
  {
    var i := FirstMatch(ms, path);
    if |ms[j].point| == |ms[i].point| {
      SameLengthSame(ms[i].point, ms[j].point, path);
    }
  }

  /** `rfind('/')`, or -1. */
  function LastSlash(s: string): (i: int)
    ensures -1 <= i < |s|
    ensures i >= 0 ==> s[i] == '/'
    ensures forall k | i < k < |s| :: s[k] != '/'
  {
    if s == "" then -1 else if s[|s| - 1] == '/' then |s| - 1 else LastSlash(s[..|s| - 1])
  }

  function Parent(path: string): string {
    var i := LastSlash(path);
    if i <= 0 then "/" else path[..i]
  }

  function Name(path: string): string {
    path[LastSlash(path) + 1..]
  }

  /** A path that is no mount point itself lies below exactly the mounts that its parent lies in or is. */
  lemma ParentMatches(m: string, path: string)
    requires path != m && LastSlash(path) >= 0
    ensures Matches(m, Parent(path)) <==> Matches(m, path)
  {
    var i := LastSlash(path);
    var parent := Parent(path);
    if m != "/" {
      if Matches(m, path) {
        assert path[|m|] == '/';
        assert |m| <= i;
        assert m == path[..|m|];
        if i > 0 && |m| < i {
          assert parent[..|m| + 1] == path[..|m| + 1] == m + "/";
        }
      }
      if Matches(m, parent) {
        if parent == m {
          if i > 0 {
            assert path[..i + 1] == m + "/";
          }
        } else {
          assert parent[..|m| + 1] == m + "/";
          assert path[..|m| + 1] == parent[..|m| + 1];
        }
      }
    }
  }

  /** Only a mount point of the same name matches a path without a slash. */
  lemma HasSlash(m: string, path: string)
    requires Matches(m, path) && path != m
    ensures LastSlash(path) >= 0
  {
    if m != "/" {
      assert path[|m|] == '/';
    }
  }

  /** A path that is itself a mount point: its longest match. */
  lemma ExactMatch(ms: seq<Mount>, path: string, j: nat)
    requires Sorted(ms) && j < |ms| && ms[j].point == path && Matches(path, path)
    ensures FirstMatch(ms, path) < |ms| && ms[FirstMatch(ms, path)].point == path
  {
    FirstIsLongest(ms, path, j);
    var m := ms[FirstMatch(ms, path)].point;
    assert |m| <= |path|;
  }

  lemma {:induction false} SameFirst(ms: seq<Mount>, path: string, path': string)
    requires forall j | 0 <= j < |ms| :: Matches(ms[j].point, path) <==> Matches(ms[j].point, path')
    ensures FirstMatch(ms, path) == FirstMatch(ms, path')
  {
    if ms != [] {
      SameFirst(ms[1..], path, path');
    }
  }

  /** `split('/')`. */
  function Split(s: string): (r: seq<string>)
    ensures |r| > 0
  {
    if s == "" then [""]
    else
      var rest := Split(s[1..]);
      if s[0] == '/' then [""] + rest else [[s[0]] + rest[0]] + rest[1..]
  }

  function NonEmpty(ss: seq<string>): seq<string> {
    if ss == [] then [] else (if ss[0] == "" then [] else [ss[0]]) + NonEmpty(ss[1..])
  }

  lemma {:induction false} NonEmptyAppend(a: seq<string>, b: seq<string>)
    ensures NonEmpty(a + b) == NonEmpty(a) + NonEmpty(b)
  {
    if a == [] {
      assert a + b == b;
    } else {
      NonEmptyAppend(a[1..], b);
      assert (a + b)[1..] == a[1..] + b && (a + b)[0] == a[0];
      Assoc(if a[0] == "" then [] else [a[0]], NonEmpty(a[1..]), NonEmpty(b));
    }
  }

  lemma Assoc(a: seq<string>, b: seq<string>, c: seq<string>)
    ensures a + (b + c) == (a + b) + c
  {
  }

  /** Splitting at a slash. */
  lemma {:induction false} SplitAt(a: string, b: string)
    ensures Split(a + "/" + b) == Split(a) + Split(b)
  {
    var s := a + "/" + b;
    if a == "" {
      assert s[1..] == b;
    } else {
      assert s[1..] == a[1..] + "/" + b;
      SplitAt(a[1..], b);
      assert s[0] == a[0];
      var rest, tail := Split(a[1..]), Split(b);
      hide Split;
      assert (rest + tail)[1..] == rest[1..] + tail && (rest + tail)[0] == rest[0];
      SplitFirst(a);
      SplitFirst(s);
      Assoc([""], rest, tail);
      Assoc([[a[0]] + rest[0]], rest[1..], tail);
    }
  }

  lemma SplitFirst(s: string)
    requires s != ""
    ensures var rest := Split(s[1..]);
            Split(s) == if s[0] == '/' then [""] + rest else [[s[0]] + rest[0]] + rest[1..]
  {
  }

  lemma {:induction false} SplitPlain(s: string)
    requires forall i | 0 <= i < |s| :: s[i] != '/'
    ensures Split(s) == [s]
  {
    if s != "" {
      SplitPlain(s[1..]);
      assert [s[0]] + s[1..] == s;
    }
  }

  function TrimLeft(s: string): string { if s != "" && s[0] == '/' then TrimLeft(s[1..]) else s }

  function TrimRight(s: string): string { if s != "" && s[|s| - 1] == '/' then TrimRight(s[..|s| - 1]) else s }

  /** `trim_matches('/')`, `split('/')`, without the empty parts. */
  function Components(s: string): seq<string> { NonEmpty(Split(TrimRight(TrimLeft(s)))) }

  lemma {:induction false} TrimLeftParts(s: string)
    ensures NonEmpty(Split(TrimLeft(s))) == NonEmpty(Split(s))
  {
    if s != "" && s[0] == '/' {
      TrimLeftParts(s[1..]);
      assert ([""] + Split(s[1..]))[1..] == Split(s[1..]);
    }
  }

  lemma {:induction false} TrimRightParts(s: string)
    ensures NonEmpty(Split(TrimRight(s))) == NonEmpty(Split(s))
  {
    if s != "" && s[|s| - 1] == '/' {
      var t := s[..|s| - 1];
      TrimRightParts(t);
      assert s == t + "/" + "";
      SplitAt(t, "");
      NonEmptyAppend(Split(t), [""]);
    }
  }

  /** The components are the nonempty parts between slashes, trimmed or not. */
  lemma ComponentsAre(s: string)
    ensures Components(s) == NonEmpty(Split(s))
  {
    TrimLeftParts(s);
    TrimRightParts(TrimLeft(s));
  }

  lemma ComponentsAppend(a: string, name: string)
    requires forall i | 0 <= i < |name| :: name[i] != '/'
    ensures Components(a + "/" + name) == Components(a) + (if name == "" then [] else [name])
  {
    ComponentsAre(a + "/" + name);
    ComponentsAre(a);
    SplitAt(a, name);
    SplitPlain(name);
    NonEmptyAppend(Split(a), [name]);
    assert NonEmpty([name]) == if name == "" then [] else [name];
  }

  /** Follow components from an inode. */
  function Walk(fs: Fs, inode: nat, parts: seq<string>): Option<nat>
    decreases |parts|
  {
    if parts == [] then Some(inode)
    else if !fs.isDir(inode) then None
    else
      var next := fs.lookup(inode, parts[0]);
      if next.None? then None else Walk(fs, next.value, parts[1..])
  }

  lemma {:induction false} WalkAppend(fs: Fs, inode: nat, parts: seq<string>, name: string)
    ensures var r := Walk(fs, inode, parts);
            Walk(fs, inode, parts + [name]) == if r.Some? && fs.isDir(r.value) then fs.lookup(r.value, name) else None
    decreases |parts|
  {
    if parts == [] {
      assert ([] + [name])[1..] == [];
    } else {
      assert (parts + [name])[1..] == parts[1..] + [name];
      var next := fs.lookup(inode, parts[0]);
      if next.Some? {
        WalkAppend(fs, next.value, parts[1..], name);
      }
    }
  }

  datatype Resolved = Resolved(mount: nat, inode: nat)

  /** `resolve`. */
  function Resolve(ms: seq<Mount>, path: string): Option<Resolved> {
    var i := FirstMatch(ms, path);
    if i == |ms| then None
    else
      var rel := Relative(ms[i].point, path);
      if rel == "" || rel == "/" then Some(Resolved(i, ms[i].root))
      else
        var r := Walk(ms[i].fs, ms[i].root, Components(rel));
        if r.None? then None else Some(Resolved(i, r.value))
  }

  lemma ResolveWalks(ms: seq<Mount>, path: string)
    requires FirstMatch(ms, path) < |ms|
    ensures var i := FirstMatch(ms, path);
            var r := Walk(ms[i].fs, ms[i].root, Components(Relative(ms[i].point, path)));
            Resolve(ms, path) == if r.None? then None else Some(Resolved(i, r.value))
  {
    ComponentsAre("");
    ComponentsAre("/");
    assert Split("/") == ["", ""];
    assert NonEmpty(["", ""]) == NonEmpty([""]) == [];
  }

  lemma NameIsPlain(path: string)
    ensures forall k | 0 <= k < |Name(path)| :: Name(path)[k] != '/'
  {
  }

  /** Relative paths below one mount, of a path and of its parent. */
  lemma RelativeText(m: string, path: string)
    requires path != m && LastSlash(path) >= 0 && Matches(m, path) && Matches(m, Parent(path))
    ensures var rel, up, name := Relative(m, path), Relative(m, Parent(path)), Name(path);
            rel == up + "/" + name || (rel == name && up == "") || (rel == "/" + name && up == "/")
  {
    RelativeIs(m, path);
    RelativeIs(m, Parent(path));
    SlashAfter(m, path);
    hide Relative, Matches, LastSlash;
    if LastSlash(path) > 0 {
      CutAtSlash(path, |m|);
    } else {
      FirstSlash(m, path);
    }
  }

  lemma FirstSlash(m: string, path: string)
    requires LastSlash(path) == 0 && (m == "/" || m == "")
    ensures Parent(path) == "/" && Name(path) == path[1..]
    ensures m == "/" ==> path[|m|..] == Name(path) && Parent(path)[|m|..] == ""
    ensures m == "" ==> path[|m|..] == "/" + Name(path) && Parent(path)[|m|..] == "/"
  {
  }

  lemma RelativeIs(m: string, path: string)
    requires Matches(m, path)
    ensures |m| <= |path| && Relative(m, path) == path[|m|..]
  {
  }

  lemma SlashAfter(m: string, path: string)
    requires path != m && Matches(m, path)
    ensures LastSlash(path) > 0 ==> |m| <= LastSlash(path)
    ensures LastSlash(path) == 0 ==> path[0] == '/' && (m == "/" || m == "")
  {
    if m != "/" {
      assert path[|m|] == '/';
    }
  }

  lemma CutAtSlash(path: string, from: nat)
    requires from <= LastSlash(path)
    ensures path[from..] == path[..LastSlash(path)][from..] + "/" + Name(path)
  {
    var i := LastSlash(path);
    assert path[..i][from..] == path[from..i];
    assert path[from..] == path[from..i] + path[i..i + 1] + path[i + 1..];
  }

  /** Below one mount, a path is its parent's path and one more component. */
  lemma RelativeParent(m: string, path: string)
    requires path != m && LastSlash(path) >= 0 && Matches(m, path) && Matches(m, Parent(path))
    ensures Components(Relative(m, path)) == Components(Relative(m, Parent(path))) + (if Name(path) == "" then [] else [Name(path)])
  {
    RelativeText(m, path);
    NameIsPlain(path);
    hide Components, Relative, Matches, Parent, Name, LastSlash;
    AddName(Relative(m, path), Relative(m, Parent(path)), Name(path));
  }

  lemma AddName(rel: string, up: string, name: string)
    requires forall k | 0 <= k < |name| :: name[k] != '/'
    requires rel == up + "/" + name || (rel == name && up == "") || (rel == "/" + name && up == "/")
    ensures Components(rel) == Components(up) + (if name == "" then [] else [name])
  {
    hide Components;
    ComponentsPlain(name);
    if rel == up + "/" + name {
      ComponentsAppend(up, name);
    } else if rel == "/" + name && up == "/" {
      assert rel == "" + "/" + name && up == "" + "/" + "";
      ComponentsAppend("", name);
      ComponentsAppend("", "");
    }
  }

  lemma ComponentsPlain(name: string)
    requires forall k | 0 <= k < |name| :: name[k] != '/'
    ensures Components(name) == (if name == "" then [] else [name]) && Components("") == []
  {
    ComponentsAre(name);
    SplitPlain(name);
    ComponentsAre("");
    assert NonEmpty([name]) == if name == "" then [] else [name];
  }

  /** `open` takes its create branch only where the parent resolves in the mount used for `create`; the path failed
      because of its last component, which is not empty. */
  lemma CreateInParentMount(ms: seq<Mount>, path: string)
    requires Sorted(ms) && Resolve(ms, path).None? && FirstMatch(ms, path) < |ms| && Resolve(ms, Parent(path)).Some?
    ensures var i := FirstMatch(ms, path);
            var up := Resolve(ms, Parent(path)).value;
            && up.mount == i && Name(path) != ""
            && (ms[i].fs.isDir(up.inode) ==> ms[i].fs.lookup(up.inode, Name(path)).None?)
  {
    hide Components, Relative, Matches, Parent, Name, Resolve, Sorted;
    var i := FirstMatch(ms, path);
    forall j | 0 <= j < |ms|
      ensures ms[j].point != path && LastSlash(path) >= 0
      ensures Matches(ms[j].point, path) <==> Matches(ms[j].point, Parent(path))
    {
      NotAMount(ms, path, j);
      ParentMatches(ms[j].point, path);
    }
    SameFirst(ms, path, Parent(path));
    ResolveWalks(ms, path);
    ResolveWalks(ms, Parent(path));
    RelativeParent(ms[i].point, path);
    var parts := Components(Relative(ms[i].point, Parent(path)));
    assert parts + [] == parts;
    WalkAppend(ms[i].fs, ms[i].root, parts, Name(path));
  }

  /** A path that fails to resolve below some mount is no mount point and has a slash. */
  lemma NotAMount(ms: seq<Mount>, path: string, j: nat)
    requires Sorted(ms) && Resolve(ms, path).None? && FirstMatch(ms, path) < |ms| && j < |ms|
    ensures ms[j].point != path && LastSlash(path) >= 0
  {
    var i := FirstMatch(ms, path);
    if ms[j].point == path {
      ExactMatch(ms, path, j);
    }
    if ms[i].point != path {
      HasSlash(ms[i].point, path);
    }
  }

  class Vfs {
    var mounts: seq<Mount>

    ghost predicate Valid()
      reads this
    {
      Sorted(mounts)
    }

    constructor ()
      ensures Valid() && mounts == []
    {
      mounts := [];
    }

    /** `mount`: push and sort by length, longest first; the sort is stable and all but the last entry are in order. */
    method MountAt(point: string, root: nat, fs: Fs)
      requires Valid()
      modifies this
      ensures Valid()
      ensures exists k | 0 <= k <= |old(mounts)| :: mounts == old(mounts)[..k] + [Mount(point, root, fs)] + old(mounts)[k..]
    {
      var k := |mounts|;
      while k > 0 && |mounts[k - 1].point| < |point|
        invariant 0 <= k <= |mounts|
        invariant forall j | k <= j < |mounts| :: |mounts[j].point| < |point|
      {
        k := k - 1;
      }
      mounts := mounts[..k] + [Mount(point, root, fs)] + mounts[k..];
    }

    method FindMount(path: string) returns (r: Option<(nat, string)>)
      requires Valid()
      ensures r.None? <==> forall j | 0 <= j < |mounts| :: !Matches(mounts[j].point, path)
      ensures r.Some? ==>
                && r.value.0 < |mounts| && Matches(mounts[r.value.0].point, path)
                && r.value.0 == FirstMatch(mounts, path) && r.value.1 == Relative(mounts[r.value.0].point, path)
                && forall j | 0 <= j < |mounts| && Matches(mounts[j].point, path) :: |mounts[j].point| <= |mounts[r.value.0].point|
    {
      var i := 0;
      while i < |mounts|
        invariant 0 <= i <= |mounts|
        invariant forall j | 0 <= j < i :: !Matches(mounts[j].point, path)
      {
        if Matches(mounts[i].point, path) {
          assert FirstMatch(mounts, path) == i;
          return Some((i, Relative(mounts[i].point, path)));
        }
        i := i + 1;
      }
      return None;
    }
  }
}
