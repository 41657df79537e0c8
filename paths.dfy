/**
 * Rust's `std::path` on Unix, as far as the program uses it: a path is the
 * sequence of its components, and the operations are those of `Path`/`PathBuf`.
 */
module Paths {
  import opened Wrappers

  /** `std::path::Component` on Unix (there is no `Prefix` there). */
  datatype Component = RootDir | CurDir | ParentDir | Normal(name: string)

  type Path = seq<Component>

  /** No root component after the first position: the shape of every path `components()` yields. */
  predicate RootOnlyFirst(p: Path)
  {
    forall i :: 0 < i < |p| ==> p[i] != RootDir
  }

  /** `PathBuf::push` of one component: pushing the root replaces the whole path. */
  function Push(p: Path, c: Component): Path
  {
    if c == RootDir then [RootDir] else p + [c]
  }

  /** `p.join(q)`: pushes the components of `q` onto `p` in order. */
  function Join(p: Path, q: Path): Path
  {
    if q == [] then p else Push(Join(p, q[..|q| - 1]), q[|q| - 1])
  }

  /** `collect::<PathBuf>()` over components. */
  function Collect(cs: seq<Component>): Path
  {
    Join([], cs)
  }

  /** Joining a relative path appends its components. */
  lemma {:induction false} JoinRelative(p: Path, q: Path)
    requires RootDir !in q
    ensures Join(p, q) == p + q
  {
    if q != [] {
      JoinRelative(p, q[..|q| - 1]);
      assert p + q[..|q| - 1] + [q[|q| - 1]] == p + q;
    }
  }

  /** Collecting components that hold a root only at the front gives back the same path. */
  lemma {:induction false} CollectWellFormed(cs: seq<Component>)
    requires RootOnlyFirst(cs)
    ensures Collect(cs) == cs
  {
    if |cs| > 1 {
      CollectWellFormed(cs[..|cs| - 1]);
      assert cs[..|cs| - 1] + [cs[|cs| - 1]] == cs;
    } else if |cs| == 1 {
      assert cs[..0] == [] && Join([], cs[..0]) == [];
      assert Push([], cs[0]) == cs;
    }
  }

  /** Joining a path that holds a root keeps only what follows its last root. */
  lemma {:induction false} JoinFromLastRoot(p: Path, q: Path, k: nat)
    requires k < |q| && q[k] == RootDir && RootDir !in q[k + 1..]
    ensures Join(p, q) == [RootDir] + q[k + 1..]
  {
    var n := |q| - 1;
    if k < n {
      assert q[..n][k + 1..] == q[k + 1..n];
      assert q[n] in q[k + 1..];
      JoinFromLastRoot(p, q[..n], k);
      assert q[k + 1..n] + [q[n]] == q[k + 1..];
    }
  }

  /** `Path::parent`: drops a last component that is not the root; `None` for the empty path and for `/`. */
  function Parent(p: Path): (r: Option<Path>)
    ensures r.Some? <==> |p| > 0 && p[|p| - 1] != RootDir
    ensures r.Some? ==> r.value + [p[|p| - 1]] == p
  {
    if |p| == 0 || p[|p| - 1] == RootDir then None else Some(p[..|p| - 1])
  }

  /** `Path::file_name`: the last component when it is a normal name. */
  function FileName(p: Path): (r: Option<string>)
    ensures r.Some? <==> |p| > 0 && p[|p| - 1].Normal?
    ensures r.Some? ==> Normal(r.value) == p[|p| - 1]
  {
    if |p| > 0 && p[|p| - 1].Normal? then Some(p[|p| - 1].name) else None
  }

  /** Index of the last `.` in `s`, if any. */
  function LastDot(s: string): (r: Option<nat>)
    ensures r.Some? ==> r.value < |s| && s[r.value] == '.' && '.' !in s[r.value + 1..]
    ensures r.None? ==> '.' !in s
  {
    if s == [] then None
    else if s[|s| - 1] == '.' then Some(|s| - 1)
    else
      var r := LastDot(s[..|s| - 1]);
      assert s == s[..|s| - 1] + [s[|s| - 1]];
      if r.Some? then assert s[r.value + 1..] == s[..|s| - 1][r.value + 1..] + [s[|s| - 1]]; r else r
  }

  /** `Path::file_stem`: the file name without its last extension; a name whose only dot leads is kept whole. */
  function FileStem(p: Path): (r: Option<string>)
    ensures r.Some? <==> FileName(p).Some?
    ensures r.Some? ==> r.value <= FileName(p).value
    ensures r.Some? ==> var name := FileName(p).value;
      || (r.value == name && forall i :: 0 < i < |name| ==> name[i] != '.')
      || (0 < |r.value| < |name| && name[|r.value|] == '.' && '.' !in name[|r.value| + 1..])
  {
    match FileName(p)
    case None => None
    case Some(name) =>
      match LastDot(name)
      case None => Some(name)
      case Some(k) =>
        if k == 0 then
          assert forall i :: 0 < i < |name| ==> name[i] in name[1..] by {
            forall i | 0 < i < |name| ensures name[i] in name[1..] { assert name[1..][i - 1] == name[i]; }
          }
          Some(name)
        else Some(name[..k])
  }

  /** `Path::strip_prefix`: the rest of `p` when `base` is a component-wise prefix of it. */
  function StripPrefix(p: Path, base: Path): (r: Option<Path>)
    ensures r.Some? <==> base <= p
    ensures r.Some? ==> base + r.value == p
  {
    if base <= p then Some(p[|base|..]) else None
  }

  function ComponentText(c: Component): string
  {
    match c
    case RootDir => "/"
    case CurDir => "."
    case ParentDir => ".."
    case Normal(name) => name
  }

  function JoinWithSlash(cs: seq<Component>): string
  {
    if cs == [] then ""
    else if |cs| == 1 then ComponentText(cs[0])
    else ComponentText(cs[0]) + "/" + JoinWithSlash(cs[1..])
  }

  /** `Path::to_string_lossy` (all names here are valid text): the root, then the names separated by `/`. */
  function Render(p: Path): string
  {
    if p != [] && p[0] == RootDir then "/" + JoinWithSlash(p[1..]) else JoinWithSlash(p)
  }

  /** Joining one more component appends a slash and its text. */
  lemma {:induction false} JoinWithSlashSnoc(cs: seq<Component>, c: Component)
    requires cs != []
    ensures JoinWithSlash(cs + [c]) == JoinWithSlash(cs) + "/" + ComponentText(c)
    decreases |cs|
  {
    if |cs| > 1 {
      assert (cs + [c])[1..] == cs[1..] + [c];
      JoinWithSlashSnoc(cs[1..], c);
    } else {
      assert (cs + [c])[1..] == [c];
    }
  }

  /** The rendered text of a path with a component pushed: the path's text, a slash, the component's text. */
  lemma RenderSnoc(p: Path, c: Component)
    requires p != [] && p != [RootDir]
    ensures Render(p + [c]) == Render(p) + "/" + ComponentText(c)
  {
    if p[0] == RootDir {
      assert (p + [c])[1..] == p[1..] + [c];
      JoinWithSlashSnoc(p[1..], c);
    } else {
      JoinWithSlashSnoc(p, c);
    }
  }

  /** Every character of a component shows up in the joined text. */
  lemma {:induction false} JoinWithSlashContains(cs: seq<Component>, k: nat, c: char)
    requires k < |cs| && c in ComponentText(cs[k])
    ensures c in JoinWithSlash(cs)
  {
    if k > 0 {
      JoinWithSlashContains(cs[1..], k - 1, c);
    }
  }

  /** Every character of every component shows up in the rendered path. */
  lemma RenderContains(p: Path, k: nat, c: char)
    requires k < |p| && c in ComponentText(p[k])
    ensures c in Render(p)
  {
    if p[0] == RootDir {
      if k > 0 {
        JoinWithSlashContains(p[1..], k - 1, c);
      }
    } else {
      JoinWithSlashContains(p, k, c);
    }
  }
}
