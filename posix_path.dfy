/** The `os.path` functions powerline's git and segment code calls, with
    POSIX semantics, as functions on strings. `abspath` takes the process's working directory as
    a parameter instead of asking the operating system. */
module PosixPath {
  import opened Text

  const Sep: char := '/'

  /** `os.path.isabs(p)` */
  predicate IsAbs(p: string) {
    |p| > 0 && p[0] == Sep
  }

  /** `os.path.join(a, b)`: an absolute `b` replaces `a`; otherwise exactly
      one separator ends up between them. */
  function JoinPath(a: string, b: string): (r: string)
    ensures IsAbs(b) ==> r == b
    ensures !IsAbs(b) ==> StartsWith(r, a) && EndsWith(r, b)
    ensures !IsAbs(b) && a != [] && a[|a| - 1] != Sep ==> r == a + [Sep] + b
    ensures IsAbs(a) ==> IsAbs(r)
  {
    if IsAbs(b) then b
    else if a == [] || a[|a| - 1] == Sep then a + b
    else a + [Sep] + b
  }

  /** Index just after the last separator of `p`, 0 when there is none. */
  function AfterLastSep(p: string): (i: nat)
    ensures i <= |p|
    ensures i > 0 ==> p[i - 1] == Sep
    ensures forall j :: i <= j < |p| ==> p[j] != Sep
  {
    if |p| == 0 then 0
    else if p[|p| - 1] == Sep then |p|
    else AfterLastSep(p[..|p| - 1])
  }

  /** `os.path.basename(p)`: what follows the last separator. */
  function Basename(p: string): (r: string)
    ensures Sep !in r
    ensures EndsWith(p, r)
    ensures |r| < |p| ==> p[|p| - |r| - 1] == Sep
  {
    p[AfterLastSep(p)..]
  }

  /** The base name of a path ending in `/name` (or of `name` alone) is
      `name`. */
  lemma BasenameOf(prefix: string, name: string)
    requires Sep !in name
    requires prefix == [] || prefix[|prefix| - 1] == Sep
    ensures Basename(prefix + name) == name
  {
    var p := prefix + name;
    assert |prefix| > 0 ==> p[|prefix| - 1] == Sep;
    assert forall j :: |prefix| <= j < |p| ==> p[j] == name[j - |prefix|];
  }

  /** Applies one component to the stack of kept components, as the loop of
      `posixpath.normpath` does. */
  function PushComponent(acc: seq<string>, comp: string, rooted: bool): seq<string> {
    if comp == "" || comp == "." then acc
    else if comp != ".." || (!rooted && |acc| == 0) || (|acc| > 0 && acc[|acc| - 1] == "..") then acc + [comp]
    else if |acc| > 0 then acc[..|acc| - 1]
    else acc
  }

  function NormComponents(comps: seq<string>, rooted: bool): (kept: seq<string>)
    requires forall i :: 0 <= i < |comps| ==> Sep !in comps[i]
    ensures forall i :: 0 <= i < |kept| ==> kept[i] != "" && kept[i] != "." && Sep !in kept[i]
    ensures rooted ==> forall i :: 0 <= i < |kept| ==> kept[i] != ".."
  {
    if |comps| == 0 then []
    else PushComponent(NormComponents(comps[..|comps| - 1], rooted), comps[|comps| - 1], rooted)
  }

  /** Number of leading separators `normpath` keeps: POSIX gives two leading
      separators a meaning of their own, three or more count as one. */
  function LeadingSeps(p: string): (n: nat)
    ensures n <= 2 && (n > 0 <==> IsAbs(p))
  {
    if StartsWith(p, "//") && !StartsWith(p, "///") then 2
    else if StartsWith(p, "/") then 1
    else 0
  }

  /** `os.path.normpath(p)` */
  function NormPath(p: string): string {
    if p == "" then "."
    else
      var n := LeadingSeps(p);
      var r := seq(n, _ => Sep) + Join(NormComponents(Split(p, Sep), n > 0), Sep);
      if r == "" then "." else r
  }

  /** `os.path.abspath(p)` with `cwd` standing for `os.getcwd()`. */
  function AbsPath(cwd: string, p: string): string {
    NormPath(if IsAbs(p) then p else JoinPath(cwd, p))
  }

  lemma JoinFirst(parts: seq<string>)
    requires |parts| > 0 && parts[0] != ""
    ensures Join(parts, Sep) != "" && Join(parts, Sep)[0] == parts[0][0]
  {
  }

  /** `normpath` never returns the empty string, and keeps a path absolute
      exactly when it was. */
  lemma NormPathAbsolute(p: string)
    ensures NormPath(p) != ""
    ensures IsAbs(NormPath(p)) <==> IsAbs(p)
  {
    if p != "" && !IsAbs(p) {
      var kept := NormComponents(Split(p, Sep), false);
      assert LeadingSeps(p) == 0;
      assert seq(0, _ => Sep) + Join(kept, Sep) == Join(kept, Sep);
      if |kept| > 0 {
        JoinFirst(kept);
        assert kept[0][0] != Sep;
      }
    }
  }

  /** An absolute result of `normpath` has no `.` or `..` component left. */
  lemma NormPathRootedClean(p: string)
    requires IsAbs(p)
    ensures forall c :: c in Split(NormPath(p), Sep) ==> c != "." && c != ".."
  {
    var n := LeadingSeps(p);
    var kept := NormComponents(Split(p, Sep), true);
    var tail := Split(Join(kept, Sep), Sep);
    if |kept| == 0 {
      assert Split("", Sep) == [""];
    } else {
      SplitJoin(kept, Sep);
    }
    assert forall c :: c in tail ==> c != "." && c != "..";
    SplitPrefix("", Sep, Join(kept, Sep));
    assert "" + [Sep] + Join(kept, Sep) == [Sep] + Join(kept, Sep);
    if n == 2 {
      SplitPrefix("", Sep, [Sep] + Join(kept, Sep));
      assert "" + [Sep] + ([Sep] + Join(kept, Sep)) == [Sep, Sep] + Join(kept, Sep);
      assert NormPath(p) == [Sep, Sep] + Join(kept, Sep);
    } else {
      assert NormPath(p) == [Sep] + Join(kept, Sep);
    }
  }

  /** `abspath` gives an absolute path whenever the working directory it
      resolves against is absolute. */
  lemma AbsPathAbsolute(cwd: string, p: string)
    requires IsAbs(cwd)
    ensures IsAbs(AbsPath(cwd, p))
  {
    NormPathAbsolute(if IsAbs(p) then p else JoinPath(cwd, p));
  }
}
