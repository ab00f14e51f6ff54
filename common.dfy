/** The pure parts of powerline's common segments
    (powerline/segments/common.py): the divergence and branch highlight
    choices, the current-directory breadcrumb, `fuzzy_time`, `uptime` and the
    network-interface ranking key. What the segments ask the system for (the
    working directory, the clock, the uptime counter, the repository) is a
    parameter. */
module Common {
  import opened Outcomes
  import opened Text
  import Git
  import PosixPath

  /** The exceptions a segment lets out. */
  datatype SegmentError =
    | OsErrorRaised(errno: int)   // an OSError from `getcwd` other than ENOENT
    | IndexOutOfRange             // indexing an empty list
    | NotIterable                 // unpacking a `None` divergence

  // ---------------------------------------------------------------------
  // `divergence`

  /** A segment with one highlight group. */
  datatype DivergenceSegment = DivergenceSegment(contents: string, highlightGroup: string)

  /** What `guess(path=...)` and `repo.divergence()` supplied: no repository,
      a repository whose `divergence()` returned `None`, or one that returned
      the pair `(ahead, behind)`. */
  datatype DivergenceInput = NoRepository | NoDivergence | Divergence(ahead: int, behind: int)

  /** `divergence(pl, segment_info)` */
  function DivergenceSegmentOf(input: DivergenceInput): (r: Result<Option<DivergenceSegment>, SegmentError>)
    ensures r == Ok(None) <==> input.NoRepository?
    ensures r.Err? <==> input.NoDivergence?
    ensures input.Divergence? ==>
              (r.Ok? && r.value.Some? &&
               var seg := r.value.value;
               && (seg.highlightGroup == "divergence_both" <==> input.ahead != 0 && input.behind != 0)
               && (seg.highlightGroup == "divergence_ahead" <==> input.ahead != 0 && input.behind == 0)
               && (seg.highlightGroup == "divergence_behind" <==> input.ahead == 0 && input.behind != 0)
               && (seg.highlightGroup == "divergence_none" <==> input.ahead == 0 && input.behind == 0))
  {
    match input
    case NoRepository => Ok(None)
    case NoDivergence => Err(NotIterable)
    case Divergence(ahead, behind) =>
      var (content, hlgroup) :=
        if ahead != 0 && behind != 0 then ("\U{2B0D}", "divergence_both")
        else if ahead != 0 then ("\U{2B06}", "divergence_ahead")
        else if behind != 0 then ("\U{2B07}", "divergence_behind")
        else ("-", "divergence_none");
      Ok(Some(DivergenceSegment(content, hlgroup)))
  }

  /** Each highlight group comes with its own symbol. */
  lemma DivergenceSymbols(ahead: int, behind: int)
    ensures var seg := DivergenceSegmentOf(Divergence(ahead, behind)).value.value;
            && (seg.highlightGroup == "divergence_both" ==> seg.contents == "\U{2B0D}")
            && (seg.highlightGroup == "divergence_ahead" ==> seg.contents == "\U{2B06}")
            && (seg.highlightGroup == "divergence_behind" ==> seg.contents == "\U{2B07}")
            && (seg.highlightGroup == "divergence_none" ==> seg.contents == "-")
  {
  }

  /** A repository served by the command-line back-end never diverges: its
      segment is always `-` with `divergence_none`. */
  lemma CommandLineDivergence()
    ensures var d := Git.CliDivergence();
            DivergenceSegmentOf(Divergence(d.0, d.1)) == Ok(Some(DivergenceSegment("-", "divergence_none")))
  {
  }

  // ---------------------------------------------------------------------
  // `branch`

  /** What `tree_status(repo, pl)` did: raised, or returned a status string
      or `None`. */
  datatype TreeStatus = Raised | Returned(status: Option<string>)

  /** The status the segment goes on with: `'?'` when the call raised. */
  function EffectiveStatus(t: TreeStatus): Option<string> {
    match t
    case Raised => Some("?")
    case Returned(s) => s
  }

  /** `status and status.strip()` */
  predicate IsDirty(status: Option<string>) {
    status.Some? && status.value != "" && Strip(status.value) != ""
  }

  /** The highlight list of `branch(..., status_colors)`; `treeStatus` is
      consulted only when `statusColors` is set. */
  function BranchHighlight(statusColors: bool, treeStatus: TreeStatus): (groups: seq<string>)
    ensures |groups| == if statusColors then 2 else 1
    ensures groups[|groups| - 1] == "branch"
  {
    if statusColors then
      [if IsDirty(EffectiveStatus(treeStatus)) then "branch_dirty" else "branch_clean", "branch"]
    else ["branch"]
  }

  /** The segment `branch` returns around the label `repo.branch()` gave. */
  datatype BranchSegment = BranchSegment(contents: Git.Label, highlightGroup: seq<string>)

  /** `branch(pl, segment_info, create_watcher, status_colors)`: `branchLabel` is
      `None` when `guess` found no repository. */
  function BranchSegmentOf(branchLabel: Option<Git.Label>, statusColors: bool, treeStatus: TreeStatus): (r: Option<BranchSegment>)
    ensures r.Some? <==> branchLabel.Some?
    ensures r.Some? ==> r.value.contents == branchLabel.value
  {
    match branchLabel
    case None => None
    case Some(l) => Some(BranchSegment(l, BranchHighlight(statusColors, treeStatus)))
  }

  /** With status colours the branch is marked dirty exactly when the status
      has a non-whitespace character, and a failing status counts as dirty;
      without them the list is exactly `['branch']`. */
  lemma BranchHighlightChoice(statusColors: bool, treeStatus: TreeStatus)
    ensures !statusColors ==> BranchHighlight(statusColors, treeStatus) == ["branch"]
    ensures statusColors && treeStatus.Returned? ==>
              var s := treeStatus.status;
              (BranchHighlight(statusColors, treeStatus)[0] == "branch_dirty"
               <==> s.Some? && exists i :: 0 <= i < |s.value| && !IsSpace(s.value[i]))
    ensures statusColors && treeStatus.Raised? ==> BranchHighlight(statusColors, treeStatus)[0] == "branch_dirty"
  {
    if treeStatus.Returned? && treeStatus.status.Some? {
      StripEmpty(treeStatus.status.value);
    }
    if treeStatus.Raised? {
      assert !IsSpace('?');
      assert Strip("?") != "" by {
        StripEmpty("?");
      }
    }
  }

  // ---------------------------------------------------------------------
  // `CwdSegment.get_shortened_path`

  /** What `segment_info['getcwd']()` did. */
  datatype CwdLookup = Found(path: string) | OsError(errno: int)

  /** ENOENT: the working directory was removed. */
  const NoSuchFile: int := 2

  /** `get_shortened_path(pl, segment_info, shorten_home)`; `home` is
      `segment_info['home']`. */
  function ShortenedPath(lookup: CwdLookup, shortenHome: bool, home: Option<string>): (r: Result<string, SegmentError>)
    ensures lookup.OsError? ==> (r.Err? <==> lookup.errno != NoSuchFile)
    ensures lookup.OsError? && lookup.errno == NoSuchFile ==> r == Ok("[not found]")
    ensures lookup.Found? ==> r.Ok?
  {
    match lookup
    case OsError(errno) => if errno == NoSuchFile then Ok("[not found]") else Err(OsErrorRaised(errno))
    case Found(path) =>
      if shortenHome && home.Some? && home.value != "" && StartsWith(path, home.value)
      then Ok("~" + path[|home.value|..])
      else Ok(path)
  }

  /** The home prefix is a plain string prefix: the path is shortened exactly
      when it starts with a non-empty home, and then `~` stands for that
      prefix; otherwise it is left as it is. */
  lemma HomeShortening(path: string, shortenHome: bool, home: Option<string>)
    ensures var r := ShortenedPath(Found(path), shortenHome, home).value;
            && (shortenHome && home.Some? && home.value != "" && StartsWith(path, home.value)
                ==> r[0] == '~' && home.value + r[1..] == path)
            && (!(shortenHome && home.Some? && home.value != "" && StartsWith(path, home.value))
                ==> r == path)
  {
    if shortenHome && home.Some? && home.value != "" && StartsWith(path, home.value) {
      var r := ShortenedPath(Found(path), shortenHome, home).value;
      assert r[1..] == path[|home.value|..];
      assert path == path[..|home.value|] + path[|home.value|..];
    }
  }

  /** Not component-aware: a home of `/home/al` also shortens `/home/alice`. */
  lemma HomePrefixNotComponentAware()
    ensures ShortenedPath(Found("/home/alice"), true, Some("/home/al")) == Ok("~ice")
  {
    var path, home := "/home/alice", "/home/al";
    assert path[..|home|] == home;
    assert path[|home|..] == "ice";
    assert "~" + "ice" == "~ice";
  }

  // ---------------------------------------------------------------------
  // `CwdSegment.__call__`

  /** The segment's options: `dir_shorten_len`, `dir_limit_depth`,
      `use_path_separator` and `ellipsis` (`None` when a value is `None`). */
  datatype CwdOptions = CwdOptions(
    dirShortenLen: Option<int>,
    dirLimitDepth: Option<int>,
    usePathSeparator: bool,
    ellipsis: Option<string>)

  /** The defaults of `__call__`. */
  const DefaultCwdOptions: CwdOptions := CwdOptions(None, None, false, Some("\U{22EF}"))

  /** One dictionary of the returned list; `highlightGroup` is set only on
      the last one. */
  datatype CwdPart = CwdPart(
    contents: string,
    dividerHighlightGroup: string,
    drawInnerDivider: bool,
    highlightGroup: Option<seq<string>>)

  const DividerGroup: string := "cwd:divider"
  const CurrentFolderGroups: seq<string> := ["cwd:current_folder", "cwd"]

  /** `i[0:dir_shorten_len] if dir_shorten_len and i else i` */
  function ShortenDir(dir: string, dirShortenLen: Option<int>): (r: string)
    ensures dirShortenLen.Some? && dirShortenLen.value > 0 ==> |r| <= dirShortenLen.value
    ensures (dirShortenLen.None? || dirShortenLen.value == 0 || dir == "") ==> r == dir
  {
    if dirShortenLen.Some? && dirShortenLen.value != 0 && dir != "" then Take(dir, dirShortenLen.value)
    else dir
  }

  /** The list comprehension: every component but the last is shortened. */
  function ShortenComponents(split: seq<string>, dirShortenLen: Option<int>): (cwd: seq<string>)
    requires |split| > 0
    ensures |cwd| == |split| && cwd[|cwd| - 1] == split[|split| - 1]
    ensures forall i :: 0 <= i < |cwd| - 1 ==> cwd[i] == ShortenDir(split[i], dirShortenLen)
  {
    seq(|split| - 1, i requires 0 <= i < |split| - 1 => ShortenDir(split[i], dirShortenLen)) + [split[|split| - 1]]
  }

  /** `del cwd[0:-dir_limit_depth]` and the insertion of the ellipsis, done
      when `dir_limit_depth` is set and the path is deeper than it plus one. */
  function LimitDepth(cwd: seq<string>, dirLimitDepth: Option<int>, ellipsis: Option<string>): seq<string> {
    if dirLimitDepth.Some? && dirLimitDepth.value != 0 && |cwd| > dirLimitDepth.value + 1 then
      (if ellipsis.Some? then [ellipsis.value] else []) + Drop(cwd, -dirLimitDepth.value)
    else cwd
  }

  /** An empty first component stands for the root. */
  function Rooted(cwd: seq<string>): seq<string>
    requires |cwd| > 0
  {
    if cwd[0] == "" then cwd[0 := "/"] else cwd
  }

  /** The components that reach the loop: shortened, cut to the depth limit,
      with an empty first one standing for the root. `None` when the list
      is empty and `cwd[0]` raises. */
  function RootedComponents(path: string, opts: CwdOptions): (cwd: Option<seq<string>>)
    ensures cwd.Some? ==> |cwd.value| > 0 && cwd.value[0] != ""
  {
    var cwd := LimitDepth(ShortenComponents(Split(path, PosixPath.Sep), opts.dirShortenLen),
                          opts.dirLimitDepth, opts.ellipsis);
    if |cwd| == 0 then None else Some(Rooted(cwd))
  }

  /** The components that the loop does not skip, in order. */
  function NonEmptyParts(cwd: seq<string>): seq<string> {
    if |cwd| == 0 then []
    else NonEmptyParts(cwd[..|cwd| - 1]) + (if cwd[|cwd| - 1] == "" then [] else [cwd[|cwd| - 1]])
  }

  /** What the loop appends for one component. */
  function Entry(part: string, usePathSeparator: bool): CwdPart {
    CwdPart(if usePathSeparator then part + [PosixPath.Sep] else part, DividerGroup, !usePathSeparator, None)
  }

  /** The list the loop builds from `cwd`: one entry per non-empty component. */
  function Entries(cwd: seq<string>, usePathSeparator: bool): (ret: seq<CwdPart>)
    ensures |cwd| > 0 && cwd[0] != "" ==> |ret| > 0
    ensures forall i :: 0 <= i < |ret| ==> ret[i].contents != ""
  {
    NonEmptyPartsFacts(cwd);
    var parts := NonEmptyParts(cwd);
    seq(|parts|, i requires 0 <= i < |parts| => Entry(parts[i], usePathSeparator))
  }

  /** The treatment of the finished list: the last entry gets the highlight
      groups and, with separators, loses its trailing separator; the first
      entry of several loses a leading one. */
  function Finish(ret: seq<CwdPart>, usePathSeparator: bool): seq<CwdPart>
    requires |ret| > 0 && forall i :: 0 <= i < |ret| ==> ret[i].contents != ""
  {
    var last := |ret| - 1;
    var marked := ret[last := ret[last].(highlightGroup := Some(CurrentFolderGroups))];
    if !usePathSeparator then marked
    else
      var trimmed := marked[last := marked[last].(contents := Take(marked[last].contents, -1))];
      if |trimmed| > 1 && trimmed[0].contents[0] == PosixPath.Sep
      then trimmed[0 := trimmed[0].(contents := trimmed[0].contents[1..])]
      else trimmed
  }

  /** What `__call__` returns for the (already shortened) path. */
  function Breadcrumb(path: string, opts: CwdOptions): Result<seq<CwdPart>, SegmentError> {
    match RootedComponents(path, opts)
    case None => Err(IndexOutOfRange)
    case Some(cwd) =>
      Ok(Finish(Entries(cwd, opts.usePathSeparator), opts.usePathSeparator))
  }

  lemma {:induction false} NonEmptyPartsFacts(cwd: seq<string>)
    ensures |NonEmptyParts(cwd)| <= |cwd|
    ensures forall i :: 0 <= i < |NonEmptyParts(cwd)| ==> NonEmptyParts(cwd)[i] != "" && NonEmptyParts(cwd)[i] in cwd
    ensures |cwd| > 0 && cwd[0] != "" ==> |NonEmptyParts(cwd)| > 0
  {
    if |cwd| > 0 {
      var init := cwd[..|cwd| - 1];
      NonEmptyPartsFacts(init);
      assert forall x :: x in init ==> x in cwd;
      if |cwd| > 1 {
        assert init[0] == cwd[0];
      }
    }
  }

  lemma {:induction false} NonEmptyPartsAll(cwd: seq<string>)
    requires forall i :: 0 <= i < |cwd| ==> cwd[i] != ""
    ensures NonEmptyParts(cwd) == cwd
  {
    if |cwd| > 0 {
      NonEmptyPartsAll(cwd[..|cwd| - 1]);
      assert cwd[..|cwd| - 1] + [cwd[|cwd| - 1]] == cwd;
    }
  }

  /** `NonEmptyParts` distributes over concatenation. */
  lemma {:induction false} NonEmptyPartsAppend(a: seq<string>, b: seq<string>)
    ensures NonEmptyParts(a + b) == NonEmptyParts(a) + NonEmptyParts(b)
  {
    if |b| > 0 {
      var b0 := b[..|b| - 1];
      NonEmptyPartsAppend(a, b0);
      assert (a + b)[..|a + b| - 1] == a + b0;
    } else {
      assert a + b == a;
    }
  }

  /** One more component adds at most one entry at the end. */
  lemma EntriesSnoc(cwd: seq<string>, usePathSeparator: bool)
    requires |cwd| > 0
    ensures Entries(cwd, usePathSeparator)
            == Entries(cwd[..|cwd| - 1], usePathSeparator)
               + (if cwd[|cwd| - 1] == "" then [] else [Entry(cwd[|cwd| - 1], usePathSeparator)])
  {
  }

  /** The facts about each entry the loop builds. */
  predicate PlainEntry(e: CwdPart, usePathSeparator: bool) {
    && e.dividerHighlightGroup == DividerGroup
    && e.drawInnerDivider == !usePathSeparator
    && e.highlightGroup.None?
    && e.contents != ""
    && (usePathSeparator ==> |e.contents| >= 2)
  }

  /** No entry is empty, and a list whose first component is not empty
      gives at least one. */
  lemma EntriesPlain(cwd: seq<string>, usePathSeparator: bool)
    ensures var ret := Entries(cwd, usePathSeparator);
            && (|cwd| > 0 && cwd[0] != "" ==> |ret| > 0)
            && forall i :: 0 <= i < |ret| ==> ret[i].contents != "" && PlainEntry(ret[i], usePathSeparator)
  {
    NonEmptyPartsFacts(cwd);
  }

  /** The `for part in cwd` loop of `__call__`: skips empty components and
      appends one dictionary for each other one. */
  method AppendEntries(cwd: seq<string>, usePathSeparator: bool) returns (ret: seq<CwdPart>)
    ensures ret == Entries(cwd, usePathSeparator)
  {
    var drawInnerDivider := !usePathSeparator;
    ret := [];
    var k := 0;
    while k < |cwd|
      invariant 0 <= k <= |cwd|
      invariant ret == Entries(cwd[..k], usePathSeparator)
    {
      var part := cwd[k];
      if part != "" {
        if usePathSeparator {
          part := part + [PosixPath.Sep];
        }
        ret := ret + [CwdPart(part, DividerGroup, drawInnerDivider, None)];
      }
      EntriesSnoc(cwd[..k + 1], usePathSeparator);
      assert cwd[..k + 1][..k] == cwd[..k];
      k := k + 1;
    }
    assert cwd[..k] == cwd;
  }

  /** The end of `__call__`: `ret[-1]` gets the highlight groups and, with
      separators, the trailing and leading separators are dropped. */
  method MarkCurrentFolder(built: seq<CwdPart>, usePathSeparator: bool) returns (ret: seq<CwdPart>)
    requires |built| > 0 && forall i :: 0 <= i < |built| ==> built[i].contents != ""
    ensures ret == Finish(built, usePathSeparator)
  {
    ret := built;
    var last := |ret| - 1;
    ret := ret[last := ret[last].(highlightGroup := Some(CurrentFolderGroups))];
    if usePathSeparator {
      ret := ret[last := ret[last].(contents := ret[last].contents[..SliceBound(-1, |ret[last].contents|)])];
      if |ret| > 1 && ret[0].contents[0] == PosixPath.Sep {
        ret := ret[0 := ret[0].(contents := ret[0].contents[1..])];
      }
    }
  }

  /** `CwdSegment.__call__(pl, segment_info, ...)`: the working directory is
      looked up and shortened, split into components, and one entry is
      appended per non-empty component. */
  method CwdSegmentCall(lookup: CwdLookup, shortenHome: bool, home: Option<string>, opts: CwdOptions)
    returns (r: Result<seq<CwdPart>, SegmentError>)
    ensures r == match ShortenedPath(lookup, shortenHome, home)
                 case Err(e) => Err(e)
                 case Ok(path) => Breadcrumb(path, opts)
  {
    var shortened := ShortenedPath(lookup, shortenHome, home);
    if shortened.Err? {
      return Err(shortened.error);
    }
    var cwdSplit := Split(shortened.value, PosixPath.Sep);
    var cwdSplitLen := |cwdSplit|;
    var cwd := ShortenComponents(cwdSplit, opts.dirShortenLen);
    cwd := CutToDepth(cwd, cwdSplitLen, opts.dirLimitDepth, opts.ellipsis);
    if |cwd| == 0 {
      return Err(IndexOutOfRange);
    }
    if cwd[0] == "" {
      cwd := cwd[0 := "/"];
    }
    assert RootedComponents(shortened.value, opts) == Some(cwd);
    var ret := AppendEntries(cwd, opts.usePathSeparator);
    EntriesPlain(cwd, opts.usePathSeparator);
    ret := MarkCurrentFolder(ret, opts.usePathSeparator);
    assert Breadcrumb(shortened.value, opts) == Ok(ret);
    r := Ok(ret);
  }

  /** The depth limit of `__call__`: when the path had more than
      `dir_limit_depth + 1` components, `del cwd[0:-dir_limit_depth]`, then
      the ellipsis goes in front. */
  method CutToDepth(cwd: seq<string>, splitLen: int, dirLimitDepth: Option<int>, ellipsis: Option<string>)
    returns (r: seq<string>)
    requires splitLen == |cwd|
    ensures r == LimitDepth(cwd, dirLimitDepth, ellipsis)
  {
    r := cwd;
    if dirLimitDepth.Some? && dirLimitDepth.value != 0 && splitLen > dirLimitDepth.value + 1 {
      r := r[SliceBound(-dirLimitDepth.value, |r|)..];
      if ellipsis.Some? {
        r := [ellipsis.value] + r;
      }
    }
  }

  /** The shape of the list `__call__` returns: not empty, only the last
      entry carrying the current folder's highlight groups, no empty
      contents, and the same divider settings everywhere. */
  predicate WellMarked(r: seq<CwdPart>, usePathSeparator: bool) {
    && |r| > 0
    && r[|r| - 1].highlightGroup == Some(CurrentFolderGroups)
    && (forall i :: 0 <= i < |r| - 1 ==> r[i].highlightGroup.None?)
    && (forall i :: 0 <= i < |r| ==>
          && r[i].contents != ""
          && r[i].dividerHighlightGroup == DividerGroup
          && r[i].drawInnerDivider == !usePathSeparator)
  }

  /** What `Finish` does to each entry. */
  lemma FinishEntries(ret: seq<CwdPart>, usePathSeparator: bool)
    requires |ret| > 0 && forall i :: 0 <= i < |ret| ==> ret[i].contents != "" && PlainEntry(ret[i], usePathSeparator)
    ensures WellMarked(Finish(ret, usePathSeparator), usePathSeparator)
    ensures |Finish(ret, usePathSeparator)| == |ret|
    ensures !usePathSeparator ==> forall i :: 0 <= i < |ret| ==> Finish(ret, usePathSeparator)[i].contents == ret[i].contents
  {
  }

  /** Every entry but the last is unmarked, the last carries the current
      folder's highlight groups, and no entry is empty. */
  lemma BreadcrumbShape(path: string, opts: CwdOptions)
    ensures Breadcrumb(path, opts).Ok? ==> WellMarked(Breadcrumb(path, opts).value, opts.usePathSeparator)
  {
    var rooted := RootedComponents(path, opts);
    if rooted.Some? {
      var ret := Entries(rooted.value, opts.usePathSeparator);
      EntriesPlain(rooted.value, opts.usePathSeparator);
      assert Breadcrumb(path, opts) == Ok(Finish(ret, opts.usePathSeparator));
      FinishEntries(ret, opts.usePathSeparator);
    }
  }

  /** `__call__` raises IndexError exactly when a negative depth limit cuts
      away every component and no ellipsis replaces them. */
  lemma BreadcrumbFails(path: string, opts: CwdOptions)
    ensures Breadcrumb(path, opts).Err? <==>
              && opts.ellipsis.None?
              && opts.dirLimitDepth.Some? && opts.dirLimitDepth.value < 0
              && |Split(path, PosixPath.Sep)| <= -opts.dirLimitDepth.value
  {
    var cwd := ShortenComponents(Split(path, PosixPath.Sep), opts.dirShortenLen);
    var limited := LimitDepth(cwd, opts.dirLimitDepth, opts.ellipsis);
    assert Breadcrumb(path, opts).Err? <==> |limited| == 0;
  }

  /** A positive depth limit bounds the number of entries: at most that many
      components, plus the ellipsis. */
  lemma BreadcrumbDepth(path: string, opts: CwdOptions)
    requires opts.dirLimitDepth.Some? && opts.dirLimitDepth.value > 0
    ensures Breadcrumb(path, opts).Ok?
    ensures |Breadcrumb(path, opts).value| <= opts.dirLimitDepth.value + 1
  {
    var d := opts.dirLimitDepth.value;
    var cwd := ShortenComponents(Split(path, PosixPath.Sep), opts.dirShortenLen);
    LimitDepthBound(cwd, d, opts.ellipsis);
    assert opts.dirLimitDepth == Some(d);
    BreadcrumbLength(path, opts);
  }

  lemma LimitDepthBound(cwd: seq<string>, d: int, ellipsis: Option<string>)
    requires d > 0 && |cwd| > 0
    ensures 0 < |LimitDepth(cwd, Some(d), ellipsis)| <= d + 1
  {
    if |cwd| > d + 1 {
      assert |Drop(cwd, -d)| == d;
    }
  }

  /** The list has at most one entry per component that reaches the loop. */
  lemma BreadcrumbLength(path: string, opts: CwdOptions)
    requires RootedComponents(path, opts).Some?
    ensures Breadcrumb(path, opts).Ok?
    ensures |Breadcrumb(path, opts).value| <= |RootedComponents(path, opts).value|
  {
    var rooted := RootedComponents(path, opts).value;
    NonEmptyPartsFacts(rooted);
  }

  /** The contents of the entries, in order. */
  function ContentsOf(ret: seq<CwdPart>): (cs: seq<string>)
    ensures |cs| == |ret| && forall i :: 0 <= i < |ret| ==> cs[i] == ret[i].contents
  {
    seq(|ret|, i requires 0 <= i < |ret| => ret[i].contents)
  }

  /** `''.join(cs)` */
  function Concat(cs: seq<string>): string {
    if |cs| == 0 then "" else cs[0] + Concat(cs[1..])
  }

  /** The components, each but the last followed by the separator. */
  function WithSeparators(parts: seq<string>): (r: seq<string>)
    ensures |r| == |parts|
  {
    seq(|parts|, i requires 0 <= i < |parts| => if i < |parts| - 1 then parts[i] + [PosixPath.Sep] else parts[i])
  }

  lemma {:induction false} ConcatWithSeparators(parts: seq<string>)
    requires |parts| > 0
    ensures Concat(WithSeparators(parts)) == Join(parts, PosixPath.Sep)
  {
    if |parts| > 1 {
      assert WithSeparators(parts)[1..] == WithSeparators(parts[1..]);
      ConcatWithSeparators(parts[1..]);
    }
  }

  lemma SplitFirstEmpty(path: string)
    ensures Split(path, PosixPath.Sep)[0] == "" <==> PosixPath.IsAbs(path) || path == ""
  {
  }

  /** Without shortening or a depth limit the components are the split of
      the path, an empty first one replaced by the root. */
  lemma RootedUnlimited(path: string, opts: CwdOptions)
    requires opts.dirShortenLen.None? && opts.dirLimitDepth.None?
    ensures RootedComponents(path, opts) == Some(Rooted(Split(path, PosixPath.Sep)))
  {
    var split := Split(path, PosixPath.Sep);
    assert ShortenComponents(split, None) == split;
  }

  /** Without separators `Finish` leaves the contents alone... */
  lemma FinishKeepsContents(ret: seq<CwdPart>)
    requires |ret| > 0 && forall i :: 0 <= i < |ret| ==> ret[i].contents != ""
    ensures ContentsOf(Finish(ret, false)) == ContentsOf(ret)
  {
  }

  /** ... and the loop's contents are the non-empty components. */
  lemma UnseparatedEntries(cwd: seq<string>)
    ensures ContentsOf(Entries(cwd, false)) == NonEmptyParts(cwd)
  {
  }

  /** Replacing an empty first component by the root adds `/` in front of
      the non-empty components. */
  lemma RootedParts(split: seq<string>)
    requires |split| > 0 && split[0] == ""
    ensures NonEmptyParts(split[0 := "/"]) == ["/"] + NonEmptyParts(split)
  {
    var rooted := split[0 := "/"];
    NonEmptyPartsAppend(["/"], split[1..]);
    NonEmptyPartsAppend([""], split[1..]);
    assert rooted == ["/"] + split[1..];
    assert split == [""] + split[1..];
    assert NonEmptyParts([""]) == [];
    assert NonEmptyParts(["/"]) == ["/"];
  }

  /** Without separators and without shortening or a depth limit, the
      entries are the path's non-empty components in order, with `/` in
      front for an absolute path. */
  lemma BreadcrumbComponents(path: string, ellipsis: Option<string>)
    ensures var r := Breadcrumb(path, CwdOptions(None, None, false, ellipsis));
            && r.Ok?
            && ContentsOf(r.value)
               == (if PosixPath.IsAbs(path) || path == "" then ["/"] else []) + NonEmptyParts(Split(path, PosixPath.Sep))
  {
    var opts := CwdOptions(None, None, false, ellipsis);
    var split := Split(path, PosixPath.Sep);
    RootedUnlimited(path, opts);
    var rooted := Rooted(split);
    assert Breadcrumb(path, opts) == Ok(Finish(Entries(rooted, false), false));
    FinishKeepsContents(Entries(rooted, false));
    UnseparatedEntries(rooted);
    SplitFirstEmpty(path);
    if split[0] == "" {
      RootedParts(split);
    } else {
      assert [] + NonEmptyParts(split) == NonEmptyParts(rooted);
    }
  }

  /** The components, each followed by the separator. */
  function AppendSeparator(parts: seq<string>): (r: seq<string>)
    ensures |r| == |parts|
  {
    seq(|parts|, i requires 0 <= i < |parts| => parts[i] + [PosixPath.Sep])
  }

  /** With separators and no empty component, the loop's contents are the
      components each followed by the separator. */
  lemma SeparatedEntries(cwd: seq<string>)
    requires forall i :: 0 <= i < |cwd| ==> cwd[i] != ""
    ensures ContentsOf(Entries(cwd, true)) == AppendSeparator(cwd)
  {
    NonEmptyPartsAll(cwd);
  }

  /** `Finish` with separators, on components whose first one does not
      begin with the separator: only the last separator goes. */
  lemma FinishSeparated(ret: seq<CwdPart>, parts: seq<string>)
    requires |parts| > 0 && forall i :: 0 <= i < |parts| ==> parts[i] != ""
    requires ContentsOf(ret) == AppendSeparator(parts)
    requires |parts| > 1 ==> parts[0][0] != PosixPath.Sep
    ensures ContentsOf(Finish(ret, true)) == WithSeparators(parts)
  {
    var cs := ContentsOf(Finish(ret, true));
    var n := |parts|;
    assert ret[n - 1].contents == parts[n - 1] + [PosixPath.Sep];
    forall i | 0 <= i < n ensures cs[i] == WithSeparators(parts)[i] {
      assert ret[i].contents == parts[i] + [PosixPath.Sep];
    }
  }

  /** `Finish` with separators, on a root component followed by others: the
      root's doubled separator is halved as well. */
  lemma FinishSeparatedRoot(ret: seq<CwdPart>, parts: seq<string>)
    requires |parts| > 1 && parts[0] == "/" && forall i :: 0 <= i < |parts| ==> parts[i] != ""
    requires ContentsOf(ret) == AppendSeparator(parts)
    ensures ContentsOf(Finish(ret, true)) == ["/"] + WithSeparators(parts[1..])
  {
    var cs := ContentsOf(Finish(ret, true));
    var n := |ret|;
    var tail := parts[1..];
    assert ret[0].contents == "//";
    assert ret[n - 1].contents == tail[n - 2] + [PosixPath.Sep];
    forall i | 0 <= i < n ensures cs[i] == (["/"] + WithSeparators(tail))[i] {
      if i > 0 {
        assert ret[i].contents == tail[i - 1] + [PosixPath.Sep];
      }
    }
  }

  /** Put together, the separated entries of a relative path's components
      spell the components joined by the separator... */
  lemma SpellRelative(parts: seq<string>)
    requires |parts| > 0 && forall i :: 0 <= i < |parts| ==> parts[i] != ""
    requires PosixPath.Sep !in parts[0]
    ensures Concat(ContentsOf(Finish(Entries(parts, true), true))) == Join(parts, PosixPath.Sep)
  {
    SeparatedEntries(parts);
    FinishSeparated(Entries(parts, true), parts);
    ConcatWithSeparators(parts);
  }

  /** ... and so do those of an absolute path, whose empty first component
      became the root. */
  lemma SpellRooted(rooted: seq<string>)
    requires |rooted| > 1 && rooted[0] == "/" && forall i :: 0 <= i < |rooted| ==> rooted[i] != ""
    ensures Concat(ContentsOf(Finish(Entries(rooted, true), true))) == Join([""] + rooted[1..], PosixPath.Sep)
  {
    SeparatedEntries(rooted);
    FinishSeparatedRoot(Entries(rooted, true), rooted);
    ConcatRoot(rooted[1..]);
  }

  lemma ConcatRoot(tail: seq<string>)
    requires |tail| > 0
    ensures Concat(["/"] + WithSeparators(tail)) == Join([""] + tail, PosixPath.Sep)
  {
    var cs := ["/"] + WithSeparators(tail);
    var joined := Join(tail, PosixPath.Sep);
    assert cs[1..] == WithSeparators(tail);
    ConcatWithSeparators(tail);
    assert Concat(cs) == "/" + joined;
    var split := [""] + tail;
    assert split[1..] == tail;
    assert Join(split, PosixPath.Sep) == "" + [PosixPath.Sep] + joined;
    assert "" + [PosixPath.Sep] + joined == "/" + joined;
  }

  /** Both cases together: the separated entries spell the components
      joined by the separator. */
  lemma SpellComponents(split: seq<string>)
    requires |split| > 0 && Join(split, PosixPath.Sep) != ""
    requires forall i :: 0 < i < |split| ==> split[i] != ""
    requires PosixPath.Sep !in split[0]
    ensures |Rooted(split)| > 0 && Rooted(split)[0] != ""
    ensures Concat(ContentsOf(Finish(Entries(Rooted(split), true), true))) == Join(split, PosixPath.Sep)
  {
    var rooted := Rooted(split);
    if split[0] == "" {
      assert |split| > 1;
      assert rooted[1..] == split[1..] && split == [""] + split[1..];
      SpellRooted(rooted);
    } else {
      SpellRelative(split);
    }
  }

  /** With `use_path_separator` and neither shortening nor a depth limit, the
      entries put together spell the path itself, provided it has no empty
      component other than a leading one. */
  lemma BreadcrumbRoundTrip(path: string, ellipsis: Option<string>)
    requires path != ""
    requires forall i :: 0 < i < |Split(path, PosixPath.Sep)| ==> Split(path, PosixPath.Sep)[i] != ""
    ensures var r := Breadcrumb(path, CwdOptions(None, None, true, ellipsis));
            r.Ok? && Concat(ContentsOf(r.value)) == path
  {
    var opts := CwdOptions(None, None, true, ellipsis);
    var split := Split(path, PosixPath.Sep);
    RootedUnlimited(path, opts);
    JoinSplit(path, PosixPath.Sep);
    SpellComponents(split);
    assert Breadcrumb(path, opts) == Ok(Finish(Entries(Rooted(split), true), true));
  }

  /** Skipping empty components keeps a length bound on all components but
      the last, and a non-empty last component stays last. */
  lemma PartsBounded(cwd: seq<string>, n: int)
    requires |cwd| > 0 && forall j :: 0 <= j < |cwd| - 1 ==> |cwd[j]| <= n
    ensures var parts := NonEmptyParts(cwd);
            && (forall i :: 0 <= i < |parts| - 1 ==> |parts[i]| <= n)
            && (cwd[|cwd| - 1] != "" ==> |parts| > 0 && parts[|parts| - 1] == cwd[|cwd| - 1])
  {
    var init := cwd[..|cwd| - 1];
    NonEmptyPartsFacts(init);
    var head := NonEmptyParts(init);
    assert forall i :: 0 <= i < |head| ==> |head[i]| <= n by {
      forall i | 0 <= i < |head| ensures |head[i]| <= n {
        var j :| 0 <= j < |init| && init[j] == head[i];
      }
    }
  }

  /** The components reaching the loop when only `dir_shorten_len` is set:
      every one but the last is at most that long, and the last is the
      path's last component unless the path is the root alone. */
  lemma ShortenedRooted(path: string, n: int, ellipsis: Option<string>)
    requires n > 0
    ensures var cwd := RootedComponents(path, CwdOptions(Some(n), None, false, ellipsis));
            var split := Split(path, PosixPath.Sep);
            && cwd.Some?
            && (forall j :: 0 <= j < |cwd.value| - 1 ==> |cwd.value[j]| <= n)
            && (split[|split| - 1] != "" ==> cwd.value[|cwd.value| - 1] == split[|split| - 1])
  {
    var split := Split(path, PosixPath.Sep);
    var shortened := ShortenComponents(split, Some(n));
    forall j | 0 <= j < |shortened| - 1 ensures |shortened[j]| <= n {
      assert shortened[j] == ShortenDir(split[j], Some(n));
    }
    RootedKeeps(shortened, n);
    assert LimitDepth(shortened, None, ellipsis) == shortened;
    assert RootedComponents(path, CwdOptions(Some(n), None, false, ellipsis)) == Some(Rooted(shortened));
  }

  /** Rooting keeps a length bound of at least one on all components but
      the last, and a non-empty last component. */
  lemma RootedKeeps(cwd: seq<string>, n: int)
    requires |cwd| > 0 && n > 0 && forall j :: 0 <= j < |cwd| - 1 ==> |cwd[j]| <= n
    ensures |Rooted(cwd)| == |cwd|
    ensures forall j :: 0 <= j < |cwd| - 1 ==> |Rooted(cwd)[j]| <= n
    ensures cwd[|cwd| - 1] != "" ==> Rooted(cwd)[|cwd| - 1] == cwd[|cwd| - 1]
  {
    var rooted := Rooted(cwd);
    forall j | 0 <= j < |cwd| - 1 ensures |rooted[j]| <= n {
      if j == 0 && cwd[0] == "" {
        assert rooted[0] == "/";
      } else {
        assert rooted[j] == cwd[j];
      }
    }
  }

  /** With a positive `dir_shorten_len` and no depth limit, every entry but
      the last is at most that long, and a non-empty last component is shown
      in full. */
  lemma BreadcrumbShortened(path: string, n: int, ellipsis: Option<string>)
    requires n > 0
    ensures var r := Breadcrumb(path, CwdOptions(Some(n), None, false, ellipsis));
            var split := Split(path, PosixPath.Sep);
            && r.Ok?
            && (forall i :: 0 <= i < |r.value| - 1 ==> |r.value[i].contents| <= n)
            && (split[|split| - 1] != "" ==> r.value[|r.value| - 1].contents == split[|split| - 1])
  {
    var opts := CwdOptions(Some(n), None, false, ellipsis);
    ShortenedRooted(path, n, ellipsis);
    var rooted := RootedComponents(path, opts).value;
    var ret := Entries(rooted, false);
    assert Breadcrumb(path, opts) == Ok(Finish(ret, false));
    FinishKeepsContents(ret);
    UnseparatedEntries(rooted);
    PartsBounded(rooted, n);
    var cs := ContentsOf(Finish(ret, false));
    assert cs == NonEmptyParts(rooted);
  }

  // ---------------------------------------------------------------------
  // `fuzzy_time`

  const HourNames: seq<string> :=
    ["twelve", "one", "two", "three", "four", "five", "six", "seven", "eight", "nine", "ten", "eleven"]

  /** The phrase for a minute that is a multiple of five between 5 and 55. */
  function MinuteName(minute: int): string
    requires minute % 5 == 0 && 5 <= minute <= 55
  {
    ["five past", "ten past", "quarter past", "twenty past", "twenty-five past", "half past",
     "twenty-five to", "twenty to", "quarter to", "ten to", "five to"][minute / 5 - 1]
  }

  /** The times with a fixed phrase. */
  function SpecialTime(hour: int, minute: int): Option<string> {
    if (hour, minute) == (0, 0) then Some("midnight")
    else if (hour, minute) == (12, 0) then Some("noon")
    else if (hour, minute) == (23, 58) || (hour, minute) == (23, 59)
         || (hour, minute) == (0, 1) || (hour, minute) == (0, 2)
    then Some("round about midnight")
    else None
  }

  /** `int(round(minute / 5.0) * 5)`: no minute lies half-way between two
      multiples of five, so the rounding mode never matters. */
  function RoundToFive(minute: int): (r: int)
    ensures r % 5 == 0 && minute - 2 <= r <= minute + 2
  {
    (minute + 2) / 5 * 5
  }

  /** `UNICODE_TEXT_TRANSLATION`: the apostrophe becomes U+2019 and the
      hyphen-minus U+2010. */
  function TranslateChar(c: char): char {
    if c == '\'' then '\U{2019}' else if c == '-' then '\U{2010}' else c
  }

  /** `s.translate(UNICODE_TEXT_TRANSLATION)` */
  function Translate(s: string): (r: string)
    ensures |r| == |s|
    ensures '\'' !in r && '-' !in r
    ensures forall i :: 0 <= i < |s| && s[i] != '\'' && s[i] != '-' ==> r[i] == s[i]
  {
    seq(|s|, i requires 0 <= i < |s| => TranslateChar(s[i]))
  }

  /** `' '.join([first, second])` */
  function Phrase(first: string, second: string): string {
    first + " " + second
  }

  /** `fuzzy_time(pl, unicode_text)` for the local time `hour:minute`. A
      fixed phrase is returned as it is; otherwise the hour moves on past
      the 32nd minute and the minute is rounded to five. */
  function FuzzyTime(hour: int, minute: int, unicodeText: bool): string
    requires 0 <= hour < 24 && 0 <= minute < 60
  {
    match SpecialTime(hour, minute)
    case Some(phrase) => phrase
    case None =>
      var h := if minute > 32 then (if hour == 23 then 0 else hour + 1) else hour;
      var h12 := if h > 11 then h - 12 else h;
      var m := RoundToFive(minute);
      var result := if m == 60 || m == 0 then Phrase(HourNames[h12], "o'clock")
                    else Phrase(MinuteName(m), HourNames[h12]);
      if unicodeText then Translate(result) else result
  }

  /** An independent description of a time of day rounded to the nearest
      five minutes (`t5` minutes after midnight): "o'clock" on the hour,
      "past" the hour up to the half hour, and "to" the next hour after it. */
  function DescribeRounded(t5: int): string
    requires 0 <= t5 < 1440 && t5 % 5 == 0
  {
    var h, m := t5 / 60, t5 % 60;
    if m == 0 then Phrase(HourNames[h % 12], "o'clock")
    else if m <= 30 then Phrase(MinuteName(m), HourNames[h % 12])
    else Phrase(MinuteName(m), HourNames[(h + 1) % 12])
  }

  /** Rounding the minutes of the day to five: within the hour, or onto the
      next hour when the minute rounds up to 60. */
  lemma RoundedTimeOfDay(hour: int, minute: int)
    requires 0 <= hour < 24 && 0 <= minute < 60
    requires SpecialTime(hour, minute).None?
    ensures var t5 := RoundToFive(hour * 60 + minute) % 1440;
            var m := RoundToFive(minute);
            && 0 <= t5 < 1440 && t5 % 5 == 0
            && (m == 60 ==> hour < 23 && t5 / 60 == hour + 1 && t5 % 60 == 0)
            && (m != 60 ==> t5 / 60 == hour && t5 % 60 == m)
  {
    var a := (minute + 2) / 5;
    assert minute + 2 == a * 5 + (minute + 2) % 5;
    assert hour * 60 + minute + 2 == (hour * 12 + a) * 5 + (minute + 2) % 5;
    assert RoundToFive(hour * 60 + minute) == hour * 60 + RoundToFive(minute);
  }

  /** `DescribeRounded` read off the hour and the minute of the rounded time. */
  lemma DescribeRoundedAt(t5: int, h: int, m: int)
    requires 0 <= t5 < 1440 && t5 % 5 == 0
    requires t5 / 60 == h && t5 % 60 == m
    ensures DescribeRounded(t5)
            == if m == 0 then Phrase(HourNames[h % 12], "o'clock")
               else Phrase(MinuteName(m), HourNames[(if m <= 30 then h else h + 1) % 12])
  {
  }

  /** `FuzzyTime` away from the fixed phrases, with the twelve-hour clock
      written as a remainder. */
  lemma FuzzyTimeAt(hour: int, minute: int)
    requires 0 <= hour < 24 && 0 <= minute < 60
    requires SpecialTime(hour, minute).None?
    ensures var m := RoundToFive(minute);
            var h12 := (if minute > 32 then hour + 1 else hour) % 12;
            FuzzyTime(hour, minute, false)
            == if m == 60 || m == 0 then Phrase(HourNames[h12], "o'clock")
               else Phrase(MinuteName(m), HourNames[h12])
  {
    var h := if minute > 32 then (if hour == 23 then 0 else hour + 1) else hour;
    var h12 := if h > 11 then h - 12 else h;
    assert h12 == (if minute > 32 then hour + 1 else hour) % 12;
  }

  /** Apart from the fixed phrases, `fuzzy_time` names the time rounded to
      the nearest five minutes. */
  lemma FuzzyTimeNearest(hour: int, minute: int)
    requires 0 <= hour < 24 && 0 <= minute < 60
    requires SpecialTime(hour, minute).None?
    ensures FuzzyTime(hour, minute, false) == DescribeRounded(RoundToFive(hour * 60 + minute) % 1440)
  {
    RoundedTimeOfDay(hour, minute);
    FuzzyTimeAt(hour, minute);
    var t5 := RoundToFive(hour * 60 + minute) % 1440;
    var m := RoundToFive(minute);
    if m == 60 {
      DescribeRoundedAt(t5, hour + 1, 0);
    } else {
      DescribeRoundedAt(t5, hour, m);
    }
  }

  /** With `unicode_text` the phrase is the translated ASCII phrase; the fixed
      phrases have nothing to translate. */
  lemma FuzzyTimeUnicode(hour: int, minute: int)
    requires 0 <= hour < 24 && 0 <= minute < 60
    ensures FuzzyTime(hour, minute, true) == Translate(FuzzyTime(hour, minute, false))
  {
    match SpecialTime(hour, minute)
    case Some(phrase) =>
      assert '\'' !in phrase && '-' !in phrase;
      assert Translate(phrase) == phrase;
    case None =>
  }

  lemma FuzzyTimeExamples()
    ensures FuzzyTime(18, 14, false) == "quarter past six"
    ensures FuzzyTime(9, 58, false) == "ten o'clock"
    ensures FuzzyTime(23, 59, true) == "round about midnight"
  {
    assert FuzzyTime(18, 14, false) == Phrase("quarter past", "six");
    assert FuzzyTime(9, 58, false) == Phrase("ten", "o'clock");
  }

  lemma TranslateExamples()
    ensures Translate("twenty-five to eleven") == "twenty\U{2010}five to eleven"
    ensures Translate("ten o'clock") == "ten o\U{2019}clock"
  {
  }

  // ---------------------------------------------------------------------
  // `_interface_key`

  /** `_interface_starts`: the ranking weight of known interface-name
      prefixes. */
  const InterfaceStarts: map<string, int> :=
    map["eth" := 10, "enp" := 10, "ath" := 9, "wlan" := 9, "wlp" := 9, "teredo" := 1, "lo" := -10]

  /** The weight of a prefix missing from `_interface_starts`, already
      multiplied by 100. */
  const UnknownBase: int := 500

  predicate IsLower(c: char) { 'a' <= c <= 'z' }

  /** Length of the run of lower-case ASCII letters at the start of `s`. */
  function LetterRun(s: string): (n: nat)
    ensures n <= |s|
    ensures forall i :: 0 <= i < n ==> IsLower(s[i])
    ensures n < |s| ==> !IsLower(s[n])
  {
    if |s| > 0 && IsLower(s[0]) then 1 + LetterRun(s[1..]) else 0
  }

  /** The letter run of a word of lower-case letters followed by something
      else is the word. */
  lemma {:induction false} LetterRunOf(letters: string, rest: string)
    requires forall i :: 0 <= i < |letters| ==> IsLower(letters[i])
    requires rest == [] || !IsLower(rest[0])
    ensures LetterRun(letters + rest) == |letters|
  {
    if |letters| > 0 {
      assert (letters + rest)[1..] == letters[1..] + rest;
      LetterRunOf(letters[1..], rest);
    } else {
      assert letters + rest == rest;
    }
  }

  /** The two groups of a match of `^([a-z]+?)(\d|$)`: the letters, and the
      digit after them (`None` where the empty alternative `$` matched). */
  datatype InterfaceStart = InterfaceStart(letters: string, digit: Option<int>)

  /** Whether `$` matches at position `k` of `s`: at the very end, or just
      before a final newline. */
  predicate AtEnd(s: string, k: int)
    requires 0 <= k <= |s|
  {
    k == |s| || (k == |s| - 1 && s[k] == '\n')
  }

  /** `_interface_start_re.match(s)`. The letter group is lazy, so the match
      ends at the first position where a digit or the end follows; letters
      can only stop where the run of letters stops. */
  function MatchInterfaceStart(s: string): Option<InterfaceStart> {
    var n := LetterRun(s);
    if n == 0 then None
    else if n < |s| && IsDigit(s[n]) then Some(InterfaceStart(s[..n], Some((s[n] as int) - ('0' as int))))
    else if AtEnd(s, n) then Some(InterfaceStart(s[..n], None))
    else None
  }

  /** The regular expression's own reading, as a reference: a match of
      length `k` takes `k >= 1` lower-case letters and then a digit or the
      end. */
  predicate MatchesAt(s: string, k: int) {
    && 1 <= k <= |s|
    && (forall i :: 0 <= i < k ==> IsLower(s[i]))
    && ((k < |s| && IsDigit(s[k])) || AtEnd(s, k))
  }

  /** `MatchInterfaceStart` finds a match exactly when the pattern matches
      somewhere, and then it is the shortest one, as a lazy `+?` demands;
      the digit group holds the digit that follows, if any. */
  lemma InterfaceStartIsLeastMatch(s: string)
    ensures MatchInterfaceStart(s).Some? <==> exists k :: MatchesAt(s, k)
    ensures MatchInterfaceStart(s).Some? ==>
              var m := MatchInterfaceStart(s).value;
              var k := |m.letters|;
              && MatchesAt(s, k) && m.letters == s[..k]
              && (forall j :: 1 <= j < k ==> !MatchesAt(s, j))
              && (m.digit.Some? <==> k < |s| && IsDigit(s[k]))
              && (m.digit.Some? ==> 0 <= m.digit.value <= 9 && s[k] == DigitChar(m.digit.value))
  {
    var n := LetterRun(s);
    if exists k :: MatchesAt(s, k) {
      var k :| MatchesAt(s, k);
      if k < n {
        assert false;
      }
      if k > n {
        assert false;
      }
    }
    if MatchInterfaceStart(s).Some? {
      assert MatchesAt(s, n);
      forall j | 1 <= j < n ensures !MatchesAt(s, j) {
        assert IsLower(s[j]);
      }
    }
  }

  /** `_interface_key(interface)` */
  function InterfaceKey(name: string): int {
    match MatchInterfaceStart(name)
    case None => 0
    case Some(m) =>
      var base := if m.letters in InterfaceStarts then InterfaceStarts[m.letters] * 100 else UnknownBase;
      match m.digit
      case Some(d) => base - d
      case None => base
  }

  /** The key of a matching name lies in the nine below its prefix's base:
      a known prefix's weight times 100, or 500. A name that does not match
      gets 0. */
  lemma InterfaceKeyRange(name: string)
    ensures MatchInterfaceStart(name).None? ==> InterfaceKey(name) == 0
    ensures MatchInterfaceStart(name).Some? ==>
              var m := MatchInterfaceStart(name).value;
              var base := if m.letters in InterfaceStarts then InterfaceStarts[m.letters] * 100 else UnknownBase;
              && base - 9 <= InterfaceKey(name) <= base
              && (InterfaceKey(name) == base <==> m.digit.None? || m.digit.value == 0)
  {
    InterfaceStartIsLeastMatch(name);
  }

  /** The weight `internal_ip` ranks a name by, before the digit is taken
      off. */
  function InterfaceBase(name: string): Option<int> {
    match MatchInterfaceStart(name)
    case None => None
    case Some(m) => Some(if m.letters in InterfaceStarts then InterfaceStarts[m.letters] * 100 else UnknownBase)
  }

  /** The digit never outweighs the prefix: of two matching names, the one
      whose base is higher gets the higher key. So in the descending sort
      that picks the interface, ethernet comes before Wi-Fi, Wi-Fi before
      unknown kinds, and loopback last. */
  lemma InterfaceKeyRanking(a: string, b: string)
    requires InterfaceBase(a).Some? && InterfaceBase(b).Some?
    requires InterfaceBase(a).value > InterfaceBase(b).value
    ensures InterfaceKey(a) > InterfaceKey(b)
  {
    InterfaceKeyRange(a);
    InterfaceKeyRange(b);
    var ka := MatchInterfaceStart(a).value.letters;
    var kb := MatchInterfaceStart(b).value.letters;
    assert InterfaceBase(a).value - InterfaceBase(b).value >= 100 by {
      assert forall x :: x in InterfaceStarts ==> InterfaceStarts[x] in {10, 9, 1, -10};
    }
  }

  /** The key of letters followed by a digit: the letters' base less the
      digit. */
  lemma KeyWithDigit(letters: string, d: char, rest: string)
    requires letters != [] && forall i :: 0 <= i < |letters| ==> IsLower(letters[i])
    requires IsDigit(d)
    ensures InterfaceKey(letters + [d] + rest)
            == (if letters in InterfaceStarts then InterfaceStarts[letters] * 100 else UnknownBase)
               - ((d as int) - ('0' as int))
  {
    var s := letters + [d] + rest;
    assert s == letters + ([d] + rest);
    LetterRunOf(letters, [d] + rest);
    assert s[..|letters|] == letters && s[|letters|] == d;
  }

  /** The key of a name made of letters alone is their base. */
  lemma KeyOfLetters(letters: string)
    requires letters != [] && forall i :: 0 <= i < |letters| ==> IsLower(letters[i])
    ensures InterfaceKey(letters)
            == if letters in InterfaceStarts then InterfaceStarts[letters] * 100 else UnknownBase
  {
    LetterRunOf(letters, "");
    assert letters + "" == letters && letters[..|letters|] == letters;
  }

  lemma InterfaceKeyExampleEthernet()
    ensures InterfaceKey("eth0") == 1000
  {
    KeyWithDigit("eth", '0', "");
    assert "eth" + ['0'] + "" == "eth0";
  }

  lemma InterfaceKeyExampleWireless()
    ensures InterfaceKey("wlan1") == 899
  {
    KeyWithDigit("wlan", '1', "");
    assert "wlan" + ['1'] + "" == "wlan1";
  }

  /** Only the first digit counts: `enp2s0` ranks by its `2`. */
  lemma InterfaceKeyExampleFirstDigit()
    ensures InterfaceKey("enp2s0") == 998
  {
    KeyWithDigit("enp", '2', "s0");
    assert "enp" + ['2'] + "s0" == "enp2s0";
  }

  lemma InterfaceKeyExamplesBare()
    ensures InterfaceKey("lo") == -1000
    ensures InterfaceKey("teredo") == 100
  {
    assert InterfaceKey("lo") == -1000 by { KeyOfLetters("lo"); }
    assert InterfaceKey("teredo") == 100 by { KeyOfLetters("teredo"); }
  }

  lemma InterfaceKeyExampleUnknown()
    ensures InterfaceKey("docker0") == 500
  {
    KeyWithDigit("docker", '0', "");
    assert "docker" + ['0'] + "" == "docker0";
  }

  lemma InterfaceKeyExamplesUnmatched()
    ensures InterfaceKey("br-lan") == 0
    ensures InterfaceKey("123") == 0
  {
    LetterRunOf("br", "-lan");
    assert "br" + "-lan" == "br-lan";
  }

  // ---------------------------------------------------------------------
  // `uptime`

  /** A piece of a format string: literal text, or the one replacement
      field `{days:d}` (`{hours:d}`, ...) it is given. */
  datatype FormatPiece = Lit(text: string) | Field

  /** A format string, read as its pieces. */
  type UptimeFormat = seq<FormatPiece>

  /** `fmt.format(days=n)` and the like: each field is the decimal `n`. */
  function Render(fmt: UptimeFormat, n: int): string {
    if |fmt| == 0 then ""
    else (match fmt[0] case Lit(t) => t case Field => IntToString(n)) + Render(fmt[1..], n)
  }

  /** The truth value of the format string: it is not empty. */
  predicate NonEmptyFormat(fmt: UptimeFormat) {
    exists i :: 0 <= i < |fmt| && (fmt[i].Field? || fmt[i].text != "")
  }

  /** The four format arguments of `uptime`. */
  datatype UptimeFormats = UptimeFormats(days: UptimeFormat, hours: UptimeFormat,
                                         minutes: UptimeFormat, seconds: UptimeFormat)

  /** `'{days:d}d'`, `' {hours:d}h'`, `' {minutes:d}m'`, `' {seconds:d}s'` */
  const DefaultUptimeFormats: UptimeFormats :=
    UptimeFormats([Field, Lit("d")], [Lit(" "), Field, Lit("h")],
                  [Lit(" "), Field, Lit("m")], [Lit(" "), Field, Lit("s")])

  /** The default `shorten_len`. */
  const DefaultShortenLen: int := 3

  /** Days, hours, minutes and seconds of an uptime. */
  datatype Duration = Duration(days: int, hours: int, minutes: int, seconds: int)

  /** The chain of `divmod` calls: Python's `divmod` by a positive divisor
      floors, as Dafny's division does. */
  function Decompose(seconds: int): (d: Duration)
    ensures d.days * 86400 + d.hours * 3600 + d.minutes * 60 + d.seconds == seconds
    ensures 0 <= d.hours < 24 && 0 <= d.minutes < 60 && 0 <= d.seconds < 60
  {
    var minutes, secs := seconds / 60, seconds % 60;
    var hours, mins := minutes / 60, minutes % 60;
    var days, hrs := hours / 24, hours % 24;
    Duration(days, hrs, mins, secs)
  }

  /** One entry of the list `uptime` filters: the formatted unit when both
      the value and the format are truthy, `None` otherwise. */
  function UnitPiece(value: int, fmt: UptimeFormat): Option<string> {
    if value != 0 && NonEmptyFormat(fmt) then Some(Render(fmt, value)) else None
  }

  /** `filter(None, entries)`: drops `None` and the empty string. */
  function KeepTruthy(entries: seq<Option<string>>): (kept: seq<string>)
    ensures |kept| <= |entries|
    ensures forall i :: 0 <= i < |kept| ==> kept[i] != ""
  {
    if |entries| == 0 then []
    else
      var rest := KeepTruthy(entries[1..]);
      match entries[0]
      case Some(t) => if t != "" then [t] + rest else rest
      case None => rest
  }

  /** The entries of `uptime` in order: days, hours, minutes, seconds. */
  function UptimeEntries(d: Duration, formats: UptimeFormats): seq<Option<string>> {
    [UnitPiece(d.days, formats.days), UnitPiece(d.hours, formats.hours),
     UnitPiece(d.minutes, formats.minutes), UnitPiece(d.seconds, formats.seconds)]
  }

  /** The pieces `uptime` joins: the truthy entries, cut to `shorten_len`. */
  function UptimePieces(seconds: int, formats: UptimeFormats, shortenLen: int): seq<string> {
    Take(KeepTruthy(UptimeEntries(Decompose(seconds), formats)), shortenLen)
  }

  /** `uptime(pl, days_format, hours_format, minutes_format, seconds_format,
      shorten_len)`, where `seconds` is what `_get_uptime()` returned and
      `None` stands for its `NotImplementedError`. */
  function Uptime(seconds: Option<int>, formats: UptimeFormats, shortenLen: int): (r: Option<string>)
    ensures r.None? <==> seconds.None?
  {
    match seconds
    case None => None
    case Some(s) => Some(Strip(Concat(UptimePieces(s, formats, shortenLen))))
  }

  /** A non-empty format string renders to a non-empty string, so the
      `filter` in `uptime` drops only the `None` entries. */
  lemma {:induction false} RenderNonEmpty(fmt: UptimeFormat, n: int)
    requires NonEmptyFormat(fmt)
    ensures Render(fmt, n) != ""
  {
    var i :| 0 <= i < |fmt| && (fmt[i].Field? || fmt[i].text != "");
    if i > 0 {
      assert fmt[1..][i - 1] == fmt[i];
      RenderNonEmpty(fmt[1..], n);
    }
  }

  /** Number of units `uptime` has something to show for. */
  function ShownUnits(d: Duration, formats: UptimeFormats): nat {
    (if d.days != 0 && NonEmptyFormat(formats.days) then 1 else 0)
    + (if d.hours != 0 && NonEmptyFormat(formats.hours) then 1 else 0)
    + (if d.minutes != 0 && NonEmptyFormat(formats.minutes) then 1 else 0)
    + (if d.seconds != 0 && NonEmptyFormat(formats.seconds) then 1 else 0)
  }

  lemma {:induction false} KeepTruthyAppend(a: seq<Option<string>>, b: seq<Option<string>>)
    ensures KeepTruthy(a + b) == KeepTruthy(a) + KeepTruthy(b)
  {
    if |a| > 0 {
      assert (a + b)[1..] == a[1..] + b;
      KeepTruthyAppend(a[1..], b);
    } else {
      assert a + b == b;
    }
  }

  /** The rendered unit when it is shown, nothing otherwise. */
  function Shown(value: int, fmt: UptimeFormat): seq<string> {
    if value != 0 && NonEmptyFormat(fmt) then [Render(fmt, value)] else []
  }

  /** The entry of one unit, kept by `filter` exactly when it is shown. */
  lemma KeepUnit(value: int, fmt: UptimeFormat)
    ensures KeepTruthy([UnitPiece(value, fmt)]) == Shown(value, fmt)
  {
    if value != 0 && NonEmptyFormat(fmt) {
      RenderNonEmpty(fmt, value);
    }
  }

  /** What `filter` keeps of the four entries: one rendered unit per shown
      unit, days first. */
  lemma KeepEntries(d: Duration, formats: UptimeFormats)
    ensures KeepTruthy(UptimeEntries(d, formats))
            == Shown(d.days, formats.days) + Shown(d.hours, formats.hours)
               + Shown(d.minutes, formats.minutes) + Shown(d.seconds, formats.seconds)
  {
    var e0, e1, e2, e3 := UnitPiece(d.days, formats.days), UnitPiece(d.hours, formats.hours),
                          UnitPiece(d.minutes, formats.minutes), UnitPiece(d.seconds, formats.seconds);
    assert UptimeEntries(d, formats) == [e0] + [e1] + [e2] + [e3];
    KeepTruthyAppend([e0] + [e1] + [e2], [e3]);
    KeepTruthyAppend([e0] + [e1], [e2]);
    KeepTruthyAppend([e0], [e1]);
    KeepUnit(d.days, formats.days);
    KeepUnit(d.hours, formats.hours);
    KeepUnit(d.minutes, formats.minutes);
    KeepUnit(d.seconds, formats.seconds);
  }

  /** `uptime` shows as many units as are non-zero and have a non-empty
      format, but no more than `shorten_len`; a negative `shorten_len`
      slices from the end, dropping that many of the last units. */
  lemma UptimePieceCount(seconds: int, formats: UptimeFormats, shortenLen: int)
    ensures var shown := ShownUnits(Decompose(seconds), formats);
            |UptimePieces(seconds, formats, shortenLen)|
            == if shortenLen >= 0 then (if shortenLen < shown then shortenLen else shown)
               else (if shown + shortenLen > 0 then shown + shortenLen else 0)
  {
    var d := Decompose(seconds);
    KeepEntries(d, formats);
    var kept := KeepTruthy(UptimeEntries(d, formats));
    assert |kept| == ShownUnits(d, formats);
    assert UptimePieces(seconds, formats, shortenLen) == kept[..SliceBound(shortenLen, |kept|)];
  }

  // The default formats read back: an independent parser of their output.

  function DigitValue(c: char): (v: int)
    ensures IsDigit(c) ==> 0 <= v < 10
  {
    (c as int) - ('0' as int)
  }

  /** The value of a string of decimal digits. */
  function ParseNat(digits: string): nat
    requires forall i :: 0 <= i < |digits| ==> IsDigit(digits[i])
  {
    if |digits| == 0 then 0
    else ParseNat(digits[..|digits| - 1]) * 10 + DigitValue(digits[|digits| - 1])
  }

  lemma DigitCharValue(d: int)
    requires 0 <= d < 10
    ensures DigitValue(DigitChar(d)) == d
  {
  }

  lemma {:induction false} ParseNatToString(n: nat)
    ensures ParseNat(NatToString(n)) == n
  {
    if n >= 10 {
      var s := NatToString(n);
      assert s[..|s| - 1] == NatToString(n / 10);
      ParseNatToString(n / 10);
      DigitCharValue(n % 10);
    } else {
      DigitCharValue(n);
    }
  }

  /** The seconds in one of the units of the default formats, by suffix. */
  function UnitSeconds(c: char): Option<int> {
    if c == 'd' then Some(86400)
    else if c == 'h' then Some(3600)
    else if c == 'm' then Some(60)
    else if c == 's' then Some(1)
    else None
  }

  /** A word such as `12h`: digits and a unit suffix. */
  function ParseUnitWord(w: string): Option<int> {
    if |w| >= 2 && (forall i :: 0 <= i < |w| - 1 ==> IsDigit(w[i])) && UnitSeconds(w[|w| - 1]).Some?
    then Some(ParseNat(w[..|w| - 1]) * UnitSeconds(w[|w| - 1]).value)
    else None
  }

  function SumUnitWords(ws: seq<string>): Option<int> {
    if |ws| == 0 then Some(0)
    else match (ParseUnitWord(ws[0]), SumUnitWords(ws[1..]))
      case (Some(a), Some(b)) => Some(a + b)
      case _ => None
  }

  /** Reads an uptime written with the default formats back into seconds:
      space-separated words, each a count and a unit. */
  function ParseUptime(t: string): Option<int> {
    if t == "" then Some(0) else SumUnitWords(Split(t, ' '))
  }

  /** The word the default format of a unit renders a positive count as. */
  function UnitWord(n: nat, unit: char): string {
    NatToString(n) + [unit]
  }

  lemma UnitWordParses(n: nat, unit: char, secs: int)
    requires UnitSeconds(unit) == Some(secs)
    ensures ParseUnitWord(UnitWord(n, unit)) == Some(n * secs)
  {
    var w := UnitWord(n, unit);
    assert w[..|w| - 1] == NatToString(n);
    ParseNatToString(n);
  }

  lemma {:induction false} SumUnitWordsAppend(a: seq<string>, b: seq<string>)
    requires SumUnitWords(a).Some? && SumUnitWords(b).Some?
    ensures SumUnitWords(a + b) == Some(SumUnitWords(a).value + SumUnitWords(b).value)
  {
    if |a| > 0 {
      assert (a + b)[1..] == a[1..] + b;
      SumUnitWordsAppend(a[1..], b);
    } else {
      assert a + b == b;
    }
  }

  lemma SumThree(a: seq<string>, b: seq<string>, c: seq<string>)
    requires SumUnitWords(a).Some? && SumUnitWords(b).Some? && SumUnitWords(c).Some?
    ensures SumUnitWords(a + b + c)
            == Some(SumUnitWords(a).value + SumUnitWords(b).value + SumUnitWords(c).value)
  {
    SumUnitWordsAppend(a, b);
    SumUnitWordsAppend(a + b, c);
  }

  /** The word of one unit, if its count is not zero. */
  function UnitWords(n: nat, unit: char): seq<string> {
    if n != 0 then [UnitWord(n, unit)] else []
  }

  lemma UnitWordsSum(n: nat, unit: char, secs: int)
    requires UnitSeconds(unit) == Some(secs)
    ensures SumUnitWords(UnitWords(n, unit)) == Some(n * secs)
  {
    if n != 0 {
      UnitWordParses(n, unit, secs);
    }
  }

  /** The words of the hours, minutes and seconds of a non-negative
      duration. */
  function TailWords(d: Duration): seq<string>
    requires d.hours >= 0 && d.minutes >= 0 && d.seconds >= 0
  {
    UnitWords(d.hours, 'h') + UnitWords(d.minutes, 'm') + UnitWords(d.seconds, 's')
  }

  lemma TailWordsSum(d: Duration)
    requires d.hours >= 0 && d.minutes >= 0 && d.seconds >= 0
    ensures SumUnitWords(TailWords(d)) == Some(d.hours * 3600 + d.minutes * 60 + d.seconds)
  {
    var h, m, sc := UnitWords(d.hours, 'h'), UnitWords(d.minutes, 'm'), UnitWords(d.seconds, 's');
    assert SumUnitWords(h) == Some(d.hours * 3600) by { UnitWordsSum(d.hours, 'h', 3600); }
    assert SumUnitWords(m) == Some(d.minutes * 60) by { UnitWordsSum(d.minutes, 'm', 60); }
    assert SumUnitWords(sc) == Some(d.seconds) by { UnitWordsSum(d.seconds, 's', 1); }
    SumThree(h, m, sc);
  }

  /** The default days format renders `n` followed by `d`. */
  lemma RenderDays(n: int)
    ensures Render(DefaultUptimeFormats.days, n) == IntToString(n) + "d"
  {
    var fmt := DefaultUptimeFormats.days;
    assert Render(fmt[1..], n) == "d" by {
      assert fmt[1..][1..] == [];
    }
  }

  /** The other default formats render a space, `n` and the unit letter. */
  lemma RenderSpaced(fmt: UptimeFormat, unit: char, n: int)
    requires fmt == [Lit(" "), Field, Lit([unit])]
    ensures Render(fmt, n) == " " + IntToString(n) + [unit]
  {
    assert Render(fmt[2..], n) == [unit] by {
      assert fmt[2..][1..] == [];
    }
    assert fmt[1..][1..] == fmt[2..];
    assert Render(fmt[1..], n) == IntToString(n) + [unit];
  }

  /** Each word with a space in front. */
  function Spaced(ws: seq<string>): (r: seq<string>)
    ensures |r| == |ws|
  {
    seq(|ws|, i requires 0 <= i < |ws| => " " + ws[i])
  }

  lemma SpacedUnit(fmt: UptimeFormat, unit: char, n: nat)
    requires fmt == [Lit(" "), Field, Lit([unit])]
    ensures Shown(n, fmt) == Spaced(UnitWords(n, unit))
  {
    assert NonEmptyFormat(fmt) by { assert fmt[1].Field?; }
    RenderSpaced(fmt, unit, n);
    if n != 0 {
      assert IntToString(n) == NatToString(n);
      assert " " + IntToString(n) + [unit] == " " + UnitWord(n, unit);
      assert Spaced(UnitWords(n, unit)) == [" " + UnitWord(n, unit)];
    }
  }

  lemma DaysUnit(n: nat)
    ensures Shown(n, DefaultUptimeFormats.days) == UnitWords(n, 'd')
  {
    assert NonEmptyFormat(DefaultUptimeFormats.days) by { assert DefaultUptimeFormats.days[0].Field?; }
    RenderDays(n);
    assert IntToString(n) == NatToString(n);
  }

  /** What `filter` keeps under the default formats: the days word, then the
      other words each behind a space. */
  lemma DefaultKept(d: Duration)
    requires d.days >= 0 && d.hours >= 0 && d.minutes >= 0 && d.seconds >= 0
    ensures KeepTruthy(UptimeEntries(d, DefaultUptimeFormats))
            == UnitWords(d.days, 'd') + Spaced(TailWords(d))
  {
    var f := DefaultUptimeFormats;
    KeepEntries(d, f);
    DaysUnit(d.days);
    SpacedUnit(f.hours, 'h', d.hours);
    SpacedUnit(f.minutes, 'm', d.minutes);
    SpacedUnit(f.seconds, 's', d.seconds);
    var h, m, sc := UnitWords(d.hours, 'h'), UnitWords(d.minutes, 'm'), UnitWords(d.seconds, 's');
    SpacedAppend(h, m);
    SpacedAppend(h + m, sc);
    assert Spaced(h) + Spaced(m) + Spaced(sc) == Spaced(TailWords(d));
  }

  lemma SpacedAppend(a: seq<string>, b: seq<string>)
    ensures Spaced(a + b) == Spaced(a) + Spaced(b)
  {
  }

  lemma {:induction false} ConcatAppend(a: seq<string>, b: seq<string>)
    ensures Concat(a + b) == Concat(a) + Concat(b)
  {
    if |a| > 0 {
      assert (a + b)[1..] == a[1..] + b;
      ConcatAppend(a[1..], b);
    } else {
      assert a + b == b;
    }
  }

  /** Words behind spaces concatenate to a space and their space-join. */
  lemma {:induction false} ConcatSpaced(ws: seq<string>)
    ensures Concat(Spaced(ws)) == if ws == [] then "" else " " + Join(ws, ' ')
  {
    if |ws| > 0 {
      assert Spaced(ws)[1..] == Spaced(ws[1..]);
      ConcatSpaced(ws[1..]);
    }
  }

  /** The first and last character of a space-join of non-empty words. */
  lemma {:induction false} JoinEnds(ws: seq<string>)
    requires |ws| > 0 && forall i :: 0 <= i < |ws| ==> ws[i] != ""
    ensures var j := Join(ws, ' ');
            j != "" && j[0] == ws[0][0] && j[|j| - 1] == ws[|ws| - 1][|ws[|ws| - 1]| - 1]
  {
    if |ws| > 1 {
      JoinEnds(ws[1..]);
    }
  }

  /** `strip()` leaves a string alone that starts and ends with non-space,
      and drops one leading space in front of such a string. */
  lemma StripTrimmed(t: string)
    requires t != "" && !IsSpace(t[0]) && !IsSpace(t[|t| - 1])
    ensures Strip(t) == t
    ensures Strip(" " + t) == t
  {
    assert (" " + t)[1..] == t;
  }

  /** A word of the default formats: digits, then a unit letter. */
  predicate WellFormedWord(w: string) {
    |w| >= 2 && IsDigit(w[0]) && !IsSpace(w[|w| - 1]) && ' ' !in w
  }

  lemma UnitWordsWellFormed(n: nat, unit: char)
    requires UnitSeconds(unit).Some?
    ensures forall i :: 0 <= i < |UnitWords(n, unit)| ==> WellFormedWord(UnitWords(n, unit)[i])
  {
    if n != 0 {
      var w := UnitWord(n, unit);
      assert w[0] == NatToString(n)[0];
      assert forall i :: 0 <= i < |NatToString(n)| ==> w[i] == NatToString(n)[i];
    }
  }

  /** The words of a non-negative duration, days first. */
  function DurationWords(d: Duration): (ws: seq<string>)
    requires d.days >= 0 && d.hours >= 0 && d.minutes >= 0 && d.seconds >= 0
    ensures |ws| <= 4
    ensures forall i :: 0 <= i < |ws| ==> WellFormedWord(ws[i])
  {
    UnitWordsWellFormed(d.days, 'd');
    UnitWordsWellFormed(d.hours, 'h');
    UnitWordsWellFormed(d.minutes, 'm');
    UnitWordsWellFormed(d.seconds, 's');
    UnitWords(d.days, 'd') + TailWords(d)
  }

  /** A leading word, if any, then words behind spaces: their
      concatenation is the space-join of all of them. */
  lemma ConcatLeadWord(lead: seq<string>, tail: seq<string>)
    requires |lead| <= 1
    ensures lead != [] ==> Concat(lead + Spaced(tail)) == Join(lead + tail, ' ')
    ensures lead == [] ==> Concat(lead + Spaced(tail)) == Concat(Spaced(tail))
  {
    ConcatAppend(lead, Spaced(tail));
    ConcatSpaced(tail);
    if lead != [] {
      assert Concat(lead) == lead[0];
      assert (lead + tail)[1..] == tail;
    } else {
      assert lead + Spaced(tail) == Spaced(tail);
    }
  }

  /** A leading word, if any, and well-formed words behind spaces: the
      stripped concatenation is the space-join of the words. */
  lemma StripJoined(lead: seq<string>, tail: seq<string>)
    requires |lead| <= 1
    requires forall i :: 0 <= i < |lead + tail| ==> WellFormedWord((lead + tail)[i])
    ensures Strip(Concat(lead + Spaced(tail))) == if lead + tail == [] then "" else Join(lead + tail, ' ')
  {
    if lead == [] {
      assert lead + tail == tail && lead + Spaced(tail) == Spaced(tail);
      StripSpacedWords(tail);
    } else {
      StripLeadWord(lead, tail);
    }
  }

  lemma StripSpacedWords(ws: seq<string>)
    requires forall i :: 0 <= i < |ws| ==> WellFormedWord(ws[i])
    ensures Strip(Concat(Spaced(ws))) == if ws == [] then "" else Join(ws, ' ')
  {
    ConcatSpaced(ws);
    if ws != [] {
      JoinTrimmed(ws);
      StripTrimmed(Join(ws, ' '));
    }
  }

  /** A space-join of well-formed words starts and ends with non-space. */
  lemma JoinTrimmed(ws: seq<string>)
    requires ws != [] && forall i :: 0 <= i < |ws| ==> WellFormedWord(ws[i])
    ensures var j := Join(ws, ' ');
            j != "" && !IsSpace(j[0]) && !IsSpace(j[|j| - 1])
  {
    var first, last := ws[0], ws[|ws| - 1];
    assert WellFormedWord(first) && WellFormedWord(last);
    JoinEnds(ws);
    DigitNotSpace(first[0]);
    EndsEqual(Join(ws, ' '), last);
  }

  lemma EndsEqual(a: string, b: string)
    requires a != [] && b != [] && a[|a| - 1] == b[|b| - 1]
    ensures IsSpace(a[|a| - 1]) == IsSpace(b[|b| - 1])
  {
  }

  lemma DigitNotSpace(c: char)
    requires IsDigit(c)
    ensures !IsSpace(c)
  {
  }

  lemma StripLeadWord(lead: seq<string>, tail: seq<string>)
    requires |lead| == 1
    requires forall i :: 0 <= i < |lead + tail| ==> WellFormedWord((lead + tail)[i])
    ensures Strip(Concat(lead + Spaced(tail))) == Join(lead + tail, ' ')
  {
    var ws := lead + tail;
    ConcatLeadWord(lead, tail);
    JoinTrimmed(ws);
    StripTrimmed(Join(ws, ' '));
  }

  /** Under the default formats the pieces of `uptime` concatenate and strip
      to the words of the duration joined by single spaces. */
  lemma DefaultText(d: Duration)
    requires d.days >= 0 && d.hours >= 0 && d.minutes >= 0 && d.seconds >= 0
    ensures Strip(Concat(KeepTruthy(UptimeEntries(d, DefaultUptimeFormats))))
            == if DurationWords(d) == [] then "" else Join(DurationWords(d), ' ')
  {
    var days, tail := UnitWords(d.days, 'd'), TailWords(d);
    assert DurationWords(d) == days + tail;
    DefaultKept(d);
    StripJoined(days, tail);
  }

  /** A space-join of well-formed words parses to the sum of the words. */
  lemma ParseJoined(ws: seq<string>)
    requires ws != [] && forall i :: 0 <= i < |ws| ==> WellFormedWord(ws[i])
    ensures ParseUptime(Join(ws, ' ')) == SumUnitWords(ws)
  {
    SplitJoin(ws, ' ');
    JoinEnds(ws);
  }

  lemma DurationWordsSum(d: Duration)
    requires d.days >= 0 && d.hours >= 0 && d.minutes >= 0 && d.seconds >= 0
    ensures SumUnitWords(DurationWords(d)) == Some(d.days * 86400 + d.hours * 3600 + d.minutes * 60 + d.seconds)
  {
    var days, tail := UnitWords(d.days, 'd'), TailWords(d);
    assert SumUnitWords(days) == Some(d.days * 86400) by { UnitWordsSum(d.days, 'd', 86400); }
    TailWordsSum(d);
    SumUnitWordsAppend(days, tail);
    assert DurationWords(d) == days + tail;
  }

  /** Under the default formats, when `shorten_len` leaves room for every
      unit shown, `uptime` shows the words of the duration joined by single
      spaces. */
  lemma UptimeText(seconds: int, shortenLen: int)
    requires seconds >= 0
    requires shortenLen >= |DurationWords(Decompose(seconds))|
    ensures var ws := DurationWords(Decompose(seconds));
            Uptime(Some(seconds), DefaultUptimeFormats, shortenLen) == Some(if ws == [] then "" else Join(ws, ' '))
  {
    var d := Decompose(seconds);
    assert d.days >= 0;
    DefaultKept(d);
    var kept := KeepTruthy(UptimeEntries(d, DefaultUptimeFormats));
    assert |kept| == |DurationWords(d)|;
    assert UptimePieces(seconds, DefaultUptimeFormats, shortenLen) == kept;
    DefaultText(d);
  }

  /** Round trip: with the default formats and room for all four units, the
      text `uptime` shows reads back as the uptime it was given. */
  lemma UptimeRoundTrip(seconds: int, shortenLen: int)
    requires seconds >= 0 && shortenLen >= 4
    ensures ParseUptime(Uptime(Some(seconds), DefaultUptimeFormats, shortenLen).value) == Some(seconds)
  {
    var d := Decompose(seconds);
    assert d.days >= 0;
    var ws := DurationWords(d);
    UptimeText(seconds, shortenLen);
    var text := if ws == [] then "" else Join(ws, ' ');
    assert Uptime(Some(seconds), DefaultUptimeFormats, shortenLen).value == text;
    ParseDurationText(d);
    var total := d.days * 86400 + d.hours * 3600 + d.minutes * 60 + d.seconds;
    assert ParseUptime(text) == Some(total);
    assert total == seconds;
  }

  /** The space-join of a duration's words reads back as its seconds. */
  lemma ParseDurationText(d: Duration)
    requires d.days >= 0 && d.hours >= 0 && d.minutes >= 0 && d.seconds >= 0
    ensures var ws := DurationWords(d);
            ParseUptime(if ws == [] then "" else Join(ws, ' '))
            == Some(d.days * 86400 + d.hours * 3600 + d.minutes * 60 + d.seconds)
  {
    var ws := DurationWords(d);
    DurationWordsSum(d);
    if ws != [] {
      ParseJoined(ws);
    }
  }

  lemma DecomposeExamples()
    ensures Decompose(90061) == Duration(1, 1, 1, 1)
    ensures Decompose(3605) == Duration(0, 1, 0, 5)
  {
  }

  /** Zero units leave no gap, and the space before the first unit shown is
      stripped. */
  lemma UptimeExampleZeroUnits()
    ensures Uptime(Some(3605), DefaultUptimeFormats, DefaultShortenLen) == Some("1h 5s")
  {
    DecomposeExamples();
    var d := Duration(0, 1, 0, 5);
    assert UnitWord(1, 'h') == "1h" && UnitWord(5, 's') == "5s";
    assert DurationWords(d) == ["1h", "5s"];
    UptimeText(3605, DefaultShortenLen);
    JoinExamples();
  }

  lemma JoinExamples()
    ensures Join(["1h", "5s"], ' ') == "1h 5s"
    ensures Join(["1d", "1h", "1m"], ' ') == "1d 1h 1m"
  {
    assert Join(["5s"], ' ') == "5s";
    assert Join(["1m"], ' ') == "1m";
    assert ["1d", "1h", "1m"][1..] == ["1h", "1m"];
    assert Join(["1h", "1m"], ' ') == "1h 1m";
  }

  /** With the default `shorten_len` of 3, a day, an hour, a minute and a
      second show as the first three units only. */
  lemma UptimeExampleShortened()
    ensures Uptime(None, DefaultUptimeFormats, DefaultShortenLen) == None
    ensures Uptime(Some(90061), DefaultUptimeFormats, DefaultShortenLen) == Some("1d 1h 1m")
  {
    DecomposeExamples();
    var d := Duration(1, 1, 1, 1);
    DefaultKept(d);
    assert UnitWord(1, 'd') == "1d" && UnitWord(1, 'h') == "1h" && UnitWord(1, 'm') == "1m";
    var kept := KeepTruthy(UptimeEntries(d, DefaultUptimeFormats));
    assert kept[..3] == ["1d"] + Spaced(["1h", "1m"]);
    assert UptimePieces(90061, DefaultUptimeFormats, DefaultShortenLen) == ["1d"] + Spaced(["1h", "1m"]);
    ShortenedText();
  }

  lemma ShortenedText()
    ensures Strip(Concat(["1d"] + Spaced(["1h", "1m"]))) == "1d 1h 1m"
  {
    StripJoined(["1d"], ["1h", "1m"]);
    assert ["1d"] + ["1h", "1m"] == ["1d", "1h", "1m"];
    JoinExamples();
  }
}
