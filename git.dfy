/** The git back-end of powerline's version-control layer
    (powerline/lib/vcs/git.py): finding the metadata directory, naming the
    current branch from `HEAD`, and the two interchangeable status back-ends,
    one over libgit2's per-file flag words (pygit2), one over the lines of
    `git status --porcelain`. What the operating system, libgit2 or a `git`
    process would supply is a parameter: a view of the file system, the flag
    words, the output lines. */
module Git {
  import opened Outcomes
  import opened Text
  import opened Utf8
  import opened PosixPath

  // ---------------------------------------------------------------------
  // File system view and errors

  datatype FileState = Readable(content: seq<Byte>) | Unreadable

  /** The regular files `git.py` can see: `os.path.isfile(p)` holds exactly
      for the keys, and `open(p, 'rb')` fails unless the file is readable. */
  type FileSystem = map<string, FileState>

  function ReadFile(fs: FileSystem, p: string): (r: Option<seq<Byte>>)
    ensures r.Some? <==> p in fs && fs[p].Readable?
  {
    if p in fs && fs[p].Readable? then Some(fs[p].content) else None
  }

  /** The exceptions that leave `git.py`. */
  datatype GitError =
    | InvalidGitfileFormat   // IOError('invalid gitfile format')
    | NoPathInGitfile        // IOError('no path in gitfile')
    | ReadFailed             // the `open`/`read` of an existing gitfile raised
    | UnicodeDecodeFailed    // the strict decode of the gitfile's path raised
    | IndexOutOfRange        // an IndexError from indexing an empty or short string
    | NameUnbound            // NameError for a name that is not defined

  // ---------------------------------------------------------------------
  // Branch name from HEAD (`_ref_pat`, `branch_name_from_config_file`)

  const RefTag: seq<Byte> := [0x72, 0x65, 0x66, 0x3A]   // "ref:"
  const HeadsPrefix: seq<Byte> :=                        // "refs/heads/"
    [0x72, 0x65, 0x66, 0x73, 0x2F, 0x68, 0x65, 0x61, 0x64, 0x73, 0x2F]
  const Newline: Byte := 0x0A

  /** `\s` in a bytes pattern: space, tab, newline, vertical tab, form feed,
      carriage return. */
  predicate IsRegexSpace(b: Byte) {
    b == 0x20 || 0x09 <= b <= 0x0D
  }

  /** The end of the run of `\s` bytes starting at `i`. */
  function SkipSpaces(raw: seq<Byte>, i: nat): (j: nat)
    requires i <= |raw|
    ensures i <= j <= |raw|
    ensures forall k :: i <= k < j ==> IsRegexSpace(raw[k])
    ensures j < |raw| ==> !IsRegexSpace(raw[j])
    decreases |raw| - i
  {
    if i < |raw| && IsRegexSpace(raw[i]) then SkipSpaces(raw, i + 1) else i
  }

  /** The end of the run of bytes other than newline starting at `i`: how far
      the greedy `.+` reaches. */
  function LineEnd(raw: seq<Byte>, i: nat): (j: nat)
    requires i <= |raw|
    ensures i <= j <= |raw|
    ensures forall k :: i <= k < j ==> raw[k] != Newline
    ensures j < |raw| ==> raw[j] == Newline
    decreases |raw| - i
  {
    if i < |raw| && raw[i] != Newline then LineEnd(raw, i + 1) else i
  }

  /** `_ref_pat.match(raw)`, giving group 1 on a match. */
  function MatchRef(raw: seq<Byte>): Option<seq<Byte>> {
    if !StartsWith(raw, RefTag) then None
    else
      var i := SkipSpaces(raw, |RefTag|);
      if !StartsWith(raw[i..], HeadsPrefix) then None
      else
        var k := i + |HeadsPrefix|;
        var e := LineEnd(raw, k);
        if e == k then None else Some(raw[k..e])
  }

  /** `raw` reads `ref:`, `ws` bytes of whitespace, `refs/heads/`, then
      `name`, which is not empty, holds no newline and is followed by the end
      of the input or a newline. */
  predicate RefLayout(raw: seq<Byte>, ws: nat, name: seq<Byte>) {
    var k := |RefTag| + ws + |HeadsPrefix|;
    && k + |name| <= |raw|
    && raw[..|RefTag|] == RefTag
    && (forall j :: |RefTag| <= j < |RefTag| + ws ==> IsRegexSpace(raw[j]))
    && raw[|RefTag| + ws..k] == HeadsPrefix
    && raw[k..k + |name|] == name
    && name != [] && Newline !in name
    && (k + |name| == |raw| || raw[k + |name|] == Newline)
  }

  /** What the matcher returns is laid out as the pattern describes. */
  lemma MatchRefSound(raw: seq<Byte>)
    requires MatchRef(raw).Some?
    ensures RefLayout(raw, SkipSpaces(raw, |RefTag|) - |RefTag|, MatchRef(raw).value)
  {
    var i := SkipSpaces(raw, |RefTag|);
    var k := i + |HeadsPrefix|;
    var e := LineEnd(raw, k);
    var name := raw[k..e];
    assert raw[i..][..|HeadsPrefix|] == raw[i..k];
    forall b | b in name ensures b != Newline {
      var j :| 0 <= j < |name| && name[j] == b;
      assert raw[k + j] == b;
    }
  }

  /** Whatever the pattern describes, the matcher finds. */
  lemma MatchRefComplete(raw: seq<Byte>, ws: nat, name: seq<Byte>)
    requires RefLayout(raw, ws, name)
    ensures MatchRef(raw) == Some(name)
  {
    var h := |RefTag| + ws;
    var k := h + |HeadsPrefix|;
    assert raw[h] == raw[h..k][0] == HeadsPrefix[0];
    SkipSpacesStops(raw, |RefTag|, h);
    assert raw[h..][..|HeadsPrefix|] == raw[h..k];
    forall m | k <= m < k + |name| ensures raw[m] != Newline {
      assert raw[m] == raw[k..k + |name|][m - k];
      assert raw[m] in name;
    }
    LineEndStops(raw, k, k + |name|);
  }

  lemma {:induction false} SkipSpacesStops(raw: seq<Byte>, i: nat, j: nat)
    requires i <= j <= |raw|
    requires forall m :: i <= m < j ==> IsRegexSpace(raw[m])
    requires j < |raw| ==> !IsRegexSpace(raw[j])
    ensures SkipSpaces(raw, i) == j
    decreases j - i
  {
    if i < j {
      SkipSpacesStops(raw, i + 1, j);
    }
  }

  lemma {:induction false} LineEndStops(raw: seq<Byte>, i: nat, j: nat)
    requires i <= j <= |raw|
    requires forall m :: i <= m < j ==> raw[m] != Newline
    requires j < |raw| ==> raw[j] == Newline
    ensures LineEnd(raw, i) == j
    decreases j - i
  {
    if i < j {
      LineEndStops(raw, i + 1, j);
    }
  }

  /** The matcher finds exactly the names the pattern describes. */
  lemma MatchRefSpec(raw: seq<Byte>, name: seq<Byte>)
    ensures MatchRef(raw) == Some(name) <==> exists ws: nat :: RefLayout(raw, ws, name)
  {
    if MatchRef(raw) == Some(name) {
      MatchRefSound(raw);
    }
    if ws: nat :| RefLayout(raw, ws, name) {
      MatchRefComplete(raw, ws, name);
    }
  }

  /** The branch label: a decoded name, the first seven raw bytes of a
      detached `HEAD` (Python 3 returns those as bytes), or a base name. */
  datatype Label = TextLabel(text: string) | ByteLabel(bytes: seq<Byte>)

  /** `branch_name_from_config_file(directory, config_file)` */
  function BranchNameFromConfigFile(fs: FileSystem, directory: string, configFile: string): Label {
    match ReadFile(fs, configFile)
    case None => TextLabel(Basename(directory))
    case Some(raw) =>
      match MatchRef(raw)
      case Some(name) => TextLabel(DecodeReplace(name))
      case None => ByteLabel(Take(raw, 7))
  }

  /** A `HEAD` naming a branch gives that branch's name back, whatever
      characters it holds, as long as it has no newline. */
  lemma BranchNameRoundTrip(fs: FileSystem, directory: string, configFile: string,
                            ws: seq<Byte>, name: string, rest: seq<Byte>)
    requires forall i :: 0 <= i < |ws| ==> IsRegexSpace(ws[i])
    requires name != "" && '\n' !in name
    requires rest == [] || rest[0] == Newline
    requires configFile in fs && fs[configFile] == Readable(RefTag + ws + HeadsPrefix + EncodeString(name) + rest)
    ensures BranchNameFromConfigFile(fs, directory, configFile) == TextLabel(name)
  {
    var enc := EncodeString(name);
    NewlineInEncoding(name);
    assert enc == Encode(name[0]) + EncodeString(name[1..]);
    RefLayoutOf(ws, enc, rest);
    MatchRefComplete(RefTag + ws + HeadsPrefix + enc + rest, |ws|, enc);
    DecodeEncode(name);
  }

  /** A `HEAD` assembled from the pattern's pieces has the pattern's layout. */
  lemma RefLayoutOf(ws: seq<Byte>, name: seq<Byte>, rest: seq<Byte>)
    requires forall i :: 0 <= i < |ws| ==> IsRegexSpace(ws[i])
    requires name != [] && Newline !in name
    requires rest == [] || rest[0] == Newline
    ensures RefLayout(RefTag + ws + HeadsPrefix + name + rest, |ws|, name)
  {
    var raw := RefTag + ws + HeadsPrefix + name + rest;
    var h := |RefTag| + |ws|;
    var k := h + |HeadsPrefix|;
    assert raw[..|RefTag|] == RefTag;
    assert forall j :: |RefTag| <= j < h ==> raw[j] == ws[j - |RefTag|];
    assert raw[h..k] == HeadsPrefix;
    assert raw[k..k + |name|] == name;
    assert k + |name| < |raw| ==> raw[k + |name|] == rest[0];
  }

  /** A readable `HEAD` the pattern does not match (a detached head, but
      also `ref: refs/tags/...` or `ref: refs/heads/` with no name) is
      labelled by its first seven bytes (fewer if the file is shorter). */
  lemma DetachedHeadLabel(fs: FileSystem, directory: string, configFile: string)
    requires configFile in fs && fs[configFile].Readable?
    requires MatchRef(fs[configFile].content).None?
    ensures var raw := fs[configFile].content;
            var got := BranchNameFromConfigFile(fs, directory, configFile);
            && got == ByteLabel(Take(raw, 7))
            && |got.bytes| == (if |raw| < 7 then |raw| else 7)
            && StartsWith(raw, got.bytes)
  {
  }

  const TagsPrefix: seq<Byte> :=                         // "refs/tags/"
    [0x72, 0x65, 0x66, 0x73, 0x2F, 0x74, 0x61, 0x67, 0x73, 0x2F]

  /** Every `HEAD` that does not start with `ref:` goes unmatched, and so
      do `ref: refs/tags/...` and `ref: refs/heads/` with an empty name. */
  lemma UnmatchedHeads(raw: seq<Byte>, rest: seq<Byte>)
    ensures !StartsWith(raw, RefTag) ==> MatchRef(raw).None?
    ensures MatchRef(RefTag + [0x20] + TagsPrefix + rest).None?
    ensures MatchRef(RefTag + [0x20] + HeadsPrefix + [Newline] + rest).None?
  {
    var tags := RefTag + [0x20] + TagsPrefix + rest;
    assert tags[4] == 0x20 && tags[5] == 0x72;
    assert SkipSpaces(tags, 5) == 5;
    assert tags[5..][5] == 0x74 != HeadsPrefix[5];
    var heads := RefTag + [0x20] + HeadsPrefix + [Newline] + rest;
    assert heads[4] == 0x20 && heads[5] == 0x72;
    assert SkipSpaces(heads, 5) == 5;
    assert heads[5..][..|HeadsPrefix|] == HeadsPrefix;
    assert heads[16] == Newline;
  }

  /** A `HEAD` that cannot be opened gives the base name of `directory`. */
  lemma UnreadableHeadLabel(fs: FileSystem, directory: string, configFile: string)
    requires configFile !in fs || fs[configFile].Unreadable?
    ensures BranchNameFromConfigFile(fs, directory, configFile) == TextLabel(Basename(directory))
    ensures Sep !in BranchNameFromConfigFile(fs, directory, configFile).text
  {
  }

  // ---------------------------------------------------------------------
  // The metadata directory (`git_directory`)

  const GitdirTag: seq<Byte> := [0x67, 0x69, 0x74, 0x64, 0x69, 0x72, 0x3A, 0x20]   // "gitdir: "

  /** The path a gitfile names, as lines 34-40 compute it: the bytes after
      `gitdir: `, decoded strictly, less one trailing newline. When nothing
      follows the tag, `raw[-1]` on the empty string raises IndexError. */
  function GitfilePathAsWritten(raw: seq<Byte>): (r: Result<string, GitError>)
    ensures r == Err(IndexOutOfRange) <==> raw == GitdirTag
  {
    if !StartsWith(raw, GitdirTag) then Err(InvalidGitfileFormat)
    else
      match DecodeStrict(raw[|GitdirTag|..])
      case None => Err(UnicodeDecodeFailed)
      case Some(t) =>
        if |t| == 0 then
          assert raw == GitdirTag + raw[|GitdirTag|..];
          Err(IndexOutOfRange)
        else
          var path := if t[|t| - 1] == '\n' then t[..|t| - 1] else t;
          if path == "" then Err(NoPathInGitfile) else Ok(path)
  }

  /** The path a gitfile names, as intended: a gitfile with nothing after
      `gitdir: ` is reported as having no path. */
  function GitfilePath(raw: seq<Byte>): (r: Result<string, GitError>)
    ensures r.Ok? ==> r.value != ""
    ensures r == Err(InvalidGitfileFormat) <==> !StartsWith(raw, GitdirTag)
  {
    if !StartsWith(raw, GitdirTag) then Err(InvalidGitfileFormat)
    else
      match DecodeStrict(raw[|GitdirTag|..])
      case None => Err(UnicodeDecodeFailed)
      case Some(t) =>
        var path := if |t| > 0 && t[|t| - 1] == '\n' then t[..|t| - 1] else t;
        if path == "" then Err(NoPathInGitfile) else Ok(path)
  }

  /** The two differ only on a gitfile holding exactly `gitdir: `. */
  lemma GitfilePathAsWrittenDiffers(raw: seq<Byte>)
    ensures raw != GitdirTag ==> GitfilePathAsWritten(raw) == GitfilePath(raw)
    ensures GitfilePathAsWritten(GitdirTag) == Err(IndexOutOfRange)
    ensures GitfilePath(GitdirTag) == Err(NoPathInGitfile)
  {
    assert GitdirTag[|GitdirTag|..] == [];
  }

  /** What a gitfile may hold: the tag, then the UTF-8 encoding of a path,
      then at most one newline; anything else is one of the errors. */
  lemma GitfilePathSpec(raw: seq<Byte>)
    ensures GitfilePath(raw) == Err(NoPathInGitfile)
            <==> raw == GitdirTag || raw == GitdirTag + [Newline]
    ensures GitfilePath(raw) == Err(UnicodeDecodeFailed)
            <==> StartsWith(raw, GitdirTag) && DecodeStrict(raw[|GitdirTag|..]).None?
    ensures GitfilePath(raw).Ok? ==>
              raw == GitdirTag + EncodeString(GitfilePath(raw).value)
              || raw == GitdirTag + EncodeString(GitfilePath(raw).value) + [Newline]
  {
    if StartsWith(raw, GitdirTag) {
      var body := raw[|GitdirTag|..];
      assert raw == GitdirTag + body;
      if DecodeStrict(body).Some? {
        var t := DecodeStrict(body).value;
        EncodeDecodeStrict(body);
        if |t| > 0 && t[|t| - 1] == '\n' {
          var p := t[..|t| - 1];
          EncodeStringAppend(p, "\n");
          assert p + "\n" == t;
          assert EncodeString("\n") == [Newline];
          assert body == EncodeString(p) + [Newline];
        }
      }
      if raw == GitdirTag + [Newline] {
        assert body == [Newline];
        DecodeEncode("\n");
        assert EncodeString("\n") == [Newline];
      }
    }
  }

  lemma {:induction false} EncodeStringAppend(a: string, b: string)
    ensures EncodeString(a + b) == EncodeString(a) + EncodeString(b)
  {
    if |a| > 0 {
      assert (a + b)[1..] == a[1..] + b;
      EncodeStringAppend(a[1..], b);
    } else {
      assert a + b == b;
    }
  }

  /** `git_directory(directory)`: `<directory>/.git` when that is not a regular
      file; otherwise the absolute form of the path its gitfile names, taken
      relative to `directory`. `cwd` stands for the process's working
      directory, which `abspath` consults. */
  function GitDirectory(fs: FileSystem, cwd: string, directory: string): (r: Result<string, GitError>)
    ensures JoinPath(directory, ".git") !in fs ==> r == Ok(JoinPath(directory, ".git"))
    ensures JoinPath(directory, ".git") in fs && fs[JoinPath(directory, ".git")].Unreadable?
            ==> r == Err(ReadFailed)
    ensures JoinPath(directory, ".git") in fs && fs[JoinPath(directory, ".git")].Readable?
            ==> (r.Err? <==> GitfilePath(fs[JoinPath(directory, ".git")].content).Err?)
                && (r.Err? ==> r == Err(GitfilePath(fs[JoinPath(directory, ".git")].content).error))
    ensures r.Ok? ==> r.value != ""
  {
    var path := JoinPath(directory, ".git");
    if path !in fs then Ok(path)
    else
      match fs[path]
      case Unreadable => Err(ReadFailed)
      case Readable(raw) =>
        match GitfilePath(raw)
        case Err(e) => Err(e)
        case Ok(target) =>
          Ok(AbsPath(cwd, JoinPath(directory, target)))
  }

  /** A path read from a gitfile comes back absolute. */
  lemma GitDirectoryAbsolute(fs: FileSystem, cwd: string, directory: string)
    requires IsAbs(cwd)
    requires JoinPath(directory, ".git") in fs
    requires GitDirectory(fs, cwd, directory).Ok?
    ensures IsAbs(GitDirectory(fs, cwd, directory).value)
  {
    var raw := fs[JoinPath(directory, ".git")].content;
    AbsPathAbsolute(cwd, JoinPath(directory, GitfilePath(raw).value));
  }

  /** A gitfile written as `gitdir: <target>`, with or without a final
      newline, leads to the absolute form of `<directory>/<target>`; without
      the newline the target must not itself end in one, since that one
      would be taken off. */
  lemma GitfileRoundTrip(fs: FileSystem, cwd: string, directory: string, target: string, newline: bool)
    requires target != ""
    requires !newline ==> target[|target| - 1] != '\n'
    requires JoinPath(directory, ".git") in fs
    requires fs[JoinPath(directory, ".git")]
             == Readable(GitdirTag + EncodeString(if newline then target + "\n" else target))
    ensures GitDirectory(fs, cwd, directory) == Ok(AbsPath(cwd, JoinPath(directory, target)))
  {
    GitfileNaming(target, newline);
  }

  /** The gitfile `gitdir: <target>`, with or without its newline, names
      `<target>`. */
  lemma GitfileNaming(target: string, newline: bool)
    requires target != ""
    requires !newline ==> target[|target| - 1] != '\n'
    ensures GitfilePath(GitdirTag + EncodeString(if newline then target + "\n" else target)) == Ok(target)
  {
    if newline {
      GitfileNamingNewline(target);
    } else {
      GitfileNamingBare(target);
    }
  }

  lemma GitfileNamingNewline(target: string)
    requires target != ""
    ensures GitfilePath(GitdirTag + EncodeString(target + "\n")) == Ok(target)
  {
    var t := target + "\n";
    var raw := GitdirTag + EncodeString(t);
    assert raw[..|GitdirTag|] == GitdirTag;
    assert raw[|GitdirTag|..] == EncodeString(t);
    DecodeEncode(t);
    assert t[|t| - 1] == '\n' && t[..|t| - 1] == target;
  }

  lemma GitfileNamingBare(target: string)
    requires target != "" && target[|target| - 1] != '\n'
    ensures GitfilePath(GitdirTag + EncodeString(target)) == Ok(target)
  {
    var raw := GitdirTag + EncodeString(target);
    assert raw[..|GitdirTag|] == GitdirTag;
    assert raw[|GitdirTag|..] == EncodeString(target);
    DecodeEncode(target);
  }

  /** A gitfile that lacks the tag, names nothing, or is not valid UTF-8
      after the tag makes `git_directory` fail with the matching error. */
  lemma GitDirectoryRejects(fs: FileSystem, cwd: string, directory: string)
    requires JoinPath(directory, ".git") in fs && fs[JoinPath(directory, ".git")].Readable?
    ensures var raw := fs[JoinPath(directory, ".git")].content;
            var r := GitDirectory(fs, cwd, directory);
            && (r == Err(InvalidGitfileFormat) <==> !StartsWith(raw, GitdirTag))
            && (r == Err(NoPathInGitfile) <==> raw == GitdirTag || raw == GitdirTag + [Newline])
            && (r == Err(UnicodeDecodeFailed)
                <==> StartsWith(raw, GitdirTag) && DecodeStrict(raw[|GitdirTag|..]).None?)
  {
    GitfilePathSpec(fs[JoinPath(directory, ".git")].content);
  }

  // ---------------------------------------------------------------------
  // pygit2 back-end

  /** libgit2's `git_status_t` flag words. */
  type StatusFlags = bv32

  const GIT_STATUS_CURRENT: StatusFlags := 0
  const GIT_STATUS_INDEX_NEW: StatusFlags := 0x1
  const GIT_STATUS_INDEX_MODIFIED: StatusFlags := 0x2
  const GIT_STATUS_INDEX_DELETED: StatusFlags := 0x4
  const GIT_STATUS_WT_NEW: StatusFlags := 0x80
  const GIT_STATUS_WT_MODIFIED: StatusFlags := 0x100
  const GIT_STATUS_WT_DELETED: StatusFlags := 0x200
  const GIT_STATUS_IGNORED: StatusFlags := 0x4000

  /** `status & mask` is truthy. */
  predicate Has(status: StatusFlags, mask: StatusFlags) {
    status & mask != 0
  }

  /** The index column of a file's code, by priority new, deleted, modified. */
  function IndexLetter(status: StatusFlags): (c: char)
    ensures c == 'A' <==> Has(status, GIT_STATUS_INDEX_NEW)
    ensures c == 'D' <==> !Has(status, GIT_STATUS_INDEX_NEW) && Has(status, GIT_STATUS_INDEX_DELETED)
    ensures c == 'M' <==> !Has(status, GIT_STATUS_INDEX_NEW) && !Has(status, GIT_STATUS_INDEX_DELETED)
                          && Has(status, GIT_STATUS_INDEX_MODIFIED)
    ensures c == ' ' <==> status & 0x7 == 0
  {
    if Has(status, GIT_STATUS_INDEX_NEW) then 'A'
    else if Has(status, GIT_STATUS_INDEX_DELETED) then 'D'
    else if Has(status, GIT_STATUS_INDEX_MODIFIED) then 'M'
    else ' '
  }

  /** The working-tree column of a file's code, by priority deleted, modified. */
  function WorkTreeLetter(status: StatusFlags): (c: char)
    ensures c == 'D' <==> Has(status, GIT_STATUS_WT_DELETED)
    ensures c == 'M' <==> !Has(status, GIT_STATUS_WT_DELETED) && Has(status, GIT_STATUS_WT_MODIFIED)
    ensures c == ' ' <==> status & 0x300 == 0
  {
    if Has(status, GIT_STATUS_WT_DELETED) then 'D'
    else if Has(status, GIT_STATUS_WT_MODIFIED) then 'M'
    else ' '
  }

  /** pygit2 `do_status(directory, path)` for a file: `lookup` is what
      `status_file(path)` returned, `None` when it raised KeyError or
      ValueError. */
  function Pygit2FileStatus(lookup: Option<StatusFlags>): (code: Option<string>)
    ensures code.None? <==> lookup.None? || lookup.value == GIT_STATUS_CURRENT
    ensures code == Some("??") <==> lookup.Some? && Has(lookup.value, GIT_STATUS_WT_NEW)
    ensures code == Some("!!") <==> lookup.Some? && !Has(lookup.value, GIT_STATUS_WT_NEW)
                                    && Has(lookup.value, GIT_STATUS_IGNORED)
    ensures code.Some? ==> |code.value| == 2
    ensures code.Some? && code.value != "??" && code.value != "!!" ==>
              code.value[0] in "ADM " && code.value[1] in "DM "
    ensures lookup.Some? && lookup.value != GIT_STATUS_CURRENT
            && !Has(lookup.value, GIT_STATUS_WT_NEW) && !Has(lookup.value, GIT_STATUS_IGNORED)
            ==> code == Some([IndexLetter(lookup.value), WorkTreeLetter(lookup.value)])
  {
    match lookup
    case None => None
    case Some(status) =>
      if status == GIT_STATUS_CURRENT then None
      else if Has(status, GIT_STATUS_WT_NEW) then Some("??")
      else if Has(status, GIT_STATUS_IGNORED) then Some("!!")
      else Some([IndexLetter(status), WorkTreeLetter(status)])
  }

  /** `reduce(operator.or_, flags, 0)`, a left fold. */
  function OrReduce(flags: seq<StatusFlags>): StatusFlags {
    if |flags| == 0 then 0 else OrReduce(flags[..|flags| - 1]) | flags[|flags| - 1]
  }

  /** Some file of the repository has the bit `mask`. */
  predicate AnyHas(flags: seq<StatusFlags>, mask: StatusFlags) {
    exists i :: 0 <= i < |flags| && Has(flags[i], mask)
  }

  /** The OR of all flag words has a bit of `mask` exactly when some word has
      one: the aggregate may combine bits that no single file has together. */
  lemma {:induction false} OrReduceHas(flags: seq<StatusFlags>, mask: StatusFlags)
    ensures Has(OrReduce(flags), mask) <==> AnyHas(flags, mask)
  {
    if |flags| > 0 {
      var n := |flags| - 1;
      var init := flags[..n];
      OrReduceHas(init, mask);
      HasOr(OrReduce(init), flags[n], mask);
      if Has(OrReduce(flags), mask) {
        if Has(OrReduce(init), mask) {
          var i :| 0 <= i < |init| && Has(init[i], mask);
          assert flags[i] == init[i];
        }
      } else {
        forall i | 0 <= i < |flags| ensures !Has(flags[i], mask) {
          if i < n {
            assert flags[i] == init[i];
          }
        }
      }
    }
  }

  /** A bit of `mask` is set in `a | b` exactly when it is set in `a` or `b`. */
  lemma HasOr(a: StatusFlags, b: StatusFlags, mask: StatusFlags)
    ensures Has(a | b, mask) <==> Has(a, mask) || Has(b, mask)
  {
    var x, y := a & mask, b & mask;
    AndDistributes(a, b, mask);
    assert (a | b) & mask == x | y;
    OrZero(x, y);
  }

  lemma AndDistributes(a: StatusFlags, b: StatusFlags, mask: StatusFlags)
    ensures (a | b) & mask == (a & mask) | (b & mask)
  {
  }

  lemma OrZero(x: StatusFlags, y: StatusFlags)
    ensures x | y == 0 <==> x == 0 && y == 0
  {
  }

  /** `check(mask, value)` */
  predicate Check(mask: StatusFlags, value: StatusFlags) {
    value & mask == mask
  }

  /** `'%s:%s' % (tag, name)` */
  function Token(tag: string, name: string): string {
    tag + ":" + name
  }

  /** Tokens with the same tag are equal only when their names are. */
  lemma TokenInjective(tag: string, a: string, b: string)
    ensures Token(tag, a) == Token(tag, b) ==> a == b
  {
    var p := tag + ":";
    assert Token(tag, a)[|p|..] == a;
    assert Token(tag, b)[|p|..] == b;
  }

  /** A token starts with the first character of its tag. */
  lemma TokenHead(tag: string, name: string)
    requires tag != ""
    ensures |Token(tag, name)| > 0 && Token(tag, name)[0] == tag[0]
  {
  }

  const FlagTypes: seq<string> := ["new", "modified", "deleted"]

  /** The tokens of the comprehension over `zip(names, masks)`: one per
      position whose mask `ref` covers, in order. */
  function MatchingTokens(ref: StatusFlags, tag: string, names: seq<string>, masks: seq<StatusFlags>): (r: seq<string>)
    ensures |r| <= |names| && |r| <= |masks|
    ensures forall i :: 0 <= i < |names| && i < |masks| && Check(masks[i], ref) ==> Token(tag, names[i]) in r
    ensures forall t :: t in r ==> exists i :: 0 <= i < |names| && i < |masks| && Check(masks[i], ref) && t == Token(tag, names[i])
  {
    if |names| == 0 || |masks| == 0 then []
    else
      var rest := MatchingTokens(ref, tag, names[1..], masks[1..]);
      assert forall i :: 1 <= i < |names| && i < |masks| ==> names[1..][i - 1] == names[i] && masks[1..][i - 1] == masks[i];
      (if Check(masks[0], ref) then [Token(tag, names[0])] else []) + rest
  }

  /** `checkall(ref, tag, flags)` */
  function CheckAll(ref: StatusFlags, tag: string, masks: seq<StatusFlags>): seq<string> {
    var matched := MatchingTokens(ref, tag, FlagTypes, masks);
    if matched == [] then [Token(tag, "clean")] else matched + [Token(tag, "dirty")]
  }

  const IndexMasks: seq<StatusFlags> := [GIT_STATUS_INDEX_NEW, GIT_STATUS_INDEX_MODIFIED, GIT_STATUS_INDEX_DELETED]
  const WorkTreeMasks: seq<StatusFlags> := [GIT_STATUS_WT_NEW, GIT_STATUS_WT_MODIFIED, GIT_STATUS_WT_DELETED]

  /** pygit2 `do_status(directory, None)` as intended (and as Python 2 runs
      it): `flags` are the values of `status()`, one word per file. */
  function Pygit2RepoStatus(flags: seq<StatusFlags>): seq<string> {
    RepoTokens(OrReduce(flags))
  }

  /** The token list for the aggregate word `ref`: the `index` group, then
      the `working_tree` group. */
  function RepoTokens(ref: StatusFlags): seq<string> {
    CheckAll(ref, "index", IndexMasks) + CheckAll(ref, "working_tree", WorkTreeMasks)
  }

  /** pygit2 `do_status(directory, None)` as Python 3 runs it: `reduce` is
      not a builtin there and is not imported, so line 136 raises NameError
      whatever the repository holds. */
  function Pygit2RepoStatusAsWritten(flags: seq<StatusFlags>): (r: Result<seq<string>, GitError>)
    ensures r.Err?
  {
    Err(NameUnbound)
  }

  /** Every repository, clean or not, is one the Python 3 reading fails on,
      while the intended reading always reports both groups. */
  lemma ReduceUnboundOnPython3(flags: seq<StatusFlags>)
    ensures Pygit2RepoStatusAsWritten(flags) == Err(NameUnbound)
    ensures |Pygit2RepoStatus(flags)| >= 2
  {
  }

  /** One of the first three masks is checked against `value`. */
  predicate AnyChecked(masks: seq<StatusFlags>, value: StatusFlags)
    requires |masks| >= 3
  {
    exists i :: 0 <= i < 3 && Check(masks[i], value)
  }

  /** What `checkall` reports: each kind whose mask the word covers, then
      `dirty`; or `clean` alone when it covers none. */
  lemma CheckAllTokens(ref: StatusFlags, tag: string, masks: seq<StatusFlags>, k: nat)
    requires |masks| == 3 && k < 3 && tag != ""
    ensures Token(tag, FlagTypes[k]) in CheckAll(ref, tag, masks) <==> Check(masks[k], ref)
    ensures Token(tag, "clean") in CheckAll(ref, tag, masks) <==> !AnyChecked(masks, ref)
    ensures Token(tag, "dirty") in CheckAll(ref, tag, masks) <==> AnyChecked(masks, ref)
    ensures forall t :: t in CheckAll(ref, tag, masks) ==> |t| > 0 && t[0] == tag[0]
  {
    var matched := MatchingTokens(ref, tag, FlagTypes, masks);
    TokenInjective(tag, "clean", "dirty");
    forall i | 0 <= i < 3
      ensures Token(tag, FlagTypes[i]) != Token(tag, "clean") && Token(tag, FlagTypes[i]) != Token(tag, "dirty")
      ensures i != k ==> Token(tag, FlagTypes[i]) != Token(tag, FlagTypes[k])
      ensures |Token(tag, FlagTypes[i])| > 0 && Token(tag, FlagTypes[i])[0] == tag[0]
    {
      TokenInjective(tag, FlagTypes[i], "clean");
      TokenInjective(tag, FlagTypes[i], "dirty");
      TokenInjective(tag, FlagTypes[i], FlagTypes[k]);
      TokenHead(tag, FlagTypes[i]);
    }
    TokenHead(tag, "clean");
    TokenHead(tag, "dirty");
    if matched != [] {
      assert matched[0] in matched;
    }
  }

  /** What one group of the repository status reads, given which of its
      kinds (new, modified, deleted, in that order) are present: the present
      kinds followed by `dirty`, or `clean` alone. */
  function GroupReport(tag: string, present: seq<bool>): (r: seq<string>)
    requires |present| == 3
    ensures 1 <= |r| <= 4
    ensures r[|r| - 1] == (if true in present then Token(tag, "dirty") else Token(tag, "clean"))
  {
    var found := (if present[0] then [Token(tag, "new")] else [])
                 + (if present[1] then [Token(tag, "modified")] else [])
                 + (if present[2] then [Token(tag, "deleted")] else []);
    if found == [] then [Token(tag, "clean")] else found + [Token(tag, "dirty")]
  }

  /** `checkall` gives exactly the group report of the kinds whose masks
      the word covers: each at most once, in the order new, modified,
      deleted, and nothing else. */
  lemma CheckAllExact(ref: StatusFlags, tag: string, masks: seq<StatusFlags>)
    requires |masks| == 3
    ensures CheckAll(ref, tag, masks)
            == GroupReport(tag, [Check(masks[0], ref), Check(masks[1], ref), Check(masks[2], ref)])
  {
    var found := MatchingTokens(ref, tag, FlagTypes, masks);
    MatchingThree(ref, tag, masks);
    var present := [Check(masks[0], ref), Check(masks[1], ref), Check(masks[2], ref)];
    assert GroupReport(tag, present)
           == if found == [] then [Token(tag, "clean")] else found + [Token(tag, "dirty")];
  }

  /** The comprehension over the three kinds, written out. */
  lemma MatchingThree(ref: StatusFlags, tag: string, masks: seq<StatusFlags>)
    requires |masks| == 3
    ensures MatchingTokens(ref, tag, FlagTypes, masks)
            == (if Check(masks[0], ref) then [Token(tag, "new")] else [])
               + (if Check(masks[1], ref) then [Token(tag, "modified")] else [])
               + (if Check(masks[2], ref) then [Token(tag, "deleted")] else [])
  {
    var n1, n2: seq<string> := ["modified", "deleted"], ["deleted"];
    var m1, m2 := masks[1..], masks[2..];
    assert FlagTypes[1..] == n1 && n1[1..] == n2 && n2[1..] == [];
    assert m1[1..] == m2 && m1[0] == masks[1] && m2[0] == masks[2];
    MatchingStep(ref, tag, FlagTypes, masks);
    MatchingStep(ref, tag, n1, m1);
    MatchingStep(ref, tag, n2, m2);
    assert MatchingTokens(ref, tag, [], m2[1..]) == [];
  }

  /** One step of the comprehension: the first position's token, if its
      mask is covered, then the tokens of the rest. */
  lemma MatchingStep(ref: StatusFlags, tag: string, names: seq<string>, masks: seq<StatusFlags>)
    requires |names| > 0 && |masks| > 0
    ensures MatchingTokens(ref, tag, names, masks)
            == (if Check(masks[0], ref) then [Token(tag, names[0])] else [])
               + MatchingTokens(ref, tag, names[1..], masks[1..])
  {
  }

  /** The repository status, exactly: the `index` report, then the
      `working_tree` report, each listing the kinds that some file has. */
  lemma Pygit2RepoGroups(flags: seq<StatusFlags>)
    ensures Pygit2RepoStatus(flags)
            == GroupReport("index", [AnyHas(flags, GIT_STATUS_INDEX_NEW),
                                     AnyHas(flags, GIT_STATUS_INDEX_MODIFIED),
                                     AnyHas(flags, GIT_STATUS_INDEX_DELETED)])
               + GroupReport("working_tree", [AnyHas(flags, GIT_STATUS_WT_NEW),
                                              AnyHas(flags, GIT_STATUS_WT_MODIFIED),
                                              AnyHas(flags, GIT_STATUS_WT_DELETED)])
  {
    var ref := OrReduce(flags);
    CheckAllExact(ref, "index", IndexMasks);
    CheckAllExact(ref, "working_tree", WorkTreeMasks);
    forall m | m in IndexMasks + WorkTreeMasks
      ensures Check(m, ref) <==> AnyHas(flags, m)
    {
      CheckBit(ref, m);
      OrReduceHas(flags, m);
    }
    assert IndexMasks[0] in IndexMasks + WorkTreeMasks && IndexMasks[1] in IndexMasks + WorkTreeMasks
           && IndexMasks[2] in IndexMasks + WorkTreeMasks;
    assert WorkTreeMasks[0] in IndexMasks + WorkTreeMasks && WorkTreeMasks[1] in IndexMasks + WorkTreeMasks
           && WorkTreeMasks[2] in IndexMasks + WorkTreeMasks;
  }

  /** A single-bit mask is checked exactly when the word has that bit. */
  lemma CheckBit(value: StatusFlags, mask: StatusFlags)
    requires mask in IndexMasks + WorkTreeMasks
    ensures Check(mask, value) <==> Has(value, mask)
  {
  }

  /** A word has a bit of `m1 | m2` exactly when it has a bit of one of them. */
  lemma HasMaskOr(value: StatusFlags, m1: StatusFlags, m2: StatusFlags)
    ensures Has(value, m1 | m2) <==> Has(value, m1) || Has(value, m2)
  {
    var x, y := value & m1, value & m2;
    AndOverOr(value, m1, m2);
    assert value & (m1 | m2) == x | y;
    OrZero(x, y);
  }

  lemma AndOverOr(value: StatusFlags, m1: StatusFlags, m2: StatusFlags)
    ensures value & (m1 | m2) == (value & m1) | (value & m2)
  {
  }

  /** The index flags and the working-tree flags, each group as one mask. */
  const IndexChanges: StatusFlags := 0x7
  const WorkTreeChanges: StatusFlags := 0x380

  /** Over one group of three single-bit masks: some mask is checked exactly
      when the word has a bit of the whole group. */
  lemma CheckGroup(value: StatusFlags, masks: seq<StatusFlags>, group: StatusFlags)
    requires masks == IndexMasks || masks == WorkTreeMasks
    requires group == masks[0] | masks[1] | masks[2]
    ensures AnyChecked(masks, value) <==> Has(value, group)
  {
    CheckBit(value, masks[0]);
    CheckBit(value, masks[1]);
    CheckBit(value, masks[2]);
    HasMaskOr(value, masks[0] | masks[1], masks[2]);
    HasMaskOr(value, masks[0], masks[1]);
  }

  /** In `idx + wt`, where the tokens of `idx` start with `a` and those of
      `wt` with another character `b`, a token starting with `a` is found in
      `idx` if at all, and one starting with `b` in `wt`. */
  lemma GroupMembership(idx: seq<string>, wt: seq<string>, a: char, b: char, t: string)
    requires forall u :: u in idx ==> |u| > 0 && u[0] == a
    requires forall u :: u in wt ==> |u| > 0 && u[0] == b
    requires a != b && |t| > 0
    ensures t[0] == a ==> (t in idx + wt <==> t in idx)
    ensures t[0] == b ==> (t in idx + wt <==> t in wt)
  {
  }

  /** In `idx + wt` as above, the tokens starting with `a` come first. */
  lemma GroupsOrdered(idx: seq<string>, wt: seq<string>, a: char, b: char)
    requires forall u :: u in idx ==> |u| > 0 && u[0] == a
    requires forall u :: u in wt ==> |u| > 0 && u[0] == b
    requires a != b
    ensures var r := idx + wt;
            forall i, j :: 0 <= i < j < |r| ==> |r[i]| > 0 && |r[j]| > 0 && (r[j][0] == a ==> r[i][0] == a)
  {
    var r := idx + wt;
    forall k | 0 <= k < |r| ensures |r[k]| > 0 && r[k][0] == (if k < |idx| then a else b) {
      if k < |idx| {
        assert r[k] == idx[k] && idx[k] in idx;
      } else {
        assert r[k] == wt[k - |idx|] && wt[k - |idx|] in wt;
      }
    }
  }

  /** Every token is non-empty, and those starting with `i` (the `index`
      group) all come before the others. */
  predicate IndexTokensFirst(r: seq<string>) {
    forall i, j :: 0 <= i < j < |r| ==> |r[i]| > 0 && |r[j]| > 0 && (r[j][0] == 'i' ==> r[i][0] == 'i')
  }

  /** All `index` tokens come before all `working_tree` tokens. */
  lemma RepoTokensIndexFirst(ref: StatusFlags)
    ensures IndexTokensFirst(RepoTokens(ref))
  {
    var idx := CheckAll(ref, "index", IndexMasks);
    var wt := CheckAll(ref, "working_tree", WorkTreeMasks);
    CheckAllTokens(ref, "index", IndexMasks, 0);
    CheckAllTokens(ref, "working_tree", WorkTreeMasks, 0);
    GroupsOrdered(idx, wt, 'i', 'w');
  }

  /** The token list for an aggregate word names a kind exactly when the
      word has its flag, and calls a group dirty exactly when the word has a
      flag of that group, clean otherwise. */
  lemma RepoTokensNamed(ref: StatusFlags, k: nat)
    requires k < 3
    ensures var r := RepoTokens(ref);
            && (Token("index", FlagTypes[k]) in r <==> Has(ref, IndexMasks[k]))
            && (Token("working_tree", FlagTypes[k]) in r <==> Has(ref, WorkTreeMasks[k]))
            && (Token("index", "clean") in r <==> !Has(ref, IndexChanges))
            && (Token("index", "dirty") in r <==> Has(ref, IndexChanges))
            && (Token("working_tree", "clean") in r <==> !Has(ref, WorkTreeChanges))
            && (Token("working_tree", "dirty") in r <==> Has(ref, WorkTreeChanges))
  {
    var idx := CheckAll(ref, "index", IndexMasks);
    var wt := CheckAll(ref, "working_tree", WorkTreeMasks);
    CheckBit(ref, IndexMasks[k]);
    CheckBit(ref, WorkTreeMasks[k]);
    CheckGroup(ref, IndexMasks, IndexChanges);
    CheckGroup(ref, WorkTreeMasks, WorkTreeChanges);
    CheckAllTokens(ref, "index", IndexMasks, k);
    CheckAllTokens(ref, "working_tree", WorkTreeMasks, k);
    var names := [FlagTypes[k], "clean", "dirty"];
    forall n | n in names
      ensures Token("index", n) in idx + wt <==> Token("index", n) in idx
      ensures Token("working_tree", n) in idx + wt <==> Token("working_tree", n) in wt
    {
      TokenHead("index", n);
      TokenHead("working_tree", n);
      GroupMembership(idx, wt, 'i', 'w', Token("index", n));
      GroupMembership(idx, wt, 'i', 'w', Token("working_tree", n));
    }
    assert names[0] in names && names[1] in names && names[2] in names;
  }

  /** The repository's token list names a kind exactly when some file has
      its flag, and calls a group dirty exactly when some file has a flag of
      that group, clean otherwise. The aggregate is the OR of all words, so
      it may combine flags that no single file has together. */
  lemma Pygit2RepoTokens(flags: seq<StatusFlags>, k: nat)
    requires k < 3
    ensures var r := Pygit2RepoStatus(flags);
            && (Token("index", FlagTypes[k]) in r <==> AnyHas(flags, IndexMasks[k]))
            && (Token("working_tree", FlagTypes[k]) in r <==> AnyHas(flags, WorkTreeMasks[k]))
            && (Token("index", "clean") in r <==> !AnyHas(flags, IndexChanges))
            && (Token("index", "dirty") in r <==> AnyHas(flags, IndexChanges))
            && (Token("working_tree", "clean") in r <==> !AnyHas(flags, WorkTreeChanges))
            && (Token("working_tree", "dirty") in r <==> AnyHas(flags, WorkTreeChanges))
  {
    var ref := OrReduce(flags);
    RepoTokensNamed(ref, k);
    OrReduceHas(flags, IndexMasks[k]);
    OrReduceHas(flags, WorkTreeMasks[k]);
    OrReduceHas(flags, IndexChanges);
    OrReduceHas(flags, WorkTreeChanges);
  }

  /** In the repository's token list the `index` tokens (those starting
      with `i`) all come before the `working_tree` ones. */
  lemma Pygit2RepoIndexFirst(flags: seq<StatusFlags>)
    ensures IndexTokensFirst(Pygit2RepoStatus(flags))
  {
    var ref := OrReduce(flags);
    assert Pygit2RepoStatus(flags) == RepoTokens(ref);
    RepoTokensIndexFirst(ref);
  }

  // ---------------------------------------------------------------------
  // Command-line back-end

  /** The command-line `do_status(directory, path)` for a file: `lines` is
      the output of `git status --porcelain --ignored -- path`. */
  function CliFileStatus(lines: seq<string>): (code: Option<string>)
    ensures code.None? <==> |lines| == 0
    ensures code.Some? ==> StartsWith(lines[0], code.value)
                           && |code.value| == (if |lines[0]| < 2 then |lines[0]| else 2)
  {
    if |lines| == 0 then None else Some(Take(lines[0], 2))
  }

  predicate IsUntrackedLine(line: string) { |line| > 0 && line[0] == '?' }
  predicate IsIgnoredLine(line: string) { |line| > 0 && line[0] == '!' }
  predicate IsChangeLine(line: string) { |line| > 0 && line[0] != '?' && line[0] != '!' }

  /** A line on which the loop indexes past the end. */
  predicate IsShortLine(line: string) { |line| == 0 || (IsChangeLine(line) && |line| < 2) }

  /** Some line would make the scan index past its end. */
  predicate ShortIn(lines: seq<string>) {
    exists line :: line in lines && IsShortLine(line)
  }

  /** Some change line has a non-space working-tree column. */
  predicate WorkTreeChangeIn(lines: seq<string>) {
    exists line :: line in lines && IsChangeLine(line) && |line| >= 2 && line[1] != ' '
  }

  /** Some change line has a non-space index column. */
  predicate IndexChangeIn(lines: seq<string>) {
    exists line :: line in lines && IsChangeLine(line) && line[0] != ' '
  }

  /** Some line reports an untracked file. */
  predicate UntrackedIn(lines: seq<string>) {
    exists line :: line in lines && IsUntrackedLine(line)
  }

  /** What the whole-repository scan computes, stated column by column: the
      working tree is dirty when some change line has a non-space second
      character, the index when some change line has a non-space first
      character, and untracked files are present when some line starts with
      `?`; three spaces are reported as `None`. */
  function CliRepoSummary(lines: seq<string>): (r: Result<Option<string>, GitError>)
    ensures r.Ok? && r.value.Some? ==>
              var s := r.value.value;
              && |s| == 3 && s[0] in "D " && s[1] in "I " && s[2] in "U " && s != "   "
              && (s[0] == 'D' <==> WorkTreeChangeIn(lines))
              && (s[1] == 'I' <==> IndexChangeIn(lines))
              && (s[2] == 'U' <==> UntrackedIn(lines))
    ensures r == Ok(None) <==> !ShortIn(lines) && !WorkTreeChangeIn(lines) && !IndexChangeIn(lines) && !UntrackedIn(lines)
  {
    if ShortIn(lines) then Err(IndexOutOfRange)
    else
      var s := [if WorkTreeChangeIn(lines) then 'D' else ' ',
                if IndexChangeIn(lines) then 'I' else ' ',
                if UntrackedIn(lines) then 'U' else ' '];
      if s == "   " then Ok(None) else Ok(Some(s))
  }

  /** How each predicate grows by one line. */
  lemma ScanExtend(seen: seq<string>, line: string)
    ensures ShortIn(seen + [line]) <==> ShortIn(seen) || IsShortLine(line)
    ensures WorkTreeChangeIn(seen + [line]) <==> WorkTreeChangeIn(seen) || (IsChangeLine(line) && |line| >= 2 && line[1] != ' ')
    ensures IndexChangeIn(seen + [line]) <==> IndexChangeIn(seen) || (IsChangeLine(line) && line[0] != ' ')
    ensures UntrackedIn(seen + [line]) <==> UntrackedIn(seen) || IsUntrackedLine(line)
  {
    assert line in seen + [line];
    assert forall l :: l in seen + [line] <==> l in seen || l == line;
  }

  /** The command-line `do_status(directory, None)`: `lines` is the output of
      `git status --porcelain`. */
  method CliRepoStatus(lines: seq<string>) returns (r: Result<Option<string>, GitError>)
    ensures r == CliRepoSummary(lines)
  {
    var wtColumn, indexColumn, untrackedColumn := ' ', ' ', ' ';
    var n := 0;
    while n < |lines|
      invariant 0 <= n <= |lines|
      invariant !ShortIn(lines[..n])
      invariant wtColumn == if WorkTreeChangeIn(lines[..n]) then 'D' else ' '
      invariant indexColumn == if IndexChangeIn(lines[..n]) then 'I' else ' '
      invariant untrackedColumn == if UntrackedIn(lines[..n]) then 'U' else ' '
    {
      var line := lines[n];
      ScanExtend(lines[..n], line);
      assert lines[..n + 1] == lines[..n] + [line];
      if |line| == 0 {
        assert line in lines;
        return Err(IndexOutOfRange);
      }
      if line[0] == '?' {
        untrackedColumn := 'U';
        n := n + 1;
        continue;
      } else if line[0] == '!' {
        n := n + 1;
        continue;
      }
      if line[0] != ' ' {
        indexColumn := 'I';
      }
      if |line| < 2 {
        assert line in lines;
        return Err(IndexOutOfRange);
      }
      if line[1] != ' ' {
        wtColumn := 'D';
      }
      n := n + 1;
    }
    assert lines[..n] == lines;
    var s := [wtColumn, indexColumn, untrackedColumn];
    r := if s == "   " then Ok(None) else Ok(Some(s));
  }

  /** The order of the porcelain lines does not matter. */
  lemma CliRepoSummaryOrderFree(lines: seq<string>, other: seq<string>)
    requires multiset(lines) == multiset(other)
    ensures CliRepoSummary(lines) == CliRepoSummary(other)
  {
    forall l ensures l in lines <==> l in other {
      assert l in lines <==> l in multiset(lines);
      assert l in other <==> l in multiset(other);
    }
  }

  /** A clean repository (no untracked file and every change line starting
      with two spaces) reports `None`, and only such a repository does. */
  lemma CliRepoSummaryClean(lines: seq<string>)
    requires !ShortIn(lines)
    ensures CliRepoSummary(lines) == Ok(None)
            <==> forall i :: 0 <= i < |lines| ==> IsIgnoredLine(lines[i]) || StartsWith(lines[i], "  ")
  {
    if CliRepoSummary(lines) == Ok(None) {
      forall i | 0 <= i < |lines| ensures IsIgnoredLine(lines[i]) || StartsWith(lines[i], "  ") {
        var line := lines[i];
        assert line in lines;
        if !IsIgnoredLine(line) {
          assert line[..2] == [line[0], line[1]];
        }
      }
    } else {
      var i := if UntrackedIn(lines) then UntrackedWitness(lines)
               else if IndexChangeIn(lines) then IndexChangeWitness(lines)
               else WorkTreeChangeWitness(lines);
      assert !IsIgnoredLine(lines[i]) && !StartsWith(lines[i], "  ") by {
        assert |lines[i]| >= 2 ==> lines[i][..2][0] == lines[i][0] && lines[i][..2][1] == lines[i][1];
      }
    }
  }

  /** A position of an untracked line. */
  ghost function UntrackedWitness(lines: seq<string>): (i: nat)
    requires UntrackedIn(lines)
    ensures i < |lines| && IsUntrackedLine(lines[i])
  {
    var line :| line in lines && IsUntrackedLine(line);
    IndexOf(lines, line)
  }

  /** A position of a change line with a non-space index column. */
  ghost function IndexChangeWitness(lines: seq<string>): (i: nat)
    requires IndexChangeIn(lines)
    ensures i < |lines| && IsChangeLine(lines[i]) && lines[i][0] != ' '
  {
    var line :| line in lines && IsChangeLine(line) && line[0] != ' ';
    IndexOf(lines, line)
  }

  /** A position of a change line with a non-space working-tree column. */
  ghost function WorkTreeChangeWitness(lines: seq<string>): (i: nat)
    requires WorkTreeChangeIn(lines)
    ensures i < |lines| && IsChangeLine(lines[i]) && |lines[i]| >= 2 && lines[i][1] != ' '
  {
    var line :| line in lines && IsChangeLine(line) && |line| >= 2 && line[1] != ' ';
    IndexOf(lines, line)
  }

  /** The first position of `x` in `s`. */
  function IndexOf<T(==)>(s: seq<T>, x: T): (i: nat)
    requires x in s
    ensures i < |s| && s[i] == x
  {
    if s[0] == x then 0 else 1 + IndexOf(s[1..], x)
  }

  /** Porcelain lines as the pygit2 back-end would print them: each line is
      the file's two-letter code and its name, or three spaces for a file
      with no code; files flagged untracked or ignored carry no other change
      flags. */
  predicate LinesFromFlags(flags: seq<StatusFlags>, lines: seq<string>) {
    && |lines| == |flags|
    && forall i :: 0 <= i < |flags| ==> LineFromFlags(flags[i], lines[i])
  }

  predicate LineFromFlags(status: StatusFlags, line: string) {
    && ((Has(status, GIT_STATUS_WT_NEW) || Has(status, GIT_STATUS_IGNORED)) ==> status & 0x307 == 0)
    && var code := Pygit2FileStatus(Some(status));
       || (code.Some? && StartsWith(line, code.value) && |line| > 2)
       || (code.None? && line == "   ")
  }

  /** What one such line tells the scan about its file. */
  lemma LineFacts(status: StatusFlags, line: string)
    requires LineFromFlags(status, line)
    ensures !IsShortLine(line)
    ensures (IsChangeLine(line) && line[0] != ' ') <==> Has(status, IndexChanges)
    ensures ((IsChangeLine(line) && |line| >= 2 && line[1] != ' ') || IsUntrackedLine(line))
            <==> Has(status, WorkTreeChanges)
  {
    var code := Pygit2FileStatus(Some(status));
    if code.Some? {
      assert line[..2] == code.value;
      assert line[0] == code.value[0] && line[1] == code.value[1];
    }
    HasMaskOr(status, 0x3, 0x4);
    HasMaskOr(status, 0x1, 0x2);
    HasMaskOr(status, 0x180, 0x200);
    HasMaskOr(status, 0x80, 0x100);
  }

  /** The two back-ends agree: feeding the pygit2 per-file codes, as
      porcelain lines, to the command-line scan marks the index dirty exactly
      when the pygit2 summary says `index:dirty`, and marks the working tree
      dirty or untracked files present exactly when it says
      `working_tree:dirty`. */
  lemma BackendsAgree(flags: seq<StatusFlags>, lines: seq<string>)
    requires LinesFromFlags(flags, lines)
    ensures var cli := CliRepoSummary(lines);
            var native := Pygit2RepoStatus(flags);
            && cli.Ok?
            && ((cli.value.Some? && cli.value.value[1] == 'I') <==> Token("index", "dirty") in native)
            && ((cli.value.Some? && (cli.value.value[0] == 'D' || cli.value.value[2] == 'U'))
                <==> Token("working_tree", "dirty") in native)
  {
    Pygit2RepoTokens(flags, 0);
    ScanAgrees(flags, lines);
  }

  /** The scan's predicates over such lines, in terms of the flag words. */
  lemma ScanAgrees(flags: seq<StatusFlags>, lines: seq<string>)
    requires LinesFromFlags(flags, lines)
    ensures !ShortIn(lines)
    ensures IndexChangeIn(lines) <==> AnyHas(flags, IndexChanges)
    ensures WorkTreeChangeIn(lines) || UntrackedIn(lines) <==> AnyHas(flags, WorkTreeChanges)
  {
    forall i | 0 <= i < |flags|
      ensures !IsShortLine(lines[i])
      ensures (IsChangeLine(lines[i]) && lines[i][0] != ' ') <==> Has(flags[i], IndexChanges)
      ensures ((IsChangeLine(lines[i]) && |lines[i]| >= 2 && lines[i][1] != ' ') || IsUntrackedLine(lines[i]))
              <==> Has(flags[i], WorkTreeChanges)
    {
      LineFacts(flags[i], lines[i]);
    }
    forall line | line in lines ensures !IsShortLine(line) {
      var i := IndexOf(lines, line);
    }
    if IndexChangeIn(lines) {
      var i := IndexChangeWitness(lines);
    }
    if AnyHas(flags, IndexChanges) {
      var i :| 0 <= i < |flags| && Has(flags[i], IndexChanges);
      assert lines[i] in lines;
    }
    if UntrackedIn(lines) {
      var i := UntrackedWitness(lines);
    }
    if WorkTreeChangeIn(lines) {
      var i := WorkTreeChangeWitness(lines);
    }
    if AnyHas(flags, WorkTreeChanges) {
      var i :| 0 <= i < |flags| && Has(flags[i], WorkTreeChanges);
      assert lines[i] in lines;
    }
  }

  /** The example of a working-tree change and an untracked file: ` M` and
      `??` lines give `D U`; per file, `A  staged.txt` gives `A `. */
  lemma CliStatusExamples()
    ensures CliRepoSummary([" M file.txt", "?? new.txt"]) == Ok(Some("D U"))
    ensures CliFileStatus(["A  staged.txt"]) == Some("A ")
  {
    var lines := [" M file.txt", "?? new.txt"];
    assert IsChangeLine(lines[0]) && lines[0][1] != ' ' && lines[0] in lines;
    assert IsUntrackedLine(lines[1]) && lines[1] in lines;
    assert forall l :: l in lines ==> l == lines[0] || l == lines[1];
    assert Take("A  staged.txt", 2) == "A ";
  }

  /** Below a working tree named without a trailing separator, the metadata
      directory's files are at `<directory>/.git/<name>`. */
  lemma MetadataPath(directory: string, name: string)
    requires directory != "" && directory[|directory| - 1] != Sep
    requires !IsAbs(name)
    ensures JoinPath(JoinPath(directory, ".git"), name) == directory + "/.git/" + name
  {
    var gitd := JoinPath(directory, ".git");
    assert gitd == directory + "/.git";
    assert gitd[|gitd| - 1] == 't';
    assert gitd + [Sep] + name == directory + "/.git/" + name;
  }

  /** The base name of `<directory>/.git` is `.git`. */
  lemma MetadataBasename(directory: string)
    ensures Basename(JoinPath(directory, ".git")) == ".git"
  {
    if directory == [] || directory[|directory| - 1] == Sep {
      BasenameOf(directory, ".git");
    } else {
      BasenameOf(directory + [Sep], ".git");
    }
  }

  // ---------------------------------------------------------------------
  // The two `Repository` classes and the `GitRepository` facade

  /** Which `Repository` class the module defined: the pygit2 one when the
      import succeeded, the command-line one otherwise. */
  datatype Backend = Pygit2 | CommandLine

  /** `Repository.ignore_event(path, name)`: the command-line back-end drops
      events for `index.lock` in a directory whose path ends in `.git` (a
      plain checkout's metadata directory, but also a bare repository named
      `x.git`); the pygit2 back-end drops none. */
  function IgnoreEvent(backend: Backend, path: string, name: string): (ignored: bool)
    ensures ignored ==> backend == CommandLine && name == "index.lock"
    ensures !EndsWith(path, ".git") ==> !ignored
  {
    match backend
    case Pygit2 => false
    case CommandLine => EndsWith(path, ".git") && name == "index.lock"
  }

  /** In a plain checkout's metadata directory only the lock file is
      filtered: every other change there invalidates. */
  lemma IgnoreEventOnlyIndexLock(directory: string, name: string)
    ensures IgnoreEvent(CommandLine, JoinPath(directory, ".git"), name) <==> name == "index.lock"
    ensures !IgnoreEvent(Pygit2, JoinPath(directory, ".git"), name)
  {
    var p := JoinPath(directory, ".git");
    assert p[|p| - 4..] == ".git";
  }

  /** The command-line `divergence()` */
  function CliDivergence(): (r: (nat, nat))
    ensures r == (0, 0)
  {
    (0, 0)
  }

  /** The arguments `status(path)` hands to `get_file_status`, which caches
      `do_status(directory, path)` until one of the watched files changes. */
  datatype FileStatusRequest<W> = FileStatusRequest(
    directory: string,
    dirstateFile: string,
    filePath: string,
    ignoreFileName: string,
    extraIgnoreFiles: seq<string>,
    backend: Backend,
    createWatcher: W)

  /** What `status(path)` does: a file query goes through the cache; a
      repository query calls `do_status(directory, path)` directly. */
  datatype StatusCall<W> =
    | CachedFileStatus(request: FileStatusRequest<W>)
    | RepositoryStatus(directory: string, backend: Backend)

  /** The arguments `branch()` hands to `get_branch_name`, which caches
      `branch_name_from_config_file(directory, config_file)`. */
  datatype BranchRequest<W> = BranchRequest(directory: string, configFile: string, createWatcher: W)

  /** Whether a `path` argument is truthy. */
  predicate IsGiven(path: Option<string>) {
    path.Some? && path.value != ""
  }

  class GitRepository<W> {
    const directory: string
    const createWatcher: W
    const backend: Backend

    /** `Repository(directory, create_watcher)`; `cwd` stands for the working
        directory that `abspath` resolves against. */
    constructor(directory: string, createWatcher: W, backend: Backend, cwd: string)
      ensures this.directory == AbsPath(cwd, directory)
      ensures this.createWatcher == createWatcher && this.backend == backend
    {
      this.directory := AbsPath(cwd, directory);
      this.createWatcher := createWatcher;
      this.backend := backend;
    }

    /** `status(path)`: a repository query never touches the file system; a
        file query resolves the metadata directory (and fails as that does)
        and watches its `index`, `logs/HEAD` and `info/exclude`. */
    function Status(path: Option<string>, fs: FileSystem, cwd: string): (r: Result<StatusCall<W>, GitError>)
      ensures !IsGiven(path) ==> r == Ok(RepositoryStatus(directory, backend))
      ensures IsGiven(path) ==> (r.Err? <==> GitDirectory(fs, cwd, directory).Err?)
      ensures IsGiven(path) && r.Ok? ==>
                var gitd := GitDirectory(fs, cwd, directory).value;
                && r.value.CachedFileStatus?
                && r.value.request.directory == directory
                && r.value.request.filePath == path.value
                && r.value.request.dirstateFile == JoinPath(gitd, "index")
                && r.value.request.extraIgnoreFiles == [JoinPath(gitd, "logs/HEAD"), JoinPath(gitd, "info/exclude")]
    {
      if IsGiven(path) then
        match GitDirectory(fs, cwd, directory)
        case Err(e) => Err(e)
        case Ok(gitd) =>
          Ok(CachedFileStatus(FileStatusRequest(
            directory, JoinPath(gitd, "index"), path.value, ".gitignore",
            [JoinPath(gitd, "logs/HEAD"), JoinPath(gitd, "info/exclude")], backend, createWatcher)))
      else Ok(RepositoryStatus(directory, backend))
    }

    /** `branch()`: the branch name is read from `HEAD` in the metadata
        directory, and the metadata directory is what it falls back to. */
    function Branch(fs: FileSystem, cwd: string): (r: Result<BranchRequest<W>, GitError>)
      ensures r.Err? <==> GitDirectory(fs, cwd, directory).Err?
      ensures r.Ok? ==> r.value.directory == GitDirectory(fs, cwd, directory).value
                        && r.value.configFile == JoinPath(r.value.directory, "HEAD")
    {
      match GitDirectory(fs, cwd, directory)
      case Err(e) => Err(e)
      case Ok(gitd) => Ok(BranchRequest(gitd, JoinPath(gitd, "HEAD"), createWatcher))
    }

    /** In a plain checkout (no gitfile) an unreadable `HEAD` yields `.git`,
        the base name of the metadata directory, not that of the working
        tree. */
    lemma BranchFallbackIsMetadataDirectory(fs: FileSystem, cwd: string)
      requires JoinPath(directory, ".git") !in fs
      requires var head := JoinPath(JoinPath(directory, ".git"), "HEAD");
               head !in fs || fs[head].Unreadable?
      ensures Branch(fs, cwd).Ok?
      ensures var req := Branch(fs, cwd).value;
              BranchNameFromConfigFile(fs, req.directory, req.configFile) == TextLabel(".git")
    {
      var gitd := JoinPath(directory, ".git");
      assert GitDirectory(fs, cwd, directory) == Ok(gitd);
      assert Branch(fs, cwd) == Ok(BranchRequest(gitd, JoinPath(gitd, "HEAD"), createWatcher));
      UnreadableHeadLabel(fs, gitd, JoinPath(gitd, "HEAD"));
      MetadataBasename(directory);
    }

    /** For a plain checkout the cache watches the usual files under
        `<directory>/.git`. */
    lemma PlainCheckoutWatchPaths(fs: FileSystem, cwd: string, file: string)
      requires directory != "" && directory[|directory| - 1] != Sep
      requires JoinPath(directory, ".git") !in fs
      requires file != ""
      ensures var r := Status(Some(file), fs, cwd);
              && r.Ok? && r.value.CachedFileStatus?
              && r.value.request.dirstateFile == directory + "/.git/" + "index"
              && r.value.request.extraIgnoreFiles == [directory + "/.git/" + "logs/HEAD", directory + "/.git/" + "info/exclude"]
    {
      var gitd := JoinPath(directory, ".git");
      assert GitDirectory(fs, cwd, directory) == Ok(gitd);
      MetadataPath(directory, "index");
      MetadataPath(directory, "logs/HEAD");
      MetadataPath(directory, "info/exclude");
    }
  }
}
