/** Preparing and verifying the two immutable tags of a release
    (scripts/prepare_pypi_release.py and scripts/verify_release_tag.py) over a small model
    of git: commits with their ancestors and project version, tag references to objects
    that may be annotated, a local repository and the remote it pushes to. */
module ReleaseTags {
  import opened Wrappers

  datatype GitObject = Commit(id: nat) | TagObject(oid: nat, target: GitObject) | Blob(oid: nat)

  type Tags = map<string, GitObject>

  /** `rev-parse ref`. */
  function Id(o: GitObject): nat {
    match o
    case Commit(id) => id
    case TagObject(oid, _) => oid
    case Blob(oid) => oid
  }

  /** `rev-parse ref^{commit}`. */
  function Peel(o: GitObject): Option<nat> {
    match o
    case Commit(id) => Some(id)
    case TagObject(_, target) => Peel(target)
    case Blob(_) => None
  }

  /** `version` is the static project version in the commit's pyproject.toml, if readable. */
  datatype CommitInfo = CommitInfo(version: Option<string>, parents: set<nat>)

  /** Commits are numbered as they are made, so parents come before their children. */
  ghost predicate ParentsComeFirst(h: map<nat, CommitInfo>) {
    forall c | c in h :: forall p | p in h[c].parents :: p < c
  }

  type History = h: map<nat, CommitInfo> | ParentsComeFirst(h) witness map[]

  function VersionAt(history: History, commit: nat): Option<string> {
    if commit in history then history[commit].version else None
  }

  /** `merge-base --is-ancestor`. */
  predicate IsAncestor(history: History, commit: nat, head: nat)
    decreases head
  {
    commit == head || (head in history && exists p | p in history[head].parents :: IsAncestor(history, commit, p))
  }

  /** A way from the head back to the commit, from child to parent. */
  ghost predicate Leads(history: History, path: seq<nat>, commit: nat, head: nat) {
    && path != [] && path[0] == head && path[|path| - 1] == commit
    && forall i | 0 <= i < |path| - 1 :: path[i] in history && path[i + 1] in history[path[i]].parents
  }

  lemma {:induction false} PathFromAncestor(history: History, commit: nat, head: nat) returns (path: seq<nat>)
    requires IsAncestor(history, commit, head)
    ensures Leads(history, path, commit, head)
    decreases head
  {
    if commit == head {
      path := [head];
    } else {
      var p :| p in history[head].parents && IsAncestor(history, commit, p);
      var rest := PathFromAncestor(history, commit, p);
      path := [head] + rest;
    }
  }

  lemma {:induction false} AncestorFromPath(history: History, path: seq<nat>, commit: nat, head: nat)
    requires Leads(history, path, commit, head)
    ensures IsAncestor(history, commit, head)
    decreases |path|
  {
    if |path| > 1 {
      assert path[1] in history[path[0]].parents;
      assert Leads(history, path[1..], commit, path[1]);
      AncestorFromPath(history, path[1..], commit, path[1]);
    }
  }

  /** Ancestors are the commits that lie on some way back from the head. */
  lemma AncestorIff(history: History, commit: nat, head: nat)
    ensures IsAncestor(history, commit, head) <==> exists path :: Leads(history, path, commit, head)
  {
    if IsAncestor(history, commit, head) {
      var path := PathFromAncestor(history, commit, head);
    }
    forall path | Leads(history, path, commit, head) ensures IsAncestor(history, commit, head) {
      AncestorFromPath(history, path, commit, head);
    }
  }

  /** What main contains stays in main as it advances. */
  lemma {:induction false} AncestorsStay(history: History, commit: nat, head: nat, later: nat)
    requires IsAncestor(history, commit, head) && IsAncestor(history, head, later)
    ensures IsAncestor(history, commit, later)
    decreases later
  {
    if head != later {
      var p :| p in history[later].parents && IsAncestor(history, head, p);
      AncestorsStay(history, commit, head, p);
    }
  }

  /** A working tree at `head`; `version` is what its own pyproject.toml says. */
  datatype Checkout = Checkout(head: nat, clean: bool, version: Option<string>)

  /** A clean tree shows the committed project file. */
  ghost predicate Honest(history: History, c: Checkout) {
    c.clean ==> c.version == VersionAt(history, c.head)
  }

  // ---------------------------------------------------------------- versions and tag names

  predicate Digits(s: string) {
    s != "" && forall i | 0 <= i < |s| :: IsDigit(s[i])
  }

  predicate IsDigit(c: char) {
    '0' <= c <= '9'
  }

  /** Digit runs separated by single dots. */
  predicate IsRelease(s: string) {
    && s != "" && IsDigit(s[0]) && IsDigit(s[|s| - 1])
    && (forall i | 0 <= i < |s| :: IsDigit(s[i]) || s[i] == '.')
    && (forall i | 0 <= i < |s| - 1 :: s[i] == '.' ==> IsDigit(s[i + 1]))
  }

  predicate IsOptional(mark: string, s: string) {
    s == "" || (mark <= s && Digits(s[|mark|..]))
  }

  /** The canonical version pattern: a dotted release, then at most one of a/b/rc with a
      number, one .post and one .dev. */
  predicate IsVersion(s: string) {
    exists i, j, k | 0 <= i <= j <= k <= |s| :: SplitsAt(s, i, j, k)
  }

  predicate SplitsAt(s: string, i: nat, j: nat, k: nat)
    requires i <= j <= k <= |s|
  {
    && IsRelease(s[..i])
    && (IsOptional("a", s[i..j]) || IsOptional("b", s[i..j]) || IsOptional("rc", s[i..j]))
    && IsOptional(".post", s[j..k])
    && IsOptional(".dev", s[k..])
  }

  predicate IsManualTag(tag: string) {
    && |tag| > 6 && tag[..6] == "pypi-v" && '0' <= tag[6] <= '9'
    && forall i | 6 <= i < |tag| ::
         '0' <= tag[i] <= '9' || 'A' <= tag[i] <= 'Z' || 'a' <= tag[i] <= 'z' || tag[i] == '.'
  }

  function SourceTag(version: string): string { "v" + version }
  function AuthorizationTag(version: string): string { "pypi-v" + version }

  predicate SafeChar(c: char) {
    c != '/' && c != '\\' && c != ' ' && c != '\t' && c != '\n'
  }

  predicate SafeTag(tag: string) {
    forall i | 0 <= i < |tag| :: SafeChar(tag[i])
  }

  /** What the parts of a version are written with. */
  predicate IsPlain(s: string) {
    forall i | 0 <= i < |s| :: '0' <= s[i] <= '9' || 'a' <= s[i] <= 'z' || s[i] == '.'
  }

  lemma PlainConcat(a: string, b: string)
    requires IsPlain(a) && IsPlain(b)
    ensures IsPlain(a + b)
  {}

  lemma OptionalIsPlain(mark: string, s: string)
    requires IsOptional(mark, s) && IsPlain(mark)
    ensures IsPlain(s)
  {
    if s != "" {
      PlainConcat(mark, s[|mark|..]);
      assert s == mark + s[|mark|..];
    }
  }

  /** Every canonical version makes tag names the verifier accepts as safe and the manual
      recovery accepts as a release. */
  lemma {:induction false} VersionIsSafe(v: string)
    requires IsVersion(v)
    ensures v != "" && SafeTag(AuthorizationTag(v)) && IsManualTag(AuthorizationTag(v))
  {
    var i, j, k :| 0 <= i <= j <= k <= |v| && SplitsAt(v, i, j, k);
    SplitIsPlain(v, i, j, k);
    assert v[0] == v[..i][0];
  }

  lemma SplitIsPlain(v: string, i: nat, j: nat, k: nat)
    requires i <= j <= k <= |v| && SplitsAt(v, i, j, k)
    ensures v != "" && i > 0 && IsPlain(v)
  {
    PartsArePlain(v[..i], v[i..j], v[j..k], v[k..]);
    assert v[..i] + v[i..j] == v[..j];
    assert v[..j] + v[j..k] == v[..k];
    assert v[..k] + v[k..] == v;
  }

  lemma PartsArePlain(release: string, pre: string, post: string, dev: string)
    requires IsRelease(release)
    requires IsOptional("a", pre) || IsOptional("b", pre) || IsOptional("rc", pre)
    requires IsOptional(".post", post) && IsOptional(".dev", dev)
    ensures IsPlain(((release + pre) + post) + dev)
  {
    OptionalIsPlain(if IsOptional("a", pre) then "a" else if IsOptional("b", pre) then "b" else "rc", pre);
    OptionalIsPlain(".post", post);
    OptionalIsPlain(".dev", dev);
    PlainConcat(release, pre);
    PlainConcat(release + pre, post);
    PlainConcat((release + pre) + post, dev);
  }

  // ---------------------------------------------------------------- how versions are written

  ghost predicate DigitRun(s: string) {
    s != "" && forall c | c in s :: c in "0123456789"
  }

  lemma DigitsIff(s: string)
    ensures Digits(s) <==> DigitRun(s)
  {
    forall i | 0 <= i < |s| ensures IsDigit(s[i]) <==> s[i] in "0123456789" {
      DigitIff(s[i]);
    }
    assert forall c | c in s :: exists i :: 0 <= i < |s| && s[i] == c;
  }

  lemma DigitIff(c: char)
    ensures IsDigit(c) <==> c in "0123456789"
  {
    var digits := "0123456789";
    if IsDigit(c) {
      assert digits[(c - '0') as nat] == c;
    }
  }

  lemma UpperIff(c: char)
    ensures 'A' <= c <= 'Z' <==> c in "ABCDEFGHIJKLMNOPQRSTUVWXYZ"
  {
    var letters := "ABCDEFGHIJKLMNOPQRSTUVWXYZ";
    if 'A' <= c <= 'Z' {
      assert letters[(c - 'A') as nat] == c;
    }
  }

  lemma LowerIff(c: char)
    ensures 'a' <= c <= 'z' <==> c in "abcdefghijklmnopqrstuvwxyz"
  {
    var letters := "abcdefghijklmnopqrstuvwxyz";
    if 'a' <= c <= 'z' {
      assert letters[(c - 'a') as nat] == c;
    }
  }

  predicate ManualChar(c: char) {
    c in "0123456789" || c in "ABCDEFGHIJKLMNOPQRSTUVWXYZ" || c in "abcdefghijklmnopqrstuvwxyz" || c == '.'
  }

  /** The manual recovery takes pypi-v, a digit, and any digits, letters and dots. */
  lemma ManualTagIff(rest: string)
    ensures IsManualTag("pypi-v" + rest) <==>
      rest != "" && rest[0] in "0123456789" && forall c | c in rest :: ManualChar(c)
    ensures forall tag | IsManualTag(tag) :: |tag| > 6 && tag == "pypi-v" + tag[6..]
  {
    var tag := "pypi-v" + rest;
    forall i | 0 <= i < |rest|
      ensures tag[6 + i] == rest[i]
      ensures ManualChar(rest[i]) <==>
        ('0' <= rest[i] <= '9' || 'A' <= rest[i] <= 'Z' || 'a' <= rest[i] <= 'z' || rest[i] == '.')
      ensures '0' <= rest[i] <= '9' <==> rest[i] in "0123456789"
    {
      DigitIff(rest[i]);
      UpperIff(rest[i]);
      LowerIff(rest[i]);
    }
    assert tag[..6] == "pypi-v" && |tag| == 6 + |rest|;
    if IsManualTag(tag) {
      forall i | 0 <= i < |rest| ensures ManualChar(rest[i]) {
        assert tag[6 + i] == rest[i];
      }
    }
  }

  /** A safe tag has no slash, backslash, space, tab or newline. */
  lemma SafeTagIff(tag: string)
    ensures SafeTag(tag) <==> forall c | c in "/\\ \t\n" :: c !in tag
  {
    var unsafe := "/\\ \t\n";
    assert unsafe[0] == '/' && unsafe[1] == '\\' && unsafe[2] == ' ' && unsafe[3] == '\t' && unsafe[4] == '\n';
    forall c ensures SafeChar(c) <==> c !in unsafe {}
    if SafeTag(tag) {
      forall c | c in unsafe ensures c !in tag {}
    } else {
      var i :| 0 <= i < |tag| && !SafeChar(tag[i]);
      assert tag[i] in tag && tag[i] in unsafe;
    }
  }

  function Dotted(runs: seq<string>): string
    requires runs != []
  {
    if |runs| == 1 then runs[0] else runs[0] + "." + Dotted(runs[1..])
  }

  ghost predicate IsDotted(runs: seq<string>, s: string) {
    && runs != [] && (forall i | 0 <= i < |runs| :: DigitRun(runs[i]))
    && s == Dotted(runs)
  }

  lemma {:induction false} DottedIsRelease(runs: seq<string>, s: string)
    requires IsDotted(runs, s)
    ensures IsRelease(s)
    decreases |runs|
  {
    DigitsIff(runs[0]);
    if |runs| > 1 {
      var rest := Dotted(runs[1..]);
      DottedIsRelease(runs[1..], rest);
      assert s == runs[0] + "." + rest;
      ReleaseGrows(runs[0], rest);
    }
  }

  lemma ReleaseGrows(run: string, rest: string)
    requires Digits(run) && IsRelease(rest)
    ensures IsRelease(run + "." + rest)
  {
    var s, n := run + "." + rest, |run| + 1;
    assert s[|s| - 1] == rest[|rest| - 1] && s[n] == rest[0];
    forall i | 0 <= i < |s| - 1 && s[i] == '.' ensures IsDigit(s[i + 1]) {
      if i >= n {
        assert s[i] == rest[i - n] && s[i + 1] == rest[i + 1 - n];
      }
    }
    forall i | 0 <= i < |s| ensures IsDigit(s[i]) || s[i] == '.' {
      if i >= n {
        assert s[i] == rest[i - n];
      }
    }
  }

  lemma {:induction false} ReleaseIsDotted(s: string) returns (runs: seq<string>)
    requires IsRelease(s)
    ensures IsDotted(runs, s)
    decreases |s|
  {
    if '.' !in s {
      DigitsIff(s);
      runs := [s];
    } else {
      var n := FirstDot(s);
      var run, rest := s[..n], s[n + 1..];
      assert rest[0] == s[n + 1] && rest[|rest| - 1] == s[|s| - 1];
      forall i | 0 <= i < |rest| - 1 && rest[i] == '.' ensures IsDigit(rest[i + 1]) {
        assert s[n + 1 + i] == '.' && s[n + 2 + i] == rest[i + 1];
      }
      DigitsIff(run);
      var others := ReleaseIsDotted(rest);
      runs := [run] + others;
      assert runs[1..] == others;
      assert s == run + "." + rest;
    }
  }

  lemma {:induction false} FirstDot(s: string) returns (n: nat)
    requires '.' in s
    ensures n < |s| && s[n] == '.' && '.' !in s[..n]
  {
    if s[0] == '.' {
      n := 0;
    } else {
      n := FirstDot(s[1..]);
      n := n + 1;
      assert s[..n] == [s[0]] + s[1..][..n - 1];
    }
  }

  ghost predicate Marked(mark: string, s: string) {
    exists n :: DigitRun(n) && s == mark + n
  }

  lemma OptionalIff(mark: string, s: string)
    ensures IsOptional(mark, s) <==> s == "" || Marked(mark, s)
  {
    if IsOptional(mark, s) && s != "" {
      DigitsIff(s[|mark|..]);
      assert s == mark + s[|mark|..];
    }
    forall n | DigitRun(n) && s == mark + n ensures IsOptional(mark, s) {
      assert s[|mark|..] == n;
      DigitsIff(n);
    }
  }

  /** The parts a version is put together from. */
  ghost predicate Written(s: string, release: string, pre: string, post: string, dev: string) {
    && s == ((release + pre) + post) + dev
    && (exists runs :: IsDotted(runs, release))
    && (pre == "" || Marked("a", pre) || Marked("b", pre) || Marked("rc", pre))
    && (post == "" || Marked(".post", post))
    && (dev == "" || Marked(".dev", dev))
  }

  /** The canonical versions are dotted digit runs with at most one pre-release number, one
      post-release and one development number after them. */
  lemma VersionIff(s: string)
    ensures IsVersion(s) <==> exists release, pre, post, dev :: Written(s, release, pre, post, dev)
  {
    if IsVersion(s) {
      var i, j, k :| 0 <= i <= j <= k <= |s| && SplitsAt(s, i, j, k);
      SplitIsWritten(s, i, j, k);
    }
    forall release, pre, post, dev | Written(s, release, pre, post, dev) ensures IsVersion(s) {
      WrittenSplits(s, release, pre, post, dev);
    }
  }

  lemma SplitIsWritten(s: string, i: nat, j: nat, k: nat)
    requires i <= j <= k <= |s| && SplitsAt(s, i, j, k)
    ensures Written(s, s[..i], s[i..j], s[j..k], s[k..])
  {
    var runs := ReleaseIsDotted(s[..i]);
    PartsAreMarked(s[i..j], s[j..k], s[k..]);
    assert s == ((s[..i] + s[i..j]) + s[j..k]) + s[k..];
  }

  lemma WrittenSplits(s: string, release: string, pre: string, post: string, dev: string)
    requires Written(s, release, pre, post, dev)
    ensures IsVersion(s)
  {
    var runs :| IsDotted(runs, release);
    DottedIsRelease(runs, release);
    PartsAreMarked(pre, post, dev);
    JoinedParts(release, pre, post, dev);
    PartsSplit(s, release, pre, post, dev, |release|, |release| + |pre|, |release| + |pre| + |post|);
  }

  lemma PartsSplit(
      s: string, release: string, pre: string, post: string, dev: string, i: nat, j: nat, k: nat)
    requires i <= j <= k <= |s| && s[..i] == release && s[i..j] == pre && s[j..k] == post && s[k..] == dev
    requires IsRelease(release) && (IsOptional("a", pre) || IsOptional("b", pre) || IsOptional("rc", pre))
    requires IsOptional(".post", post) && IsOptional(".dev", dev)
    ensures IsVersion(s)
  {
    assert SplitsAt(s, i, j, k);
  }

  lemma JoinedParts(a: string, b: string, c: string, d: string)
    ensures
      var s, i, j, k := ((a + b) + c) + d, |a|, |a| + |b|, |a| + |b| + |c|;
      s[..i] == a && s[i..j] == b && s[j..k] == c && s[k..] == d
  {}

  lemma PartsAreMarked(pre: string, post: string, dev: string)
    ensures IsOptional("a", pre) || IsOptional("b", pre) || IsOptional("rc", pre) <==>
            pre == "" || Marked("a", pre) || Marked("b", pre) || Marked("rc", pre)
    ensures IsOptional(".post", post) <==> post == "" || Marked(".post", post)
    ensures IsOptional(".dev", dev) <==> dev == "" || Marked(".dev", dev)
  {
    OptionalIff("a", pre);
    OptionalIff("b", pre);
    OptionalIff("rc", pre);
    OptionalIff(".post", post);
    OptionalIff(".dev", dev);
  }

  lemma TagNamesDiffer(v: string, w: string)
    ensures SourceTag(v) != AuthorizationTag(w)
    ensures SourceTag(v) == SourceTag(w) ==> v == w
    ensures AuthorizationTag(v) == AuthorizationTag(w) ==> v == w
  {
    assert SourceTag(v)[0] == 'v' && AuthorizationTag(w)[0] == 'p';
    assert SourceTag(v)[1..] == v && SourceTag(w)[1..] == w;
    assert AuthorizationTag(v)[6..] == v && AuthorizationTag(w)[6..] == w;
  }

  // ---------------------------------------------------------------- the verifier

  datatype TagError =
    | WrongForm | Unsafe | NotAnnotated | MissingRevision | OtherCommit | OtherAuthorization
    | NotExactSource | NotHead | UnreadableVersion | OtherVersion | Dirty
    | NotCanonical | SourceVersionDiffers | NotOnMain | NoSourceCi | PushRejected

  datatype Verified = Verified(authorizationTag: string, sourceTag: string, version: string, commit: nat)

  function VerifyReleaseTag(
      tags: Tags, checkout: Checkout, tag: string, expectedCommit: Option<nat>, expectedOid: Option<nat>)
    : Result<Verified, TagError>
  {
    if !("pypi-v" <= tag) || |tag| == 6 then Err(WrongForm)
    else if !SafeTag(tag) then Err(Unsafe)
    else
      var version := tag[6..];
      if tag !in tags || !tags[tag].TagObject? then Err(NotAnnotated)
      else if Peel(tags[tag]).None? then Err(MissingRevision)
      else
        var commit := Peel(tags[tag]).value;
        if expectedCommit.Some? && commit != expectedCommit.value then Err(OtherCommit)
        else if expectedOid.Some? && Id(tags[tag]) != expectedOid.value then Err(OtherAuthorization)
        else if SourceTag(version) !in tags || Peel(tags[SourceTag(version)]).None? then Err(MissingRevision)
        else if commit != Peel(tags[SourceTag(version)]).value then Err(NotExactSource)
        else if commit != checkout.head then Err(NotHead)
        else if checkout.version.None? then Err(UnreadableVersion)
        else if checkout.version.value != version then Err(OtherVersion)
        else if !checkout.clean then Err(Dirty)
        else Ok(Verified(tag, SourceTag(version), version, checkout.head))
  }

  /** What a verified checkout is: the annotated authorization tag and the source tag of its
      own version both identify its commit. */
  ghost predicate IsAuthorised(
      tags: Tags, checkout: Checkout, version: string, expectedCommit: Option<nat>, expectedOid: Option<nat>)
  {
    var s, a := SourceTag(version), AuthorizationTag(version);
    && version != "" && SafeTag(a)
    && checkout.clean && checkout.version == Some(version)
    && a in tags && tags[a].TagObject? && s in tags
    && Peel(tags[a]) == Peel(tags[s]) == Some(checkout.head)
    && (expectedCommit.Some? ==> expectedCommit.value == checkout.head)
    && (expectedOid.Some? ==> expectedOid.value == Id(tags[a]))
  }

  /** The verifier accepts exactly those checkouts, under exactly that tag. */
  lemma VerifiedIff(
      tags: Tags, checkout: Checkout, tag: string,
      expectedCommit: Option<nat>, expectedOid: Option<nat>, version: string)
    ensures VerifyReleaseTag(tags, checkout, tag, expectedCommit, expectedOid)
            == Ok(Verified(tag, SourceTag(version), version, checkout.head)) <==>
            tag == AuthorizationTag(version) && IsAuthorised(tags, checkout, version, expectedCommit, expectedOid)
  {
    if "pypi-v" <= tag {
      assert tag == tag[..6] + tag[6..];
      assert AuthorizationTag(tag[6..]) == tag;
    }
    if tag == AuthorizationTag(version) {
      assert tag[6..] == version && tag[..6] == "pypi-v";
      AcceptedTag(tags, checkout, version, expectedCommit, expectedOid);
    }
  }

  lemma AcceptedTag(
      tags: Tags, checkout: Checkout, version: string, expectedCommit: Option<nat>, expectedOid: Option<nat>)
    ensures VerifyReleaseTag(tags, checkout, AuthorizationTag(version), expectedCommit, expectedOid).Ok? <==>
            IsAuthorised(tags, checkout, version, expectedCommit, expectedOid)
  {
    var tag := AuthorizationTag(version);
    assert tag[6..] == version && tag[..6] == "pypi-v" && |tag| == 6 + |version|;
  }

  // ---------------------------------------------------------------- preparation

  datatype Answer =
    | Publish(tag: string, version: string, commit: nat, oid: nat)
    | Decline(already: Option<string>)
    | Refuse(error: TagError)

  /** Everything one run reads from outside the repository: the commit its CI event names,
      the versions on PyPI, the commits with a successful main CI, and the ids git will
      give to new tag objects. */
  datatype Inputs = Inputs(
    ciCommit: nat, onPyPI: set<string>, ciPassed: set<nat>, push: bool, sourceOid: nat, authorizationOid: nat)

  /** The commit a release of `version` must be built from, by the source tag if it exists. */
  function SourceCommit(history: History, tags: Tags, head: nat, version: string, ciPassed: set<nat>)
    : Result<nat, TagError>
  {
    var tag := SourceTag(version);
    if tag !in tags then Ok(head)
    else if Peel(tags[tag]).None? then Err(MissingRevision)
    else
      var commit := Peel(tags[tag]).value;
      if VersionAt(history, commit) != Some(version) then Err(SourceVersionDiffers)
      else if !IsAncestor(history, commit, head) then Err(NotOnMain)
      else if commit != head && commit !in ciPassed then Err(NoSourceCi)
      else Ok(commit)
  }

  function AuthorizationProblem(tags: Tags, version: string, commit: nat): Option<TagError> {
    var tag := AuthorizationTag(version);
    if tag !in tags then None
    else if !tags[tag].TagObject? then Some(NotAnnotated)
    else if Peel(tags[tag]).None? then Some(MissingRevision)
    else if Peel(tags[tag]).value != commit then Some(OtherCommit)
    else None
  }

  function WithTag(tags: Tags, tag: string, o: GitObject): Tags {
    if tag in tags then tags else tags[tag := o]
  }

  /** An atomic push of two references: the remote takes both or none, and never moves one. */
  predicate PushAccepted(remote: Tags, local: Tags, a: string, b: string)
    requires a in local && b in local
  {
    (a in remote ==> remote[a] == local[a]) && (b in remote ==> remote[b] == local[b])
  }

  datatype Repository = Repository(history: History, checkout: Checkout, local: Tags, remote: Tags)

  function Prepare(r: Repository, inputs: Inputs): (Repository, Answer) {
    if r.checkout.head != inputs.ciCommit then (r, Decline(None))
    else if !r.checkout.clean then (r, Refuse(Dirty))
    else if r.checkout.version.None? then (r, Refuse(UnreadableVersion))
    else
      var version := r.checkout.version.value;
      if !IsVersion(version) then (r, Refuse(NotCanonical))
      else if version in inputs.onPyPI then (r, Decline(Some(version)))
      else
        match SourceCommit(r.history, r.local, r.checkout.head, version, inputs.ciPassed)
        case Err(error) => (r, Refuse(error))
        case Ok(commit) =>
          match AuthorizationProblem(r.local, version, commit)
          case Some(error) => (r, Refuse(error))
          case None =>
            var s, a := SourceTag(version), AuthorizationTag(version);
            var tagged := WithTag(WithTag(r.local, s, TagObject(inputs.sourceOid, Commit(commit))),
                                  a, TagObject(inputs.authorizationOid, Commit(commit)));
            var answer := Publish(a, version, commit, Id(tagged[a]));
            if !inputs.push then (r.(local := tagged), answer)
            else if !PushAccepted(r.remote, tagged, s, a) then (r.(local := tagged), Refuse(PushRejected))
            else (r.(local := tagged, remote := r.remote[s := tagged[s]][a := tagged[a]]), answer)
  }

  /** The script as it runs, on a repository it changes step by step. */
  class Workspace {
    const history: History
    const checkout: Checkout
    var local: Tags
    var remote: Tags

    constructor (r: Repository)
      ensures Now() == r
    {
      history, checkout, local, remote := r.history, r.checkout, r.local, r.remote;
    }

    ghost function Now(): Repository reads this {
      Repository(history, checkout, local, remote)
    }

    method PrepareRelease(inputs: Inputs) returns (answer: Answer)
      modifies this
      ensures (Now(), answer) == Prepare(old(Now()), inputs)
    {
      var head := checkout.head;
      if head != inputs.ciCommit {
        return Decline(None);
      }
      if !checkout.clean {
        return Refuse(Dirty);
      }
      if checkout.version.None? {
        return Refuse(UnreadableVersion);
      }
      var version := checkout.version.value;
      if !IsVersion(version) {
        return Refuse(NotCanonical);
      }
      if version in inputs.onPyPI {
        return Decline(Some(version));
      }
      var sourceTag, authorizationTag := SourceTag(version), AuthorizationTag(version);
      var sourceCommit := head;
      if sourceTag in local {
        var peeled := Peel(local[sourceTag]);
        if peeled.None? {
          return Refuse(MissingRevision);
        }
        sourceCommit := peeled.value;
        if VersionAt(history, sourceCommit) != Some(version) {
          return Refuse(SourceVersionDiffers);
        }
        if !IsAncestor(history, sourceCommit, head) {
          return Refuse(NotOnMain);
        }
        if sourceCommit != head && sourceCommit !in inputs.ciPassed {
          return Refuse(NoSourceCi);
        }
      }
      if authorizationTag in local {
        if !local[authorizationTag].TagObject? {
          return Refuse(NotAnnotated);
        }
        var authorized := Peel(local[authorizationTag]);
        if authorized.None? {
          return Refuse(MissingRevision);
        }
        if authorized.value != sourceCommit {
          return Refuse(OtherCommit);
        }
      }
      TagNamesDiffer(version, version);
      var wanted := [(sourceTag, inputs.sourceOid), (authorizationTag, inputs.authorizationOid)];
      ghost var s, a := TagObject(inputs.sourceOid, Commit(sourceCommit)), TagObject(inputs.authorizationOid, Commit(sourceCommit));
      var i := 0;
      while i < |wanted|
        invariant 0 <= i <= |wanted|
        invariant remote == old(remote)
        invariant local == (if i == 0 then old(local)
                            else if i == 1 then WithTag(old(local), sourceTag, s)
                            else WithTag(WithTag(old(local), sourceTag, s), authorizationTag, a))
      {
        if wanted[i].0 !in local {
          local := local[wanted[i].0 := TagObject(wanted[i].1, Commit(sourceCommit))];
        }
        i := i + 1;
      }
      if inputs.push {
        if (sourceTag in remote && remote[sourceTag] != local[sourceTag])
           || (authorizationTag in remote && remote[authorizationTag] != local[authorizationTag]) {
          return Refuse(PushRejected);
        }
        remote := remote[sourceTag := local[sourceTag]][authorizationTag := local[authorizationTag]];
      }
      return Publish(authorizationTag, version, sourceCommit, Id(local[authorizationTag]));
    }
  }

  /** The recovery path: reads only. */
  function PrepareManual(history: History, tags: Tags, head: nat, tag: string, ciPassed: set<nat>): Answer {
    if !IsManualTag(tag) then Refuse(WrongForm)
    else if tag !in tags || !tags[tag].TagObject? then Refuse(NotAnnotated)
    else if Peel(tags[tag]).None? then Refuse(MissingRevision)
    else
      var commit, version := Peel(tags[tag]).value, tag[6..];
      if SourceTag(version) !in tags || Peel(tags[SourceTag(version)]).None? then Refuse(MissingRevision)
      else if Peel(tags[SourceTag(version)]).value != commit then Refuse(NotExactSource)
      else if VersionAt(history, commit) != Some(version) then Refuse(OtherVersion)
      else if !IsAncestor(history, commit, head) then Refuse(NotOnMain)
      else if commit !in ciPassed then Refuse(NoSourceCi)
      else Publish(tag, version, commit, Id(tags[tag]))
  }

  // ---------------------------------------------------------------- what an answer guarantees

  /** A clean checkout of one commit. */
  function CleanCheckout(history: History, commit: nat): Checkout {
    Checkout(commit, true, VersionAt(history, commit))
  }

  ghost predicate VerifiesFor(history: History, tags: Tags, answer: Answer)
    requires answer.Publish?
  {
    VerifyReleaseTag(tags, CleanCheckout(history, answer.commit), answer.tag,
                     Some(answer.commit), Some(answer.oid))
    == Ok(Verified(answer.tag, SourceTag(answer.version), answer.version, answer.commit))
  }

  lemma VerifierAccepts(history: History, tags: Tags, v: string, commit: nat)
    requires v != "" && SafeTag(AuthorizationTag(v))
    requires AuthorizationTag(v) in tags && tags[AuthorizationTag(v)].TagObject?
    requires SourceTag(v) in tags && Peel(tags[SourceTag(v)]) == Peel(tags[AuthorizationTag(v)]) == Some(commit)
    requires VersionAt(history, commit) == Some(v)
    ensures VerifiesFor(history, tags, Publish(AuthorizationTag(v), v, commit, Id(tags[AuthorizationTag(v)])))
  {
    assert AuthorizationTag(v)[6..] == v && AuthorizationTag(v)[..6] == "pypi-v";
  }

  /** The commit `version` is released from may be `commit`: the head when there is no source
      tag, else what the source tag identifies, provided it carries the version, is on main
      and has its own CI. */
  ghost predicate MayRelease(r: Repository, inputs: Inputs, version: string, commit: nat) {
    var s, a, head := SourceTag(version), AuthorizationTag(version), r.checkout.head;
    && (if s !in r.local then commit == head
        else && Peel(r.local[s]) == Some(commit)
             && VersionAt(r.history, commit) == Some(version)
             && IsAncestor(r.history, commit, head)
             && (commit == head || commit in inputs.ciPassed))
    && (a in r.local ==> r.local[a].TagObject? && Peel(r.local[a]) == Some(commit))
  }

  /** The atomic push moves nothing: each of the version's tags is new to the remote, or is
      there as it is here. A tag that is missing here is about to be created for `commit`. */
  ghost predicate PushMovesNothing(r: Repository, inputs: Inputs, version: string, commit: nat) {
    var s, a := SourceTag(version), AuthorizationTag(version);
    && (s in r.remote ==>
          r.remote[s] == if s in r.local then r.local[s] else TagObject(inputs.sourceOid, Commit(commit)))
    && (a in r.remote ==>
          r.remote[a] == if a in r.local then r.local[a] else TagObject(inputs.authorizationOid, Commit(commit)))
  }

  /** Preparation answers publish for a version and commit exactly when the tested commit is
      still main's head, the checkout is clean and canonical, the version is new to PyPI, the
      existing tags allow that commit and the push moves nothing. */
  lemma PublishesIff(r: Repository, inputs: Inputs, version: string, commit: nat)
    ensures
      var answer := Prepare(r, inputs).1;
      (answer.Publish? && answer.version == version && answer.commit == commit) <==>
        && r.checkout.head == inputs.ciCommit && r.checkout.clean
        && r.checkout.version == Some(version) && IsVersion(version) && version !in inputs.onPyPI
        && MayRelease(r, inputs, version, commit)
        && (inputs.push ==> PushMovesNothing(r, inputs, version, commit))
  {
    TagNamesDiffer(version, version);
    if r.checkout.version.Some? {
      TagNamesDiffer(r.checkout.version.value, r.checkout.version.value);
    }
  }

  /** A run declines, rather than refuses, exactly when main has advanced past the tested commit
      or, on a clean canonical checkout, when PyPI has the version; it then changes nothing. It
      changes tags only when it publishes or when the push itself is rejected. */
  lemma DeclinesIff(r: Repository, inputs: Inputs, version: string)
    ensures
      var (after, answer) := Prepare(r, inputs);
      && (answer == Decline(None) <==> r.checkout.head != inputs.ciCommit)
      && (answer == Decline(Some(version)) <==>
            && r.checkout.head == inputs.ciCommit && r.checkout.clean
            && r.checkout.version == Some(version) && IsVersion(version) && version in inputs.onPyPI)
      && (answer.Publish? || answer == Refuse(PushRejected) || after == r)
      && (answer == Refuse(PushRejected) ==> after.remote == r.remote && inputs.push)
  {}

  /** What the two tags of a published version look like after the run. */
  lemma PublishedTags(r: Repository, inputs: Inputs)
    requires Honest(r.history, r.checkout)
    requires Prepare(r, inputs).1.Publish?
    ensures var (after, answer) := Prepare(r, inputs);
            var s, a := SourceTag(answer.version), AuthorizationTag(answer.version);
            && answer.tag == a && IsVersion(answer.version)
            && a in after.local && after.local[a].TagObject? && answer.oid == Id(after.local[a])
            && s in after.local && Peel(after.local[s]) == Peel(after.local[a]) == Some(answer.commit)
            && VersionAt(r.history, answer.commit) == Some(answer.version)
            && IsAncestor(r.history, answer.commit, r.checkout.head)
            && (answer.commit == r.checkout.head || answer.commit in inputs.ciPassed)
            && (inputs.push ==> s in after.remote && a in after.remote
                                && after.remote[s] == after.local[s] && after.remote[a] == after.local[a])
  {
    var v := r.checkout.version.value;
    TagNamesDiffer(v, v);
    var commit := SourceCommit(r.history, r.local, r.checkout.head, v, inputs.ciPassed).value;
    assert Prepare(r, inputs).1.commit == commit && VersionAt(r.history, commit) == Some(v);
  }

  /** Whenever preparation answers publish, the verifier accepts a clean checkout of the
      answered commit with the answered commit and authorization id, with the local tags
      and, after a push, with the remote's. */
  lemma PublishedVerifies(r: Repository, inputs: Inputs)
    requires Honest(r.history, r.checkout)
    requires Prepare(r, inputs).1.Publish?
    ensures var (after, answer) := Prepare(r, inputs);
            && VerifiesFor(r.history, after.local, answer)
            && (inputs.push ==> VerifiesFor(r.history, after.remote, answer))
            && IsAncestor(r.history, answer.commit, r.checkout.head)
            && (answer.commit == r.checkout.head || answer.commit in inputs.ciPassed)
  {
    var (after, answer) := Prepare(r, inputs);
    PublishedTags(r, inputs);
    VersionIsSafe(answer.version);
    VerifierAccepts(r.history, after.local, answer.version, answer.commit);
    if inputs.push {
      VerifierAccepts(r.history, after.remote, answer.version, answer.commit);
    }
  }

  /** The manual path gives the same guarantee. */
  lemma ManualVerifies(history: History, tags: Tags, head: nat, tag: string, ciPassed: set<nat>)
    requires PrepareManual(history, tags, head, tag, ciPassed).Publish?
    ensures VerifiesFor(history, tags, PrepareManual(history, tags, head, tag, ciPassed))
    ensures IsAncestor(history, PrepareManual(history, tags, head, tag, ciPassed).commit, head)
  {}

  ghost predicate Extends(before: Tags, after: Tags) {
    forall t | t in before :: t in after && after[t] == before[t]
  }

  /** Both tags of one version, when both exist, peel to the same commit. */
  ghost predicate Agree(tags: Tags, version: string) {
    var s, a := SourceTag(version), AuthorizationTag(version);
    s in tags && a in tags ==> Peel(tags[s]) == Peel(tags[a])
  }

  /** Whatever a run answers, no existing tag moves, here or on the remote, and versions whose
      tags agreed still do. */
  lemma {:induction false} TagsNeverMove(r: Repository, inputs: Inputs, version: string)
    ensures var after := Prepare(r, inputs).0;
            && Extends(r.local, after.local)
            && Extends(r.remote, after.remote)
            && (Agree(r.local, version) ==> Agree(after.local, version))
            && (Agree(r.local, version) && Agree(r.remote, version) ==> Agree(after.remote, version))
  {
    ExistingTagsStay(r, inputs);
    AgreementStays(r, inputs, version);
  }

  lemma ExistingTagsStay(r: Repository, inputs: Inputs)
    ensures Extends(r.local, Prepare(r, inputs).0.local)
    ensures Extends(r.remote, Prepare(r, inputs).0.remote)
  {
    if r.checkout.version.Some? {
      TagNamesDiffer(r.checkout.version.value, r.checkout.version.value);
    }
  }

  lemma AgreementStays(r: Repository, inputs: Inputs, version: string)
    ensures var after := Prepare(r, inputs).0;
            && (Agree(r.local, version) ==> Agree(after.local, version))
            && (Agree(r.local, version) && Agree(r.remote, version) ==> Agree(after.remote, version))
  {
    if r.checkout.version.Some? {
      var v := r.checkout.version.value;
      TagNamesDiffer(v, v);
      TagNamesDiffer(v, version);
      TagNamesDiffer(version, v);
    }
  }

  // ---------------------------------------------------------------- many runs

  /** One workflow run: main is at some commit, the runner clones the remote, and the process
      may die after tagging and before the push takes effect. */
  datatype Attempt = Attempt(checkout: Checkout, inputs: Inputs, dies: bool)

  function RunOnce(history: History, remote: Tags, attempt: Attempt): (Tags, Answer) {
    var inputs := attempt.inputs.(push := !attempt.dies);
    var (after, answer) := Prepare(Repository(history, attempt.checkout, remote, remote), inputs);
    (after.remote, if attempt.dies then Decline(None) else answer)
  }

  function RemoteAfter(history: History, remote: Tags, attempts: seq<Attempt>): Tags
    decreases |attempts|
  {
    if attempts == [] then remote
    else RemoteAfter(history, RunOnce(history, remote, attempts[0]).0, attempts[1..])
  }

  /** Over any sequence of runs, at whatever commits main has reached, with any CI and PyPI
      answers and any process deaths: no remote tag ever moves and agreement is kept. */
  lemma {:induction false} RunsNeverMoveTags(history: History, remote: Tags, attempts: seq<Attempt>, version: string)
    requires Agree(remote, version)
    ensures Extends(remote, RemoteAfter(history, remote, attempts))
    ensures Agree(RemoteAfter(history, remote, attempts), version)
    decreases |attempts|
  {
    if attempts != [] {
      var attempt := attempts[0];
      TagsNeverMove(Repository(history, attempt.checkout, remote, remote),
                    attempt.inputs.(push := !attempt.dies), version);
      RunsNeverMoveTags(history, RunOnce(history, remote, attempt).0, attempts[1..], version);
    }
  }

  /** A publish answer fixes its version for good: every later publish answer for the same
      version, automatic or manual, after any runs in between, names the same commit and
      the same authorization object. */
  lemma {:induction false} PublishedOnce(
      history: History, remote: Tags, first: Attempt, between: seq<Attempt>, later: Attempt)
    requires forall a | a in [first] + [later] :: Honest(history, a.checkout)
    requires var (after, answer) := RunOnce(history, remote, first);
             var answer' := RunOnce(history, RemoteAfter(history, after, between), later).1;
             answer.Publish? && answer'.Publish? && answer.version == answer'.version
    ensures var (after, answer) := RunOnce(history, remote, first);
            RunOnce(history, RemoteAfter(history, after, between), later).1 == answer
  {
    var (after, answer) := RunOnce(history, remote, first);
    assert first in [first] + [later] && later in [first] + [later];
    PublishedStands(history, remote, first, between);
    var now := RemoteAfter(history, after, between);
    PublishedTags(Repository(history, later.checkout, now, now), later.inputs.(push := true));
    ExistingTagsStay(Repository(history, later.checkout, now, now), later.inputs.(push := true));
  }

  /** The tags behind a publish answer, as they are on the remote from then on. */
  ghost predicate Stands(history: History, tags: Tags, answer: Answer)
    requires answer.Publish?
  {
    var s, a := SourceTag(answer.version), AuthorizationTag(answer.version);
    && IsVersion(answer.version) && answer.tag == a
    && s in tags && a in tags && tags[a].TagObject? && answer.oid == Id(tags[a])
    && Peel(tags[s]) == Peel(tags[a]) == Some(answer.commit)
    && VersionAt(history, answer.commit) == Some(answer.version)
  }

  lemma PublishedStands(history: History, remote: Tags, first: Attempt, between: seq<Attempt>)
    requires Honest(history, first.checkout) && RunOnce(history, remote, first).1.Publish?
    ensures var (after, answer) := RunOnce(history, remote, first);
            && Stands(history, after, answer) && Stands(history, RemoteAfter(history, after, between), answer)
  {
    var (after, answer) := RunOnce(history, remote, first);
    PublishedTags(Repository(history, first.checkout, remote, remote), first.inputs.(push := true));
    TagNamesDiffer(answer.version, answer.version);
    FixedTags(history, after, between, answer.version);
  }

  lemma {:induction false} RunsFollowRuns(history: History, remote: Tags, first: seq<Attempt>, rest: seq<Attempt>)
    ensures RemoteAfter(history, remote, first + rest) == RemoteAfter(history, RemoteAfter(history, remote, first), rest)
    decreases |first|
  {
    if first == [] {
      assert first + rest == rest;
    } else {
      assert (first + rest)[0] == first[0] && (first + rest)[1..] == first[1..] + rest;
      RunsFollowRuns(history, RunOnce(history, remote, first[0]).0, first[1..], rest);
    }
  }

  /** In any sequence of runs, what one of them answers to publish is on the remote at the end. */
  lemma PublishedLasts(history: History, remote: Tags, attempts: seq<Attempt>, i: nat)
    requires i < |attempts| && Honest(history, attempts[i].checkout)
    requires RunOnce(history, RemoteAfter(history, remote, attempts[..i]), attempts[i]).1.Publish?
    ensures Stands(history, RemoteAfter(history, remote, attempts),
                   RunOnce(history, RemoteAfter(history, remote, attempts[..i]), attempts[i]).1)
  {
    var before := RemoteAfter(history, remote, attempts[..i]);
    PublishedStands(history, before, attempts[i], attempts[i + 1..]);
    RunsFollowRuns(history, remote, attempts[..i], attempts[i..]);
    assert attempts == attempts[..i] + attempts[i..];
    assert attempts[i..][0] == attempts[i] && attempts[i..][1..] == attempts[i + 1..];
  }

  /** Publishing again is possible for as long as PyPI lacks the version: after a publish answer
      and any runs, a later run answers publish for the version exactly when its tested head is
      current and clean, still carries the version, and descends from the published commit with
      that commit's own CI. By PublishedOnce it is the same answer. */
  lemma RepublishesIff(
      history: History, remote: Tags, first: Attempt, between: seq<Attempt>, later: Attempt)
    requires Honest(history, first.checkout) && RunOnce(history, remote, first).1.Publish? && !later.dies
    ensures var (after, answer) := RunOnce(history, remote, first);
            var again := RunOnce(history, RemoteAfter(history, after, between), later).1;
            var head, inputs := later.checkout.head, later.inputs;
            (again.Publish? && again.version == answer.version && again.commit == answer.commit) <==>
              && head == inputs.ciCommit && later.checkout.clean
              && later.checkout.version == Some(answer.version) && answer.version !in inputs.onPyPI
              && IsAncestor(history, answer.commit, head)
              && (answer.commit == head || answer.commit in inputs.ciPassed)
  {
    var (after, answer) := RunOnce(history, remote, first);
    PublishedStands(history, remote, first, between);
    var now := RemoteAfter(history, after, between);
    PublishesIff(Repository(history, later.checkout, now, now), later.inputs.(push := true), answer.version, answer.commit);
  }

  /** A published version stays publishable while main advances: any later run on a clean current
      head that descends from the head of the first and still carries the version, with the
      commit's own CI, publishes the same commit again, unless PyPI has it. */
  lemma AdvancingKeepsPublishable(
      history: History, remote: Tags, first: Attempt, between: seq<Attempt>, later: Attempt)
    requires Honest(history, first.checkout) && RunOnce(history, remote, first).1.Publish? && !later.dies
    requires later.checkout.head == later.inputs.ciCommit && later.checkout.clean
    requires IsAncestor(history, first.checkout.head, later.checkout.head)
    requires
      var answer := RunOnce(history, remote, first).1;
      && later.checkout.version == Some(answer.version) && answer.version !in later.inputs.onPyPI
      && answer.commit in later.inputs.ciPassed
    ensures
      var (after, answer) := RunOnce(history, remote, first);
      var again := RunOnce(history, RemoteAfter(history, after, between), later).1;
      again.Publish? && again.version == answer.version && again.commit == answer.commit
  {
    var (after, answer) := RunOnce(history, remote, first);
    PublishedTags(Repository(history, first.checkout, remote, remote), first.inputs.(push := true));
    AncestorsStay(history, answer.commit, first.checkout.head, later.checkout.head);
    RepublishesIff(history, remote, first, between, later);
  }

  /** What the verifier has accepted on the remote's tags it accepts for good, whatever runs
      follow. */
  lemma VerifiedStaysVerified(
      history: History, remote: Tags, attempts: seq<Attempt>, checkout: Checkout, tag: string,
      expectedCommit: Option<nat>, expectedOid: Option<nat>)
    requires VerifyReleaseTag(remote, checkout, tag, expectedCommit, expectedOid).Ok?
    ensures VerifyReleaseTag(RemoteAfter(history, remote, attempts), checkout, tag, expectedCommit, expectedOid)
            == VerifyReleaseTag(remote, checkout, tag, expectedCommit, expectedOid)
  {
    var verified := VerifyReleaseTag(remote, checkout, tag, expectedCommit, expectedOid).value;
    var version := verified.version;
    VerifiedIff(remote, checkout, tag, expectedCommit, expectedOid, version);
    RunsNeverMoveTags(history, remote, attempts, version);
    VerifiedIff(RemoteAfter(history, remote, attempts), checkout, tag, expectedCommit, expectedOid, version);
  }

  lemma FixedTags(history: History, after: Tags, between: seq<Attempt>, v: string)
    requires Agree(after, v)
    ensures Extends(after, RemoteAfter(history, after, between))
  {
    RunsNeverMoveTags(history, after, between, v);
  }

  /** The recovery path repeats the automatic answer exactly when the commit is on main with its
      own CI, after any runs, and the verifier then accepts it on the remote's tags. */
  lemma ManualAgreesWithAutomatic(
      history: History, remote: Tags, first: Attempt, between: seq<Attempt>, head: nat, ciPassed: set<nat>)
    requires Honest(history, first.checkout)
    requires RunOnce(history, remote, first).1.Publish?
    ensures var (after, answer) := RunOnce(history, remote, first);
            var now := RemoteAfter(history, after, between);
            && (PrepareManual(history, now, head, answer.tag, ciPassed) == answer <==>
                answer.commit in ciPassed && IsAncestor(history, answer.commit, head))
            && (PrepareManual(history, now, head, answer.tag, ciPassed) == answer ==> VerifiesFor(history, now, answer))
  {
    var (after, answer) := RunOnce(history, remote, first);
    PublishedStands(history, remote, first, between);
    var now := RemoteAfter(history, after, between);
    VersionIsSafe(answer.version);
    assert answer.tag[6..] == answer.version;
    if PrepareManual(history, now, head, answer.tag, ciPassed) == answer {
      ManualVerifies(history, now, head, answer.tag, ciPassed);
    }
  }
}
