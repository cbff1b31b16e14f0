/** Publishing one verified release on GitHub (scripts/publish_github_release.py): draft,
    upload, check, publish, with the process possibly dying between any two mutating
    commands and started again later. */
module GithubRelease {
  import opened Wrappers

  /** An uploaded file as GitHub lists it; `uploaded` says its state is "uploaded". */
  datatype Asset = Asset(name: string, digest: string, size: nat, uploaded: bool)

  /** `notes` is the body without carriage returns and outer blanks, as it is compared. */
  datatype Release = Release(
    id: nat, tag: string, draft: bool, prerelease: bool, title: string, notes: string, assets: seq<Asset>)

  /** Everything fixed by the verified source and artifacts. `files` are the artifacts and
      then the checksum list, in upload order, each as GitHub will list it. */
  datatype Bundle = Bundle(tag: string, title: string, notes: string, prerelease: bool, files: seq<Asset>)

  datatype Command = Create(bundle: Bundle) | Upload(tag: string, file: Asset) | Undraft(tag: string)

  datatype PublishError =
    | Ambiguous | DraftMissing | OtherClassification | OtherNotes | AssetsDiffer | StillDraft

  /** The positions of the releases with one tag, in listing order. */
  function Matches(releases: seq<Release>, tag: string): (found: seq<nat>)
    ensures forall i | 0 <= i < |found| :: found[i] < |releases| && releases[found[i]].tag == tag
  {
    if releases == [] then []
    else
      var last := |releases| - 1;
      Matches(releases[..last], tag) + if releases[last].tag == tag then [last] else []
  }

  lemma {:induction false} MatchesAreExact(releases: seq<Release>, tag: string)
    ensures forall n | 0 <= n < |releases| && releases[n].tag == tag :: n in Matches(releases, tag)
    ensures forall i, j | 0 <= i < j < |Matches(releases, tag)| ::
              Matches(releases, tag)[i] < Matches(releases, tag)[j]
  {
    if releases != [] {
      var last := |releases| - 1;
      MatchesAreExact(releases[..last], tag);
      var before := Matches(releases[..last], tag);
      assert forall i | 0 <= i < |before| :: before[i] in before && before[i] < last;
      forall n | 0 <= n < |releases| && releases[n].tag == tag ensures n in Matches(releases, tag) {
        if n < last {
          assert releases[..last][n] == releases[n];
        }
      }
    }
  }

  predicate Distinct(assets: seq<Asset>) {
    forall i, j | 0 <= i < j < |assets| :: assets[i].name != assets[j].name
  }

  predicate Has(assets: seq<Asset>, name: string) {
    exists a | a in assets :: a.name == name
  }

  /** Files of one directory and the checksum list have different names. */
  predicate WellFormed(b: Bundle) {
    Distinct(b.files) && forall f | f in b.files :: f.uploaded
  }

  /** The asset check: no duplicates, nothing unexpected, every digest, size and state right,
      and, when asked, nothing missing. */
  predicate ValidAssets(r: Release, b: Bundle, complete: bool) {
    && Distinct(r.assets)
    && (forall a | a in r.assets :: a in b.files)
    && (complete ==> forall f | f in b.files :: Has(r.assets, f.name))
  }

  /** What a reader of the published release finds: the files, each exactly once. */
  ghost predicate ExactAssets(r: Release, b: Bundle) {
    Distinct(r.assets) && forall a :: a in r.assets <==> a in b.files
  }

  lemma SameNameSameFile(files: seq<Asset>, a: Asset, f: Asset)
    requires Distinct(files) && a in files && f in files && a.name == f.name
    ensures a == f
  {}

  lemma CompleteIsExact(r: Release, b: Bundle)
    requires WellFormed(b)
    ensures ValidAssets(r, b, true) <==> ExactAssets(r, b)
  {
    if ValidAssets(r, b, true) {
      forall f | f in b.files ensures f in r.assets {
        var a :| a in r.assets && a.name == f.name;
        SameNameSameFile(b.files, a, f);
      }
    }
  }

  predicate SameFace(r: Release, b: Bundle) {
    r.tag == b.tag && r.prerelease == b.prerelease && r.title == b.title && r.notes == b.notes
  }

  // ---------------------------------------------------------------- commands

  function Apply(releases: seq<Release>, c: Command): seq<Release> {
    match c
    case Create(b) => releases + [Release(|releases|, b.tag, true, b.prerelease, b.title, b.notes, [])]
    case Upload(tag, file) =>
      var found := Matches(releases, tag);
      if |found| == 1 then
        releases[found[0] := releases[found[0]].(assets := releases[found[0]].assets + [file])]
      else releases
    case Undraft(tag) =>
      var found := Matches(releases, tag);
      if |found| == 1 then
        releases[found[0] := releases[found[0]].(draft := false)]
      else releases
  }

  function Execute(releases: seq<Release>, commands: seq<Command>): seq<Release>
    decreases |commands|
  {
    if commands == [] then releases else Execute(Apply(releases, commands[0]), commands[1..])
  }

  function Missing(files: seq<Asset>, assets: seq<Asset>): seq<Asset> {
    if files == [] then []
    else (if Has(assets, files[0].name) then [] else [files[0]]) + Missing(files[1..], assets)
  }

  function Uploads(tag: string, files: seq<Asset>): seq<Command> {
    seq(|files|, i requires 0 <= i < |files| => Upload(tag, files[i]))
  }

  /** The mutating commands a run intends, from what it first finds. */
  function Plan(releases: seq<Release>, b: Bundle): seq<Command> {
    var found := Matches(releases, b.tag);
    if |found| > 1 then []
    else if |found| == 0 then [Create(b)] + Uploads(b.tag, b.files) + [Undraft(b.tag)]
    else
      var r := releases[found[0]];
      if !SameFace(r, b) || !ValidAssets(r, b, !r.draft) || !r.draft then []
      else Uploads(b.tag, Missing(b.files, r.assets)) + [Undraft(b.tag)]
  }

  /** A run that dies after `cut` mutating commands. */
  function Attempt(releases: seq<Release>, b: Bundle, cut: nat): seq<Release> {
    var plan := Plan(releases, b);
    Execute(releases, plan[..Min(cut, |plan|)])
  }

  // ---------------------------------------------------------------- our one release

  /** The release of this tag is the one at `n`, and only that one. */
  ghost predicate Ours(releases: seq<Release>, b: Bundle, n: nat) {
    && n < |releases|
    && releases[n].tag == b.tag
    && forall i | 0 <= i < |releases| && releases[i].tag == b.tag :: i == n
  }

  lemma {:induction false} OursIsFound(releases: seq<Release>, b: Bundle, n: nat)
    ensures Ours(releases, b, n) <==> Matches(releases, b.tag) == [n]
  {
    MatchesAreExact(releases, b.tag);
    var found := Matches(releases, b.tag);
    if Ours(releases, b, n) {
      assert n in found;
      assert found[0] == n == found[|found| - 1];
    }
    if found == [n] {
      assert releases[found[0]].tag == b.tag;
      forall i | 0 <= i < |releases| && releases[i].tag == b.tag ensures i == n {
        assert i in found;
      }
    }
  }

  /** Our commands write our release and no other. */
  lemma WriteOurs(releases: seq<Release>, b: Bundle, n: nat, file: Asset)
    requires Ours(releases, b, n)
    ensures var r := releases[n];
            && Apply(releases, Upload(b.tag, file)) == releases[n := r.(assets := r.assets + [file])]
            && Ours(releases[n := r.(assets := r.assets + [file])], b, n)
            && Apply(releases, Undraft(b.tag)) == releases[n := r.(draft := false)]
            && Ours(releases[n := r.(draft := false)], b, n)
  {
    OursIsFound(releases, b, n);
  }

  ghost predicate Others(before: seq<Release>, after: seq<Release>, n: nat) {
    |after| == |before| && forall i | 0 <= i < |before| && i != n :: after[i] == before[i]
  }

  /** Uploading a list of files to our draft appends them and nothing else. */
  lemma {:induction false} UploadsAppend(releases: seq<Release>, b: Bundle, n: nat, files: seq<Asset>)
    requires Ours(releases, b, n)
    ensures var after := Execute(releases, Uploads(b.tag, files));
            && Ours(after, b, n) && Others(releases, after, n)
            && after[n] == releases[n].(assets := releases[n].assets + files)
    decreases |files|
  {
    var commands := Uploads(b.tag, files);
    if files == [] {
      assert commands == [] && releases[n].assets + [] == releases[n].assets;
    } else {
      WriteOurs(releases, b, n, files[0]);
      var next := Apply(releases, commands[0]);
      assert commands[1..] == Uploads(b.tag, files[1..]);
      UploadsAppend(next, b, n, files[1..]);
      assert (releases[n].assets + [files[0]]) + files[1..] == releases[n].assets + files;
    }
  }

  lemma {:induction false} ExecuteSplit(releases: seq<Release>, left: seq<Command>, right: seq<Command>)
    ensures Execute(releases, left + right) == Execute(Execute(releases, left), right)
    decreases |left|
  {
    if left == [] {
      assert left + right == right;
    } else {
      assert (left + right)[1..] == left[1..] + right;
      ExecuteSplit(Apply(releases, left[0]), left[1..], right);
    }
  }

  lemma {:induction false} MissingIsExact(files: seq<Asset>, assets: seq<Asset>)
    ensures forall f :: f in Missing(files, assets) <==> f in files && !Has(assets, f.name)
  {
    if files != [] {
      MissingIsExact(files[1..], assets);
      assert files == [files[0]] + files[1..];
    }
  }

  lemma {:induction false} MissingIsDistinct(files: seq<Asset>, assets: seq<Asset>)
    requires Distinct(files)
    ensures Distinct(Missing(files, assets))
  {
    if files != [] {
      MissingIsDistinct(files[1..], assets);
      MissingIsExact(files[1..], assets);
      var rest := Missing(files[1..], assets);
      forall f | f in rest ensures f.name != files[0].name {
        var k :| 0 <= k < |files| - 1 && files[1..][k] == f;
        assert files[k + 1] == f;
      }
      DistinctAppend([files[0]], rest);
    }
  }

  lemma DistinctAppend(s: seq<Asset>, t: seq<Asset>)
    requires Distinct(s) && Distinct(t)
    requires forall f, g | f in s && g in t :: f.name != g.name
    ensures Distinct(s + t)
  {
    forall i, j | 0 <= i < j < |s + t| ensures (s + t)[i].name != (s + t)[j].name {
      if i < |s| <= j {
        assert (s + t)[i] in s && (s + t)[j] in t;
      }
    }
  }

  /** Any first part of the missing files leaves a valid draft; all of them a complete one. */
  lemma {:induction false} FilledIsValid(r: Release, b: Bundle, k: nat)
    requires WellFormed(b) && ValidAssets(r, b, false)
    requires k <= |Missing(b.files, r.assets)|
    ensures var missing := Missing(b.files, r.assets);
            var filled := r.(assets := r.assets + missing[..k]);
            ValidAssets(filled, b, false) && (k == |missing| ==> ValidAssets(filled, b, true))
  {
    var missing := Missing(b.files, r.assets);
    var filled := r.(assets := r.assets + missing[..k]);
    MissingIsExact(b.files, r.assets);
    MissingIsDistinct(b.files, r.assets);
    assert forall f | f in missing[..k] :: f in missing;
    DistinctAppend(r.assets, missing[..k]);
    if k == |missing| {
      forall f | f in b.files ensures Has(filled.assets, f.name) {
        if Has(r.assets, f.name) {
          var a :| a in r.assets && a.name == f.name;
          assert a in filled.assets;
        } else {
          assert f in missing[..k] && f in filled.assets;
        }
      }
    }
  }

  /** As long as an upload is outstanding the files are not complete. */
  lemma PartlyFilledIsIncomplete(r: Release, b: Bundle, k: nat)
    requires WellFormed(b) && k < |Missing(b.files, r.assets)|
    ensures !ValidAssets(r.(assets := r.assets + Missing(b.files, r.assets)[..k]), b, true)
  {
    var missing := Missing(b.files, r.assets);
    var f := missing[k];
    MissingIsExact(b.files, r.assets);
    MissingIsDistinct(b.files, r.assets);
    assert f in missing;
    forall a | a in r.assets + missing[..k] ensures a.name != f.name {
      if a in missing[..k] {
        var i :| 0 <= i < k && missing[i] == a;
      }
    }
  }

  // ---------------------------------------------------------------- one attempt

  /** What happens to a draft of ours when `k` of the upload and publish commands get through. */
  function Advanced(r: Release, todo: seq<Asset>, k: nat): Release {
    r.(assets := r.assets + todo[..Min(k, |todo|)], draft := k <= |todo|)
  }

  function Finish(tag: string, todo: seq<Asset>): seq<Command> {
    Uploads(tag, todo) + [Undraft(tag)]
  }

  lemma {:induction false} FinishAdvances(releases: seq<Release>, b: Bundle, n: nat, todo: seq<Asset>, k: nat)
    requires Ours(releases, b, n) && releases[n].draft
    ensures var plan := Finish(b.tag, todo);
            var after := Execute(releases, plan[..Min(k, |plan|)]);
            && Ours(after, b, n)
            && after == releases[n := Advanced(releases[n], todo, k)]
  {
    var plan := Finish(b.tag, todo);
    var some := todo[..Min(k, |todo|)];
    UploadsAppend(releases, b, n, some);
    var filled := Execute(releases, Uploads(b.tag, some));
    if k <= |todo| {
      assert plan[..Min(k, |plan|)] == Uploads(b.tag, some);
      assert filled == releases[n := Advanced(releases[n], todo, k)];
    } else {
      assert some == todo && plan[..Min(k, |plan|)] == Uploads(b.tag, todo) + [Undraft(b.tag)];
      PublishFilled(releases, b, n, todo, filled);
    }
  }

  lemma PublishFilled(releases: seq<Release>, b: Bundle, n: nat, todo: seq<Asset>, filled: seq<Release>)
    requires n < |releases| && Ours(filled, b, n) && Others(releases, filled, n)
    requires filled == Execute(releases, Uploads(b.tag, todo))
    requires filled[n] == releases[n].(assets := releases[n].assets + todo)
    ensures var after := releases[n := releases[n].(assets := releases[n].assets + todo, draft := false)];
            Execute(releases, Uploads(b.tag, todo) + [Undraft(b.tag)]) == after && Ours(after, b, n)
  {
    var after := releases[n := releases[n].(assets := releases[n].assets + todo, draft := false)];
    ExecuteSplit(releases, Uploads(b.tag, todo), [Undraft(b.tag)]);
    WriteOurs(filled, b, n, Asset("", "", 0, true));
    assert [Undraft(b.tag)][1..] == [];
    assert Execute(filled, [Undraft(b.tag)]) == Apply(filled, Undraft(b.tag));
    assert filled[n := filled[n].(draft := false)] == after;
  }

  /** A release this script may go on with: absent, a draft of ours with only right assets,
      or published complete. */
  ghost predicate Acceptable(releases: seq<Release>, b: Bundle) {
    || (forall i | 0 <= i < |releases| :: releases[i].tag != b.tag)
    || exists n: nat :: AcceptableAt(releases, b, n)
  }

  ghost predicate AcceptableAt(releases: seq<Release>, b: Bundle, n: nat) {
    Ours(releases, b, n) && SameFace(releases[n], b) && ValidAssets(releases[n], b, !releases[n].draft)
  }

  ghost predicate PublishedAt(releases: seq<Release>, b: Bundle, n: nat) {
    Ours(releases, b, n) && !releases[n].draft && SameFace(releases[n], b) && ExactAssets(releases[n], b)
  }

  lemma {:induction false} NoneIsFound(releases: seq<Release>, b: Bundle)
    ensures Matches(releases, b.tag) == [] <==> forall i | 0 <= i < |releases| :: releases[i].tag != b.tag
  {
    MatchesAreExact(releases, b.tag);
    if exists i | 0 <= i < |releases| :: releases[i].tag == b.tag {
      var i :| 0 <= i < |releases| && releases[i].tag == b.tag;
      assert i in Matches(releases, b.tag);
    }
    if Matches(releases, b.tag) != [] {
      assert Matches(releases, b.tag)[0] in Matches(releases, b.tag);
    }
  }

  lemma {:induction false} OneIsFound(releases: seq<Release>, b: Bundle)
    ensures |Matches(releases, b.tag)| == 1 <==> exists n: nat :: Ours(releases, b, n)
    ensures |Matches(releases, b.tag)| == 1 ==> Ours(releases, b, Matches(releases, b.tag)[0])
  {
    if |Matches(releases, b.tag)| == 1 {
      OursIsFound(releases, b, Matches(releases, b.tag)[0]);
    }
    if n: nat :| Ours(releases, b, n) {
      OursIsFound(releases, b, n);
    }
  }

  lemma {:induction false} NothingMissingFromEmpty(files: seq<Asset>)
    ensures Missing(files, []) == files
  {
    if files != [] {
      NothingMissingFromEmpty(files[1..]);
    }
  }

  function Fresh(releases: seq<Release>, b: Bundle): Release {
    Release(|releases|, b.tag, true, b.prerelease, b.title, b.notes, [])
  }

  /** The one release found is a draft this script goes on with. */
  predicate Resumable(releases: seq<Release>, b: Bundle) {
    var found := Matches(releases, b.tag);
    |found| == 1 && releases[found[0]].draft && SameFace(releases[found[0]], b) && ValidAssets(releases[found[0]], b, false)
  }

  lemma {:induction false} AttemptFromNothing(releases: seq<Release>, b: Bundle, cut: nat)
    requires Matches(releases, b.tag) == [] && cut > 0
    ensures var after := Attempt(releases, b, cut);
            && Ours(after, b, |releases|)
            && after == releases + [Advanced(Fresh(releases, b), b.files, cut - 1)]
  {
    var rest := Finish(b.tag, b.files);
    var created := releases + [Fresh(releases, b)];
    CreatedThen(releases, b, rest[..Min(cut - 1, |rest|)]);
    FirstIsCreation(releases, b, cut);
    NoneIsFound(releases, b);
    FinishAdvances(created, b, |releases|, b.files, cut - 1);
    assert created[|releases| := Advanced(Fresh(releases, b), b.files, cut - 1)]
           == releases + [Advanced(Fresh(releases, b), b.files, cut - 1)];
  }

  lemma FirstIsCreation(releases: seq<Release>, b: Bundle, cut: nat)
    requires Matches(releases, b.tag) == [] && cut > 0
    ensures var plan, rest := Plan(releases, b), Finish(b.tag, b.files);
            plan[..Min(cut, |plan|)] == [Create(b)] + rest[..Min(cut - 1, |rest|)]
  {
    assert Plan(releases, b) == [Create(b)] + Finish(b.tag, b.files);
  }

  lemma CreatedThen(releases: seq<Release>, b: Bundle, some: seq<Command>)
    ensures Execute(releases, [Create(b)] + some) == Execute(releases + [Fresh(releases, b)], some)
  {
    assert ([Create(b)] + some)[1..] == some;
  }

  lemma {:induction false} AttemptFromDraft(releases: seq<Release>, b: Bundle, cut: nat)
    requires Resumable(releases, b)
    ensures var n, after := Matches(releases, b.tag)[0], Attempt(releases, b, cut);
            && Ours(releases, b, n) && Ours(after, b, n)
            && after == releases[n := Advanced(releases[n], Missing(b.files, releases[n].assets), cut)]
  {
    OneIsFound(releases, b);
    var n := Matches(releases, b.tag)[0];
    FinishAdvances(releases, b, n, Missing(b.files, releases[n].assets), cut);
  }

  lemma AttemptOtherwise(releases: seq<Release>, b: Bundle, cut: nat)
    requires Matches(releases, b.tag) != [] && !Resumable(releases, b)
    ensures Plan(releases, b) == [] && Attempt(releases, b, cut) == releases
  {}

  // ---------------------------------------------------------------- safety and completion

  /** How one release may change in one attempt: not at all once published or if it has
      another tag, and out of draft only as exactly the expected files. */
  ghost predicate WrittenSafely(before: seq<Release>, after: seq<Release>, b: Bundle, i: nat) {
    && i < |after| && |after| >= |before|
    && (i < |before| && (!before[i].draft || before[i].tag != b.tag) ==> after[i] == before[i])
    && (!after[i].draft && (i >= |before| || before[i].draft) ==> PublishedAt(after, b, i))
  }

  /** From any listing at all and wherever the process dies: published releases are never
      written, and a release that leaves draft carries exactly the expected files. */
  lemma {:induction false} OnlyExactIsPublished(releases: seq<Release>, b: Bundle, cut: nat, i: nat)
    requires WellFormed(b) && i < |Attempt(releases, b, cut)|
    ensures WrittenSafely(releases, Attempt(releases, b, cut), b, i)
  {
    if Matches(releases, b.tag) == [] {
      CreatedSafely(releases, b, cut, i);
    } else if Resumable(releases, b) {
      ResumedSafely(releases, b, cut, i);
    } else {
      AttemptOtherwise(releases, b, cut);
    }
  }

  lemma CreatedSafely(releases: seq<Release>, b: Bundle, cut: nat, i: nat)
    requires WellFormed(b) && Matches(releases, b.tag) == [] && i < |Attempt(releases, b, cut)|
    ensures WrittenSafely(releases, Attempt(releases, b, cut), b, i)
  {
    if cut > 0 {
      AttemptFromNothing(releases, b, cut);
      NothingMissingFromEmpty(b.files);
      AdvancedStaysValid(Fresh(releases, b), b, cut - 1);
      NoneIsFound(releases, b);
    } else {
      assert Plan(releases, b)[..0] == [];
    }
  }

  lemma ResumedSafely(releases: seq<Release>, b: Bundle, cut: nat, i: nat)
    requires WellFormed(b) && Resumable(releases, b) && i < |Attempt(releases, b, cut)|
    ensures WrittenSafely(releases, Attempt(releases, b, cut), b, i)
  {
    AttemptFromDraft(releases, b, cut);
    AdvancedStaysValid(releases[Matches(releases, b.tag)[0]], b, cut);
  }

  /** An attempt that starts acceptable leaves an acceptable listing, with the same release
      if there was one; run to the end it leaves the release published. */
  lemma {:induction false} AttemptAdvances(releases: seq<Release>, b: Bundle, cut: nat)
    requires WellFormed(b) && Acceptable(releases, b)
    ensures var after := Attempt(releases, b, cut);
            && Acceptable(after, b)
            && (forall n: nat | Ours(releases, b, n) :: Ours(after, b, n) && after[n].id == releases[n].id)
            && (cut >= |Plan(releases, b)| ==> exists n: nat :: PublishedAt(after, b, n))
  {
    NoneIsFound(releases, b);
    if Matches(releases, b.tag) == [] {
      AdvanceFromNothing(releases, b, cut);
    } else {
      var n: nat :| AcceptableAt(releases, b, n);
      OursIsFound(releases, b, n);
      if Resumable(releases, b) {
        AdvanceFromDraft(releases, b, n, cut);
      } else {
        AttemptOtherwise(releases, b, cut);
        CompleteIsExact(releases[n], b);
        assert PublishedAt(releases, b, n);
      }
      forall m: nat | Ours(releases, b, m) ensures m == n {
        OursIsFound(releases, b, m);
      }
    }
  }

  lemma AdvanceFromNothing(releases: seq<Release>, b: Bundle, cut: nat)
    requires WellFormed(b) && Matches(releases, b.tag) == []
    ensures Acceptable(Attempt(releases, b, cut), b)
    ensures cut >= |Plan(releases, b)| ==> PublishedAt(Attempt(releases, b, cut), b, |releases|)
  {
    var after := Attempt(releases, b, cut);
    NothingMissingFromEmpty(b.files);
    NoneIsFound(releases, b);
    if cut > 0 {
      AttemptFromNothing(releases, b, cut);
      AdvancedStaysValid(Fresh(releases, b), b, cut - 1);
      assert AcceptableAt(after, b, |releases|);
    } else {
      assert Plan(releases, b)[..0] == [];
    }
  }

  lemma AdvanceFromDraft(releases: seq<Release>, b: Bundle, n: nat, cut: nat)
    requires WellFormed(b) && Resumable(releases, b) && Ours(releases, b, n)
    ensures var after := Attempt(releases, b, cut);
            && AcceptableAt(after, b, n) && after[n].id == releases[n].id
            && (cut >= |Plan(releases, b)| ==> PublishedAt(after, b, n))
  {
    OursIsFound(releases, b, n);
    AttemptFromDraft(releases, b, cut);
    AdvancedStaysValid(releases[n], b, cut);
  }

  lemma AdvancedStaysValid(r: Release, b: Bundle, k: nat)
    requires WellFormed(b) && SameFace(r, b) && r.draft && ValidAssets(r, b, false)
    ensures var todo := Missing(b.files, r.assets);
            var after := Advanced(r, todo, k);
            && SameFace(after, b) && ValidAssets(after, b, !after.draft)
            && (k > |todo| ==> !after.draft && ExactAssets(after, b))
  {
    var todo := Missing(b.files, r.assets);
    FilledIsValid(r, b, Min(k, |todo|));
    CompleteIsExact(Advanced(r, todo, k), b);
  }

  function Attempts(releases: seq<Release>, b: Bundle, cuts: seq<nat>): seq<Release>
    decreases |cuts|
  {
    if cuts == [] then releases else Attempts(Attempt(releases, b, cuts[0]), b, cuts[1..])
  }

  /** An attempt adds at most one release, ours, and only where there was none. */
  lemma AttemptKeepsPlaces(releases: seq<Release>, b: Bundle, cut: nat)
    requires WellFormed(b) && Acceptable(releases, b)
    ensures var after := Attempt(releases, b, cut);
            if Matches(releases, b.tag) != [] then |after| == |releases|
            else if cut == 0 then after == releases
            else |after| == |releases| + 1 && Ours(after, b, |releases|)
  {
    if Matches(releases, b.tag) == [] {
      if cut > 0 {
        AttemptFromNothing(releases, b, cut);
      } else {
        assert Plan(releases, b)[..0] == [];
      }
    } else if Resumable(releases, b) {
      AttemptFromDraft(releases, b, cut);
    } else {
      AttemptOtherwise(releases, b, cut);
    }
  }

  /** The place of the one release that attempts create or fill: the one there is, or the next
      free one. */
  ghost predicate IsPlace(releases: seq<Release>, b: Bundle, n: nat) {
    if Matches(releases, b.tag) == [] then n == |releases| else Ours(releases, b, n)
  }

  /** Any number of dying attempts and then one that lives: exactly one release of the tag is
      there, it is published with exactly the expected files, and it is the very release that
      was there at the start, or else the draft that the first attempt to get so far created. */
  lemma {:induction false} RetriesComplete(releases: seq<Release>, b: Bundle, cuts: seq<nat>, last: nat, n: nat)
    requires WellFormed(b) && Acceptable(releases, b) && IsPlace(releases, b, n)
    requires last >= |Plan(Attempts(releases, b, cuts), b)|
    ensures var final := Attempt(Attempts(releases, b, cuts), b, last);
            PublishedAt(final, b, n) && |final| == if Matches(releases, b.tag) == [] then |releases| + 1 else |releases|
    decreases |cuts|
  {
    var cut := if cuts == [] then last else cuts[0];
    var after := Attempt(releases, b, cut);
    AttemptAdvances(releases, b, cut);
    AttemptKeepsPlaces(releases, b, cut);
    if Ours(releases, b, n) {
      OursIsFound(releases, b, n);
    }
    if Ours(after, b, n) {
      OursIsFound(after, b, n);
    }
    if cuts != [] {
      RetriesComplete(after, b, cuts[1..], last, n);
    } else {
      OnlyPlace(releases, after, b, n, cut);
    }
  }

  lemma OnlyPlace(releases: seq<Release>, after: seq<Release>, b: Bundle, n: nat, cut: nat)
    requires IsPlace(releases, b, n) && Ours(after, b, n)
    requires exists m: nat :: PublishedAt(after, b, m)
    ensures PublishedAt(after, b, n)
  {
    var m: nat :| PublishedAt(after, b, m);
    OursIsFound(after, b, m);
    OursIsFound(after, b, n);
  }

  lemma ResumableIsAcceptable(releases: seq<Release>, b: Bundle)
    ensures Resumable(releases, b) ==> Acceptable(releases, b)
  {
    OneIsFound(releases, b);
    if Resumable(releases, b) {
      assert AcceptableAt(releases, b, Matches(releases, b.tag)[0]);
    }
  }

  /** A complete run publishes exactly when it started from an acceptable listing. */
  lemma {:induction false} PublishesIffAcceptable(releases: seq<Release>, b: Bundle)
    requires WellFormed(b)
    ensures (exists n: nat :: PublishedAt(Attempt(releases, b, |Plan(releases, b)|), b, n)) <==> Acceptable(releases, b)
  {
    if Acceptable(releases, b) {
      AttemptAdvances(releases, b, |Plan(releases, b)|);
    } else {
      NoneIsFound(releases, b);
      ResumableIsAcceptable(releases, b);
      AttemptOtherwise(releases, b, |Plan(releases, b)|);
      forall n: nat ensures !PublishedAt(releases, b, n) {
        if Ours(releases, b, n) {
          CompleteIsExact(releases[n], b);
          assert !AcceptableAt(releases, b, n);
        }
      }
    }
  }

  /** Once published, another run issues no mutating command. */
  lemma {:induction false} PublishedIsFinal(releases: seq<Release>, b: Bundle, n: nat)
    requires PublishedAt(releases, b, n)
    ensures Plan(releases, b) == []
  {
    OursIsFound(releases, b, n);
  }

  // ---------------------------------------------------------------- the script itself

  /** The releases of one repository and how many more mutating commands this process lives
      to issue. */
  class GitHub {
    var releases: seq<Release>
    var budget: nat

    constructor (releases: seq<Release>, budget: nat)
      ensures this.releases == releases && this.budget == budget
    {
      this.releases := releases;
      this.budget := budget;
    }

    /** A process that started with `room` commands to live has tried the first `k` of a plan
        whose states, command by command, are these. */
    ghost predicate Progress(states: seq<seq<Release>>, room: nat, k: nat) reads this {
      && k < |states|
      && releases == states[Min(room, k)]
      && budget == if room > k then room - k else 0
    }

    method Send(c: Command, ghost states: seq<seq<Release>>, ghost plan: seq<Command>, ghost room: nat, ghost k: nat)
      requires Progress(states, room, k) && Trace(states, plan)
      requires k < |plan| && plan[k] == c
      modifies this
      ensures Progress(states, room, k + 1)
    {
      assert TraceStep(states, plan, k);
      if budget > 0 {
        releases := Apply(releases, c);
        budget := budget - 1;
      }
    }

    /** One run. Its commands are exactly those of the plan that its life allows, and a run
        that lives long enough succeeds exactly on an acceptable listing. */
    method PublishRelease(b: Bundle) returns (failure: Option<PublishError>)
      requires WellFormed(b)
      modifies this
      ensures releases == Attempt(old(releases), b, old(budget))
      ensures failure.None? <==> Acceptable(old(releases), b) && old(budget) >= |Plan(old(releases), b)|
      ensures failure == Some(Ambiguous) <==> |Matches(old(releases), b.tag)| > 1
      ensures failure == Some(DraftMissing) <==> Matches(old(releases), b.tag) == [] && old(budget) == 0
    {
      ghost var start, room, k := releases, budget, 0;
      var found := Matches(releases, b.tag);
      if |found| > 1 {
        AmbiguousIsFinal(start, b);
        return Some(Ambiguous);
      }
      if |found| == 0 {
        found := CreateDraft(b);
        k := 1;
        if |found| == 0 {
          return Some(DraftMissing);
        }
      }
      var n := found[0];
      var existing := releases[n];
      Verdict(start, b, n, existing, k);
      var refused := Refusal(existing, b);
      if refused.Some? {
        return Some(refused.value);
      }
      if !existing.draft {
        return None;
      }
      PlanIsFinish(start, b, n, existing, k);
      failure := FillAndPublish(b, n, existing, start, k, room);
    }

    /** Creates the draft and looks it up again; it is missing only if the process has died. */
    method CreateDraft(b: Bundle) returns (found: seq<nat>)
      requires Matches(releases, b.tag) == []
      modifies this
      ensures releases == Attempt(old(releases), b, Min(old(budget), 1))
      ensures budget == if old(budget) > 1 then old(budget) - 1 else 0
      ensures if old(budget) == 0 then found == []
              else found == [|old(releases)|] && |releases| == |old(releases)| + 1
                   && releases[|old(releases)|] == Fresh(old(releases), b)
      ensures |Plan(old(releases), b)| > 0
    {
      ghost var start, room := releases, budget;
      CreationIsFirst(start, b);
      if budget > 0 {
        releases := Apply(releases, Create(b));
        budget := budget - 1;
      }
      found := Matches(releases, b.tag);
      if room > 0 {
        AttemptFromNothing(start, b, 1);
        OursIsFound(releases, b, |start|);
      }
    }

    /** The second half of a run: upload what is missing, check, publish, check again. */
    method FillAndPublish(b: Bundle, n: nat, existing: Release, ghost start: seq<Release>, ghost k: nat, ghost room: nat)
      returns (failure: Option<PublishError>)
      requires WellFormed(b) && Started(start, b, n, existing, k) && room >= k
      requires releases == Attempt(start, b, k) && budget == room - k
      modifies this
      ensures releases == Attempt(start, b, room)
      ensures failure.None? <==> room >= |Plan(start, b)|
      ensures failure == Some(AssetsDiffer) <==> room + 1 < |Plan(start, b)|
      ensures failure == Some(StillDraft) <==> room + 1 == |Plan(start, b)|
    {
      ghost var plan := Plan(start, b);
      ghost var states, uploaded := Course(start, b, n, existing, k, room);
      UploadMissing(b, existing, states, plan, k, room, UploadOrder(b, existing.assets));
      if !ValidAssets(releases[n], b, true) {
        return Some(AssetsDiffer);
      }
      Send(Undraft(b.tag), states, plan, room, uploaded);
      if releases[n].draft {
        return Some(StillDraft);
      }
      if !ValidAssets(releases[n], b, true) {
        return Some(AssetsDiffer);
      }
      return None;
    }

    method UploadMissing(
        b: Bundle, existing: Release,
        ghost states: seq<seq<Release>>, ghost plan: seq<Command>, ghost k: nat, ghost room: nat, ghost sent: seq<nat>)
      requires Progress(states, room, k) && Trace(states, plan)
      requires SentBefore(b, existing.assets, plan, k, sent)
      modifies this
      ensures Progress(states, room, k + sent[|b.files|])
    {
      var j := 0;
      while j < |b.files|
        invariant 0 <= j <= |b.files|
        invariant Progress(states, room, k + sent[j])
      {
        assert UploadStep(b, existing.assets, plan, k, sent, j);
        if !Has(existing.assets, b.files[j].name) {
          Send(Upload(b.tag, b.files[j]), states, plan, room, k + sent[j]);
        }
        j := j + 1;
      }
    }
  }

  // ---------------------------------------------------------------- the states of a run

  ghost predicate Trace(states: seq<seq<Release>>, plan: seq<Command>) {
    |states| == |plan| + 1 && forall i: nat | i < |plan| :: TraceStep(states, plan, i)
  }

  ghost predicate TraceStep(states: seq<seq<Release>>, plan: seq<Command>, i: nat)
    requires i < |plan| && |states| == |plan| + 1
  {
    states[i + 1] == Apply(states[i], plan[i])
  }

  function TraceOf(start: seq<Release>, b: Bundle): (r: seq<seq<Release>>)
    ensures |r| == |Plan(start, b)| + 1
    ensures forall i | 0 <= i < |r| :: r[i] == Attempt(start, b, i)
  {
    seq(|Plan(start, b)| + 1, i requires 0 <= i <= |Plan(start, b)| => Attempt(start, b, i))
  }

  lemma AttemptOneMore(start: seq<Release>, b: Bundle, i: nat)
    requires i < |Plan(start, b)|
    ensures Attempt(start, b, i + 1) == Apply(Attempt(start, b, i), Plan(start, b)[i])
  {
    var plan := Plan(start, b);
    assert plan[..i + 1] == plan[..i] + [plan[i]];
    ExecuteSplit(start, plan[..i], [plan[i]]);
    assert [plan[i]][1..] == [] && Execute(Attempt(start, b, i), [plan[i]]) == Apply(Attempt(start, b, i), plan[i]);
  }

  lemma TraceOfIsTrace(start: seq<Release>, b: Bundle)
    ensures Trace(TraceOf(start, b), Plan(start, b))
  {
    forall i: nat | i < |Plan(start, b)| ensures TraceStep(TraceOf(start, b), Plan(start, b), i) {
      AttemptOneMore(start, b, i);
    }
  }

  lemma CreationIsFirst(start: seq<Release>, b: Bundle)
    requires Matches(start, b.tag) == []
    ensures |Plan(start, b)| > 0 && Attempt(start, b, 0) == start
    ensures Attempt(start, b, 1) == Apply(start, Create(b)) == start + [Fresh(start, b)]
  {
    assert Plan(start, b)[..0] == [] && Plan(start, b)[0] == Create(b);
    AttemptOneMore(start, b, 0);
    assert Apply(start, Create(b)) == start + [Fresh(start, b)];
  }

  /** The course of a run that fills the draft: its states, and how many commands precede the
      publishing one. What the two checks find depends on how long the run lives. */
  lemma Course(start: seq<Release>, b: Bundle, n: nat, existing: Release, k: nat, room: nat)
    returns (states: seq<seq<Release>>, uploaded: nat)
    requires WellFormed(b) && Started(start, b, n, existing, k) && room >= k
    ensures var plan := Plan(start, b);
            && Trace(states, plan) && states[k] == Attempt(start, b, k)
            && SentBefore(b, existing.assets, plan, k, UploadOrder(b, existing.assets))
            && uploaded == k + UploadOrder(b, existing.assets)[|b.files|]
            && |plan| == uploaded + 1 && plan[uploaded] == Undraft(b.tag)
            && states[Min(room, |plan|)] == Attempt(start, b, room)
            && Checked(states[Min(room, uploaded)], states[Min(room, |plan|)], b, n, room, uploaded)
  {
    var plan := Plan(start, b);
    states, uploaded := TraceOf(start, b), k + |Missing(b.files, existing.assets)|;
    PlanIsFinish(start, b, n, existing, k);
    TraceOfIsTrace(start, b);
    UploadsInOrder(b, existing.assets, plan, k);
    LongerIsWhole(start, b, room);
    CheckpointAfter(start, b, n, existing, k, Min(room, uploaded));
    CheckpointAfter(start, b, n, existing, k, room);
  }

  /** The first check fails only in a run that has died before the publishing command; the
      second never does in one that lives. */
  ghost predicate Checked(
      filled: seq<Release>, ended: seq<Release>, b: Bundle, n: nat, room: nat, uploaded: nat)
  {
    && n < |filled| && n < |ended|
    && (!ValidAssets(filled[n], b, true) <==> room < uploaded)
    && (room < uploaded ==> filled == ended)
    && (room > uploaded ==> ValidAssets(ended[n], b, true))
    && (room > uploaded <==> !ended[n].draft)
  }

  lemma LongerIsWhole(start: seq<Release>, b: Bundle, room: nat)
    ensures Attempt(start, b, room) == Attempt(start, b, Min(room, |Plan(start, b)|))
  {}

  /** The checks of the release found, in their order. */
  function Refusal(r: Release, b: Bundle): Option<PublishError> {
    if r.tag != b.tag || r.prerelease != b.prerelease then Some(OtherClassification)
    else if r.title != b.title || r.notes != b.notes then Some(OtherNotes)
    else if !ValidAssets(r, b, !r.draft) then Some(AssetsDiffer)
    else None
  }

  /** The release a run works on: the one it found, or the one it has just created. */
  ghost predicate Chosen(start: seq<Release>, b: Bundle, n: nat, existing: Release, k: nat) {
    if Matches(start, b.tag) == [] then k == 1 && n == |start| && existing == Fresh(start, b)
    else k == 0 && Matches(start, b.tag) == [n] && n < |start| && existing == start[n]
  }

  /** A run is about to fill the draft `existing` at `n`, having issued `k` commands so far. */
  ghost predicate Started(start: seq<Release>, b: Bundle, n: nat, existing: Release, k: nat) {
    existing.draft && SameFace(existing, b) && ValidAssets(existing, b, false) && Chosen(start, b, n, existing, k)
  }

  lemma AmbiguousIsFinal(start: seq<Release>, b: Bundle)
    requires |Matches(start, b.tag)| > 1
    ensures Plan(start, b) == [] && !Acceptable(start, b)
  {
    NoneIsFound(start, b);
    OneIsFound(start, b);
  }

  /** What the checks of the chosen release say about the whole run. */
  lemma Verdict(start: seq<Release>, b: Bundle, n: nat, existing: Release, k: nat)
    requires Chosen(start, b, n, existing, k)
    ensures Refusal(existing, b).None? && existing.draft ==> Started(start, b, n, existing, k)
    ensures !(Refusal(existing, b).None? && existing.draft) ==>
      && k == 0 && Plan(start, b) == []
      && (Acceptable(start, b) <==> Refusal(existing, b).None?)
  {
    NothingMissingFromEmpty(b.files);
    if k == 0 {
      OursIsFound(start, b, n);
      if Refusal(existing, b).None? {
        assert AcceptableAt(start, b, n);
      } else {
        Unacceptable(start, b, n);
      }
    }
  }

  ghost predicate UploadsFrom(plan: seq<Command>, k: nat, tag: string, files: seq<Asset>) {
    k + |files| <= |plan| && forall m | 0 <= m < |files| :: plan[k + m] == Upload(tag, files[m])
  }

  lemma PlanIsFinish(start: seq<Release>, b: Bundle, n: nat, existing: Release, k: nat)
    requires Started(start, b, n, existing, k)
    ensures var plan, todo := Plan(start, b), Missing(b.files, existing.assets);
            && |plan| == k + |todo| + 1
            && UploadsFrom(plan, k, b.tag, todo)
            && plan[k + |todo|] == Undraft(b.tag)
            && Acceptable(start, b)
  {
    NothingMissingFromEmpty(b.files);
    NoneIsFound(start, b);
    ResumableIsAcceptable(start, b);
  }

  lemma AttemptPartway(start: seq<Release>, b: Bundle, n: nat, existing: Release, k: nat, cut: nat)
    requires WellFormed(b) && Started(start, b, n, existing, k) && cut >= k
    ensures var after, todo := Attempt(start, b, cut), Missing(b.files, existing.assets);
            && n < |after| && after[n] == Advanced(existing, todo, cut - k)
            && (cut - k >= |todo| ==> ValidAssets(after[n], b, true))
  {
    NothingMissingFromEmpty(b.files);
    if Matches(start, b.tag) == [] {
      AttemptFromNothing(start, b, cut);
    } else {
      AttemptFromDraft(start, b, cut);
    }
    FilledIsValid(existing, b, |Missing(b.files, existing.assets)|);
  }

  lemma CheckpointAfter(start: seq<Release>, b: Bundle, n: nat, existing: Release, k: nat, cut: nat)
    requires WellFormed(b) && Started(start, b, n, existing, k) && cut >= k
    ensures var after, todo := Attempt(start, b, cut), Missing(b.files, existing.assets);
            && n < |after|
            && (cut >= k + |todo| <==> ValidAssets(after[n], b, true))
            && (cut > k + |todo| <==> !after[n].draft)
  {
    AttemptPartway(start, b, n, existing, k, cut);
    if cut - k < |Missing(b.files, existing.assets)| {
      PartlyFilledIsIncomplete(existing, b, cut - k);
    }
  }

  /** How many uploads precede each file, and that the plan has the upload of each missing one
      in its place. */
  ghost predicate SentBefore(b: Bundle, assets: seq<Asset>, plan: seq<Command>, k: nat, sent: seq<nat>) {
    && |sent| == |b.files| + 1 && sent[0] == 0
    && forall j: nat | j < |b.files| :: UploadStep(b, assets, plan, k, sent, j)
  }

  ghost predicate UploadStep(b: Bundle, assets: seq<Asset>, plan: seq<Command>, k: nat, sent: seq<nat>, j: nat)
    requires j < |b.files| && |sent| == |b.files| + 1
  {
    if Has(assets, b.files[j].name) then sent[j + 1] == sent[j]
    else sent[j + 1] == sent[j] + 1 && k + sent[j] < |plan| && plan[k + sent[j]] == Upload(b.tag, b.files[j])
  }

  function UploadOrder(b: Bundle, assets: seq<Asset>): (sent: seq<nat>)
    ensures |sent| == |b.files| + 1
    ensures forall j | 0 <= j < |sent| :: sent[j] == |Missing(b.files[..j], assets)|
  {
    seq(|b.files| + 1, j requires 0 <= j <= |b.files| => |Missing(b.files[..j], assets)|)
  }

  lemma UploadsInOrder(b: Bundle, assets: seq<Asset>, plan: seq<Command>, k: nat)
    requires UploadsFrom(plan, k, b.tag, Missing(b.files, assets))
    ensures SentBefore(b, assets, plan, k, UploadOrder(b, assets))
    ensures UploadOrder(b, assets)[|b.files|] == |Missing(b.files, assets)|
  {
    var sent := UploadOrder(b, assets);
    forall j: nat | j < |b.files| ensures UploadStep(b, assets, plan, k, sent, j) {
      MissingNext(b.files, assets, j);
    }
    assert b.files[..|b.files|] == b.files && b.files[..0] == [];
  }

  lemma {:induction false} MissingNext(files: seq<Asset>, assets: seq<Asset>, j: nat)
    requires j < |files|
    ensures var done, all := Missing(files[..j], assets), Missing(files, assets);
            if Has(assets, files[j].name) then Missing(files[..j + 1], assets) == done && |done| <= |all|
            else Missing(files[..j + 1], assets) == done + [files[j]] && |done| < |all| && all[|done|] == files[j]
  {
    MissingSplit(files[..j], [files[j]], assets);
    MissingSplit(files[..j + 1], files[j + 1..], assets);
    assert files[..j + 1] == files[..j] + [files[j]] && files == files[..j + 1] + files[j + 1..];
  }

  lemma {:induction false} MissingSplit(left: seq<Asset>, right: seq<Asset>, assets: seq<Asset>)
    ensures Missing(left + right, assets) == Missing(left, assets) + Missing(right, assets)
  {
    if left == [] {
      assert left + right == right;
    } else {
      assert (left + right)[1..] == left[1..] + right;
      MissingSplit(left[1..], right, assets);
    }
  }

  lemma Unacceptable(releases: seq<Release>, b: Bundle, n: nat)
    requires Matches(releases, b.tag) == [n] && n < |releases| && Refusal(releases[n], b).Some?
    ensures !Acceptable(releases, b)
  {
    NoneIsFound(releases, b);
    forall m: nat | Ours(releases, b, m) ensures !AcceptableAt(releases, b, m) {
      OursIsFound(releases, b, m);
    }
  }
}
