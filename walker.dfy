/**
 * The album walk (`download_big_images`): thumbnails are opened one after another, numbered
 * from 1; an item that yields no image is skipped, and a file is written for every other one.
 */
module Walker {
  import opened Base
  import opened Resolver
  import opened Fetcher
  import opened Text
  import opened Naming

  /**
   * What clicking a thumbnail leads to: the viewer's `<img>`, or the wait for it timing out,
   * which raises outside any `try` and ends the whole walk.
   */
  datatype Viewer = TimedOut | Shown(image: Element)

  /** One thumbnail: what its viewer shows, and how the site answers the session meanwhile. */
  datatype Thumb = Thumb(viewer: Viewer, server: Request -> HttpReply)

  /** The logged-in page from which the walk runs, and the library calls the download uses. */
  datatype Session = Session(pageUrl: string, lib: Library)

  /** A file written into the destination folder. */
  datatype SavedFile = SavedFile(name: string, data: Bytes)

  /** The file that thumbnail number `idx` of `total` produces, if any (lines 83-122). */
  function Outcome(t: Thumb, idx: nat, total: nat, s: Session): Option<SavedFile> {
    match t.viewer
    case TimedOut => None
    case Shown(image) =>
      var url := FinalImageUrl(image).url;
      if url.None? || url.value == "" then None
      else
        match GetImageBytes(url, s.pageUrl, s.lib, t.server).result
        case Data(bytes) =>
          if bytes == [] then None
          else Some(SavedFile(FileName(idx, total, Extension(url.value)), bytes))
        case _ => None
  }

  /**
   * A thumbnail writes a file exactly when its viewer opens, the resolver yields a non-empty
   * value and the download returns non-empty bytes; the file holds those bytes, named after
   * the ordinal, the total and the extension of the resolved (not the normalised) value.
   */
  lemma OutcomeWritesFetchedBytes(t: Thumb, idx: nat, total: nat, s: Session)
    ensures Outcome(t, idx, total, s).Some? <==>
      t.viewer.Shown? &&
      var url := FinalImageUrl(t.viewer.image).url;
      url.Some? && url.value != "" &&
      var fetched := GetImageBytes(url, s.pageUrl, s.lib, t.server).result;
      fetched.Data? && fetched.bytes != []
    ensures Outcome(t, idx, total, s).Some? ==>
      var url := FinalImageUrl(t.viewer.image).url;
      Outcome(t, idx, total, s).value
        == SavedFile(FileName(idx, total, Extension(url.value)),
                     GetImageBytes(url, s.pageUrl, s.lib, t.server).result.bytes)
  {
  }

  /** A thumbnail's file carries the thumbnail's ordinal (line 118). */
  lemma OutcomeNumbered(t: Thumb, idx: nat, total: nat, s: Session)
    ensures Outcome(t, idx, total, s).Some? ==> Numbered(Outcome(t, idx, total, s).value, idx)
  {
    OutcomeWritesFetchedBytes(t, idx, total, s);
    if Outcome(t, idx, total, s).Some? {
      FileNameShape(idx, total, Extension(FinalImageUrl(t.viewer.image).url.value));
    }
  }

  /** What one pass of the loop makes of a thumbnail, given its ordinal. */
  type Step = (Thumb, nat) -> Option<SavedFile>

  /** The loop body of a walk over `total` thumbnails from the page of `s`. */
  function RunStep(total: nat, s: Session): Step {
    (t: Thumb, idx: nat) => Outcome(t, idx, total, s)
  }

  lemma RunStepIsOutcome(total: nat, s: Session, t: Thumb, k: nat)
    ensures RunStep(total, s)(t, k) == Outcome(t, k, total, s)
  {
  }

  /** Every file `RunStep` makes carries the ordinal it was given. */
  lemma RunStepNumbered(total: nat, s: Session)
    ensures forall t: Thumb, k: nat :: RunStep(total, s)(t, k).Some? ==> Numbered(RunStep(total, s)(t, k).value, k)
  {
    forall t: Thumb, k: nat ensures RunStep(total, s)(t, k).Some? ==> Numbered(RunStep(total, s)(t, k).value, k) {
      OutcomeNumbered(t, k, total, s);
    }
  }

  /** The file an outcome writes: one, or none. */
  function FilesOf(o: Option<SavedFile>): seq<SavedFile> {
    match o
    case Some(f) => [f]
    case None => []
  }

  /**
   * The files that thumbnails `ts`, numbered from `first`, write, in the order they are
   * written: those of all but the last thumbnail, then the last one's.
   */
  function SavedFiles(ts: seq<Thumb>, first: nat, step: Step): seq<SavedFile>
    decreases |ts|
  {
    if ts == [] then []
    else SavedFiles(ts[..|ts| - 1], first, step) + FilesOf(step(ts[|ts| - 1], first + |ts| - 1))
  }

  /** What each of the thumbnails `ts`, numbered from `first`, produces. */
  function Outcomes(ts: seq<Thumb>, first: nat, step: Step): (os: seq<Option<SavedFile>>)
    ensures |os| == |ts|
  {
    seq(|ts|, k requires 0 <= k < |ts| => step(ts[k], first + k))
  }

  lemma OutcomesAt(ts: seq<Thumb>, first: nat, step: Step, k: nat)
    requires k < |ts|
    ensures Outcomes(ts, first, step)[k] == step(ts[k], first + k)
  {
  }

  /** The files among some outcomes, in order. */
  function Kept(os: seq<Option<SavedFile>>): seq<SavedFile> {
    if os == [] then [] else FilesOf(os[0]) + Kept(os[1..])
  }

  /** How many thumbnails the walk reaches: all of them, or those before the first time-out. */
  function Reached(ts: seq<Thumb>): (n: nat)
    ensures n <= |ts|
    ensures forall k :: 0 <= k < n ==> ts[k].viewer.Shown?
    ensures n < |ts| ==> ts[n].viewer.TimedOut?
  {
    if ts == [] || ts[0].viewer.TimedOut? then 0 else 1 + Reached(ts[1..])
  }

  lemma ReachedFirstTimeout(ts: seq<Thumb>, n: nat)
    requires n < |ts| && ts[n].viewer.TimedOut?
    requires forall k :: 0 <= k < n ==> ts[k].viewer.Shown?
    ensures Reached(ts) == n
  {
  }

  /**
   * The method form of `Outcome` for an opened viewer: one pass of the loop body (lines
   * 90-122) that resolves, gives up on an empty value, downloads, gives up on an error or on
   * empty bytes, and otherwise names the file.
   */
  method SaveImage(image: Element, server: Request -> HttpReply, idx: nat, total: nat, session: Session)
    returns (saved: Option<SavedFile>)
    ensures saved == Outcome(Thumb(Shown(image), server), idx, total, session)
  {
    var rawUrl := FinalImageUrl(image).url;
    if rawUrl.None? || rawUrl.value == "" {
      return None;
    }
    var fetched := GetImageBytes(rawUrl, session.pageUrl, session.lib, server).result;
    if !fetched.Data? || fetched.bytes == [] {
      return None;
    }
    var ext := Extension(rawUrl.value);
    var fileName := FileName(idx, total, ext);
    return Some(SavedFile(fileName, fetched.bytes));
  }

  /**
   * The rest of one loop iteration once thumbnail `idx` has opened: the file it yields, if
   * any, is added to those written for the thumbnails before it.
   */
  method ProcessThumb(thumbs: seq<Thumb>, idx: nat, session: Session, written: seq<SavedFile>)
    returns (next: seq<SavedFile>)
    requires 1 <= idx <= |thumbs| && thumbs[idx - 1].viewer.Shown?
    requires written == SavedFiles(thumbs[..idx - 1], 1, RunStep(|thumbs|, session))
    ensures next == SavedFiles(thumbs[..idx], 1, RunStep(|thumbs|, session))
  {
    var thumb := thumbs[idx - 1];
    var saved := SaveImage(thumb.viewer.image, thumb.server, idx, |thumbs|, session);
    assert thumb == Thumb(Shown(thumb.viewer.image), thumb.server);
    SavedFilesSnoc(thumbs, idx, RunStep(|thumbs|, session));
    if saved.None? {
      return written;
    }
    return written + [saved.value];
  }

  /**
   * `download_big_images`: `total` is counted once before the loop, each thumbnail is numbered
   * by its position, and a failure skips the thumbnail alone; a viewer that never opens
   * ends the walk with the files written so far.
   */
  method DownloadBigImages(thumbs: seq<Thumb>, session: Session) returns (written: seq<SavedFile>, completed: bool)
    ensures completed <==> forall k :: 0 <= k < |thumbs| ==> thumbs[k].viewer.Shown?
    ensures written == SavedFiles(thumbs[..Reached(thumbs)], 1, RunStep(|thumbs|, session))
  {
    var numThumbs := |thumbs|;
    written := [];
    for idx := 1 to numThumbs + 1
      invariant forall k :: 0 <= k < idx - 1 ==> thumbs[k].viewer.Shown?
      invariant written == SavedFiles(thumbs[..idx - 1], 1, RunStep(|thumbs|, session))
    {
      var thumb := thumbs[idx - 1];
      if thumb.viewer.TimedOut? {
        ReachedFirstTimeout(thumbs, idx - 1);
        completed := false;
        return;
      }
      assert forall k :: 0 <= k < idx ==> thumbs[k].viewer.Shown?;
      written := ProcessThumb(thumbs, idx, session, written);
    }
    completed := true;
    assert thumbs[..numThumbs] == thumbs;
  }

  lemma KeptSingle(o: Option<SavedFile>)
    ensures Kept([o]) == FilesOf(o)
  {
    assert [o][1..] == [];
  }

  lemma {:induction false} KeptAppend(x: seq<Option<SavedFile>>, y: seq<Option<SavedFile>>)
    ensures Kept(x + y) == Kept(x) + Kept(y)
  {
    if x == [] {
      assert x + y == y;
    } else {
      assert (x + y)[1..] == x[1..] + y;
      KeptAppend(x[1..], y);
    }
  }

  /** A file is kept exactly when it is one of the outcomes. */
  lemma {:induction false} KeptMember(os: seq<Option<SavedFile>>, f: SavedFile)
    ensures f in Kept(os) <==> Some(f) in os
  {
    if os != [] {
      KeptMember(os[1..], f);
      assert os == [os[0]] + os[1..];
    }
  }

  lemma OutcomesAppend(a: seq<Thumb>, b: seq<Thumb>, first: nat, step: Step)
    ensures Outcomes(a + b, first, step) == Outcomes(a, first, step) + Outcomes(b, first + |a|, step)
  {
    var x, y := Outcomes(a, first, step), Outcomes(b, first + |a|, step);
    forall k | 0 <= k < |a + b|
      ensures Outcomes(a + b, first, step)[k] == (x + y)[k]
    {
      if k < |a| {
        assert (a + b)[k] == a[k];
      } else {
        assert (a + b)[k] == b[k - |a|];
      }
    }
  }

  /**
   * What a run of thumbnails writes is what its two parts write, the second numbered on
   * from where the first stopped: the files keep thumbnail order, and a skipped thumbnail
   * changes nothing about the later ones.
   */
  lemma SavedFilesAppend(a: seq<Thumb>, b: seq<Thumb>, first: nat, step: Step)
    ensures SavedFiles(a + b, first, step) == SavedFiles(a, first, step) + SavedFiles(b, first + |a|, step)
  {
    SavedFilesAreKeptOutcomes(a + b, first, step);
    SavedFilesAreKeptOutcomes(a, first, step);
    SavedFilesAreKeptOutcomes(b, first + |a|, step);
    OutcomesAppend(a, b, first, step);
    KeptAppend(Outcomes(a, first, step), Outcomes(b, first + |a|, step));
  }

  /** One more thumbnail of the walk adds its own file, if any, at the end. */
  lemma SavedFilesSnoc(ts: seq<Thumb>, idx: nat, step: Step)
    requires 1 <= idx <= |ts|
    ensures SavedFiles(ts[..idx], 1, step) == SavedFiles(ts[..idx - 1], 1, step) + FilesOf(step(ts[idx - 1], idx))
  {
    assert ts[..idx][..idx - 1] == ts[..idx - 1];
  }

  /** The walk's files are the outcomes' files, counted from the front: both readings agree. */
  lemma {:induction false} SavedFilesAreKeptOutcomes(ts: seq<Thumb>, first: nat, step: Step)
    ensures SavedFiles(ts, first, step) == Kept(Outcomes(ts, first, step))
    decreases |ts|
  {
    if ts != [] {
      var init, last := ts[..|ts| - 1], ts[|ts| - 1];
      SavedFilesAreKeptOutcomes(init, first, step);
      assert ts == init + [last];
      OutcomesAppend(init, [last], first, step);
      KeptAppend(Outcomes(init, first, step), Outcomes([last], first + |init|, step));
      assert Outcomes([last], first + |init|, step) == [step(last, first + |init|)];
      KeptSingle(step(last, first + |init|));
    }
  }

  /** Every written file is the outcome of one thumbnail, at the ordinal of its position. */
  lemma SavedFileHasOrigin(ts: seq<Thumb>, first: nat, step: Step, f: SavedFile)
    requires f in SavedFiles(ts, first, step)
    ensures exists k :: 0 <= k < |ts| && step(ts[k], first + k) == Some(f)
  {
    var os := Outcomes(ts, first, step);
    SavedFilesAreKeptOutcomes(ts, first, step);
    KeptMember(os, f);
    var k :| 0 <= k < |os| && os[k] == Some(f);
    OutcomesAt(ts, first, step, k);
  }

  /** Every thumbnail that yields an image has its file written. */
  lemma SuccessIsSaved(ts: seq<Thumb>, first: nat, step: Step, k: nat)
    requires k < |ts| && step(ts[k], first + k).Some?
    ensures step(ts[k], first + k).value in SavedFiles(ts, first, step)
  {
    var os := Outcomes(ts, first, step);
    SavedFilesAreKeptOutcomes(ts, first, step);
    OutcomesAt(ts, first, step, k);
    KeptMember(os, os[k].value);
  }

  /** The positions among `ts` whose thumbnail yields a file. */
  ghost function Successes(ts: seq<Thumb>, first: nat, step: Step): set<nat> {
    set k: nat | k < |ts| && step(ts[k], first + k).Some?
  }

  /** Exactly one file is written per thumbnail that yields one. */
  lemma {:induction false} OneFilePerSuccess(ts: seq<Thumb>, first: nat, step: Step)
    ensures |SavedFiles(ts, first, step)| == |Successes(ts, first, step)|
    decreases |ts|
  {
    if ts != [] {
      var n := |ts| - 1;
      OneFilePerSuccess(ts[..n], first, step);
      SuccessesSnoc(ts, first, step);
    }
  }

  /** The last thumbnail adds its own position to the successes, or nothing. */
  lemma SuccessesSnoc(ts: seq<Thumb>, first: nat, step: Step)
    requires ts != []
    ensures var n := |ts| - 1;
      |Successes(ts, first, step)| == |Successes(ts[..n], first, step)| + |FilesOf(step(ts[n], first + n))|
  {
    var n := |ts| - 1;
    var init := ts[..n];
    assert forall k :: 0 <= k < n ==> init[k] == ts[k];
    if step(ts[n], first + n).Some? {
      assert Successes(ts, first, step) == Successes(init, first, step) + {n};
      assert n !in Successes(init, first, step);
    } else {
      assert Successes(ts, first, step) == Successes(init, first, step);
    }
  }

  /** `f`'s name carries ordinal `idx`: the fixed prefix, the ordinal's digits, then `_de_`. */
  predicate Numbered(f: SavedFile, idx: nat) {
    StartsWith(f.name, FILE_PREFIX + Decimal(idx) + OF)
  }

  /** Naming two different ordinals never gives the same name. */
  lemma NumberedSeparates()
    ensures forall f, g, i, j :: Numbered(f, i) && Numbered(g, j) && i != j ==> f.name != g.name
  {
    forall f, g, i, j | Numbered(f, i) && Numbered(g, j) && i != j ensures f.name != g.name {
      if f.name == g.name {
        OrdinalPrefixUnique(f.name, i, j);
      }
    }
  }

  /** A relation between a file and the ordinal whose name it bears. */
  type Tag = (SavedFile, nat) -> bool

  /** Every outcome present among `os` bears its own ordinal, counting from `first`. */
  predicate TaggedFrom(os: seq<Option<SavedFile>>, first: nat, tag: Tag) {
    forall k :: 0 <= k < |os| && os[k].Some? ==> tag(os[k].value, first + k)
  }

  lemma OutcomesTagged(ts: seq<Thumb>, first: nat, step: Step, tag: Tag)
    requires forall t: Thumb, k: nat :: step(t, k).Some? ==> tag(step(t, k).value, k)
    ensures TaggedFrom(Outcomes(ts, first, step), first, tag)
  {
    var os := Outcomes(ts, first, step);
    forall k | 0 <= k < |os| && os[k].Some? ensures tag(os[k].value, first + k) {
      OutcomesAt(ts, first, step, k);
    }
  }

  /** A kept file bears the ordinal of the outcome it came from. */
  lemma KeptTagged(os: seq<Option<SavedFile>>, first: nat, tag: Tag, g: SavedFile)
    requires TaggedFrom(os, first, tag) && g in Kept(os)
    ensures exists k: nat :: first <= k < first + |os| && tag(g, k)
  {
    KeptMember(os, g);
    var j :| 0 <= j < |os| && os[j] == Some(g);
    assert tag(g, first + j);
  }

  /** `f` is the file name the script builds for ordinal `k` of `total`, with some dotted extension. */
  ghost predicate NamedOf(total: nat, f: SavedFile, k: nat) {
    exists e :: |e| > 0 && e[0] == '.' && f.name == FileName(k, total, e)
  }

  /** A thumbnail's file is named after its ordinal and the total fixed before the loop. */
  lemma OutcomeNamedOf(t: Thumb, idx: nat, total: nat, s: Session)
    ensures Outcome(t, idx, total, s).Some? ==> NamedOf(total, Outcome(t, idx, total, s).value, idx)
  {
    OutcomeWritesFetchedBytes(t, idx, total, s);
    if Outcome(t, idx, total, s).Some? {
      var e := Extension(FinalImageUrl(t.viewer.image).url.value);
      ExtensionRule(FinalImageUrl(t.viewer.image).url.value);
      assert |e| > 0 && e[0] == '.';
    }
  }

  /**
   * Every file a walk over `total` thumbnails writes is `NOMBREDEARCHIVO_{k}_de_{total}{ext}`
   * for an ordinal `k` of the walk: the denominator is the same for all of them.
   */
  lemma RunStepNamedOf(total: nat, s: Session)
    ensures forall t: Thumb, k: nat :: RunStep(total, s)(t, k).Some? ==> NamedOf(total, RunStep(total, s)(t, k).value, k)
  {
    forall t: Thumb, k: nat ensures RunStep(total, s)(t, k).Some? ==> NamedOf(total, RunStep(total, s)(t, k).value, k) {
      OutcomeNamedOf(t, k, total, s);
    }
  }

  /** A written file bears the tag its step gives every file, at some ordinal of the walk. */
  lemma SavedTagged(ts: seq<Thumb>, first: nat, step: Step, tag: Tag, f: SavedFile)
    requires forall t: Thumb, k: nat :: step(t, k).Some? ==> tag(step(t, k).value, k)
    requires f in SavedFiles(ts, first, step)
    ensures exists k: nat :: first <= k < first + |ts| && tag(f, k)
  {
    SavedFilesAreKeptOutcomes(ts, first, step);
    OutcomesTagged(ts, first, step, tag);
    KeptTagged(Outcomes(ts, first, step), first, tag, f);
  }

  /**
   * Every file a walk over `total` thumbnails writes is `NOMBREDEARCHIVO_{k}_de_{total}{ext}`
   * for an ordinal `k` of the walk: the denominator is the same for all of them.
   */
  lemma SavedNameIs(ts: seq<Thumb>, first: nat, total: nat, s: Session, f: SavedFile)
    requires f in SavedFiles(ts, first, RunStep(total, s))
    ensures exists k: nat, e :: first <= k < first + |ts| && |e| > 0 && e[0] == '.' && f.name == FileName(k, total, e)
  {
    var tag: Tag := (g: SavedFile, k: nat) => NamedOf(total, g, k);
    RunStepNamedOf(total, s);
    SavedTagged(ts, first, RunStep(total, s), tag, f);
    var k: nat :| first <= k < first + |ts| && tag(f, k);
    assert NamedOf(total, f, k);
  }

  /**
   * `f` is the file thumbnail `t` writes as number `idx` of `total`: its viewer opened, the
   * resolver gave a non-empty value, and `f` holds the downloaded bytes under
   * `NOMBREDEARCHIVO_{idx}_de_{total}{ext}`, `ext` taken from the resolved value.
   */
  ghost predicate FileOfThumb(t: Thumb, idx: nat, total: nat, s: Session, f: SavedFile) {
    t.viewer.Shown? &&
    var url := FinalImageUrl(t.viewer.image).url;
    url.Some? && url.value != "" &&
    GetImageBytes(url, s.pageUrl, s.lib, t.server).result == Data(f.data) && f.data != [] &&
    f.name == FileName(idx, total, Extension(url.value))
  }

  lemma OutcomeFile(t: Thumb, idx: nat, total: nat, s: Session, f: SavedFile)
    requires Outcome(t, idx, total, s) == Some(f)
    ensures FileOfThumb(t, idx, total, s, f)
  {
    OutcomeWritesFetchedBytes(t, idx, total, s);
  }

  /** Among the first `n` thumbnails, every one that yields a file has it written. */
  lemma SuccessInPrefix(thumbs: seq<Thumb>, n: nat, first: nat, step: Step, k: nat)
    requires k < n <= |thumbs| && step(thumbs[k], first + k).Some?
    ensures step(thumbs[k], first + k).value in SavedFiles(thumbs[..n], first, step)
  {
    var ts := thumbs[..n];
    assert ts[k] == thumbs[k];
    SuccessIsSaved(ts, first, step, k);
  }

  /**
   * The thumbnail at position `k + 1` of the walk, if it was reached and yields a file, has
   * that file written, named `NOMBREDEARCHIVO_{k + 1}_de_{|thumbs|}{ext}`.
   */
  lemma WalkFileNamed(thumbs: seq<Thumb>, s: Session, k: nat)
    requires k < Reached(thumbs) && Outcome(thumbs[k], k + 1, |thumbs|, s).Some?
    ensures var f := Outcome(thumbs[k], k + 1, |thumbs|, s).value;
      && f in SavedFiles(thumbs[..Reached(thumbs)], 1, RunStep(|thumbs|, s))
      && FileOfThumb(thumbs[k], k + 1, |thumbs|, s, f)
  {
    RunStepIsOutcome(|thumbs|, s, thumbs[k], 1 + k);
    SuccessInPrefix(thumbs, Reached(thumbs), 1, RunStep(|thumbs|, s), k);
    OutcomeFile(thumbs[k], k + 1, |thumbs|, s, Outcome(thumbs[k], k + 1, |thumbs|, s).value);
  }

  predicate DistinctNames(files: seq<SavedFile>) {
    forall a, b :: 0 <= a < b < |files| ==> files[a].name != files[b].name
  }

  /** Outcomes that bear their ordinals keep distinct names, when distinct ordinals mean distinct names. */
  lemma {:induction false} KeptNamesDistinct(os: seq<Option<SavedFile>>, first: nat, tag: Tag)
    requires TaggedFrom(os, first, tag)
    requires forall f, g, i, j :: tag(f, i) && tag(g, j) && i != j ==> f.name != g.name
    ensures DistinctNames(Kept(os))
    decreases |os|
  {
    if os != [] {
      var tail := os[1..];
      assert TaggedFrom(tail, first + 1, tag) by {
        forall k | 0 <= k < |tail| && tail[k].Some? ensures tag(tail[k].value, first + 1 + k) {
          assert tail[k] == os[k + 1];
        }
      }
      KeptNamesDistinct(tail, first + 1, tag);
      match os[0]
      case None =>
      case Some(f) =>
        assert tag(f, first);
        forall g | g in Kept(tail) ensures g.name != f.name {
          KeptTagged(tail, first + 1, tag, g);
        }
        DistinctCons(f, Kept(tail));
    }
  }

  /** No two files of a walk share a name, so none overwrites another. */
  lemma SavedNamesDistinct(ts: seq<Thumb>, first: nat, total: nat, s: Session)
    ensures DistinctNames(SavedFiles(ts, first, RunStep(total, s)))
  {
    RunStepNumbered(total, s);
    NumberedSeparates();
    SavedFilesAreKeptOutcomes(ts, first, RunStep(total, s));
    OutcomesTagged(ts, first, RunStep(total, s), Numbered);
    KeptNamesDistinct(Outcomes(ts, first, RunStep(total, s)), first, Numbered);
  }

  lemma DistinctCons(f: SavedFile, rest: seq<SavedFile>)
    requires DistinctNames(rest)
    requires forall g :: g in rest ==> g.name != f.name
    ensures DistinctNames([f] + rest)
  {
    var all := [f] + rest;
    forall a, b | 0 <= a < b < |all| ensures all[a].name != all[b].name {
      assert all[b] == rest[b - 1];
      if a > 0 { assert all[a] == rest[a - 1]; }
    }
  }
}
