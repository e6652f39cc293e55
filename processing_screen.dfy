/**
 * The two pure pieces of the processing screen: deriving the video's
 * basename from its upload path, and the update a progress poll makes to
 * the screen (the progress shown, the step label, and whether the poll
 * timer and the five-minute fallback timer are still armed).
 */
module ProcessingScreen {
  import opened JsText

  // ---------------------------------------------------------------------
  // Basename: path.split("/").pop() || "", then .replace(/\.[^/.]+$/, "")
  // ---------------------------------------------------------------------

  /**
   * The last `/`-separated piece of the path: a suffix of `path` with no
   * `/`, preceded by `/` unless it is the whole path. (`pop()` of a split
   * is never undefined, so the `|| ""` fallback changes nothing.)
   */
  function FileName(path: string): (name: string)
    ensures '/' !in name
    ensures |name| <= |path| && path[|path| - |name|..] == name
    ensures |name| < |path| ==> path[|path| - |name| - 1] == '/'
  {
    var name := Last(Split(path, '/'));
    assert name == AfterLast(path, '/') by { LastOfSplit(path, '/'); }
    AfterLastIsLast(path, '/');
    name
  }

  /**
   * The pattern `\.[^/.]+$` matches at `i`: a dot, then at least one
   * character, none of them a dot or a slash, up to the end of the string.
   */
  predicate ExtensionAt(s: string, i: int) {
    && 0 <= i < |s| - 1
    && s[i] == '.'
    && forall j :: i < j < |s| ==> s[j] != '.' && s[j] != '/'
  }

  /** The pattern matches at one position at most. */
  lemma ExtensionUnique(s: string, i: int, k: int)
    requires ExtensionAt(s, i) && ExtensionAt(s, k)
    ensures i == k
  {
  }

  /** The leftmost position at or after `from` where the pattern matches. */
  function FirstMatchFrom(s: string, from: nat): (m: int)
    requires from <= |s|
    ensures m == -1 || (from <= m < |s| && ExtensionAt(s, m))
    ensures m == -1 ==> forall i :: from <= i < |s| ==> !ExtensionAt(s, i)
    decreases |s| - from
  {
    if from == |s| then -1
    else if ExtensionAt(s, from) then from
    else FirstMatchFrom(s, from + 1)
  }

  /**
   * `name.replace(/\.[^/.]+$/, "")`: the final extension removed when the
   * name ends in one, the name unchanged otherwise.
   */
  function StripExtension(name: string): (r: string)
    ensures forall i :: ExtensionAt(name, i) ==> r == name[..i]
    ensures (forall i :: 0 <= i < |name| ==> !ExtensionAt(name, i)) ==> r == name
  {
    var m := FirstMatchFrom(name, 0);
    if m < 0 then name
    else
      assert forall i :: ExtensionAt(name, i) ==> i == m by {
        forall i | ExtensionAt(name, i) ensures i == m { ExtensionUnique(name, i, m); }
      }
      name[..m]
  }

  /** The basename the progress endpoint is polled with. */
  function VideoBasename(path: string): (b: string)
    ensures '/' !in b && |b| <= |path|
  {
    var name := FileName(path);
    StripExtensionShape(name);
    var b := StripExtension(name);
    assert '/' !in b by {
      assert forall j :: 0 <= j < |b| ==> b[j] == name[j];
    }
    b
  }

  /** Only the text after the last dot goes, and only when it is a real extension. */
  lemma StripExtensionShape(name: string)
    ensures var r := StripExtension(name);
            && (r == name || (|r| < |name| - 1 && name[..|r|] == r && name[|r|] == '.'))
            && ('.' !in name ==> r == name)
            && (|name| > 0 && name[|name| - 1] == '.' ==> r == name)
  {
  }

  /** The file name is what follows the last slash. */
  lemma FileNameAfterLastSlash(dir: string, name: string)
    requires '/' !in name
    ensures FileName(dir + "/" + name) == name
  {
    var path := dir + "/" + name;
    var r := FileName(path);
    assert path[|path| - |name|..] == name;
    assert path[|dir|] == '/';
    assert forall k :: |path| - |r| <= k < |path| ==> path[k] == r[k - (|path| - |r|)];
    assert forall k :: |dir| < k < |path| ==> path[k] == name[k - |dir| - 1];
  }

  /** A name ending in a dot and an extension loses exactly that suffix. */
  lemma StripsExtension(stem: string, ext: string)
    requires ext != [] && '.' !in ext && '/' !in ext
    ensures StripExtension(stem + "." + ext) == stem
  {
    var name := stem + "." + ext;
    assert name[..|stem|] == stem;
    assert name[|stem|] == '.';
    assert forall j :: |stem| < j < |name| ==> name[j] == ext[j - |stem| - 1];
    assert ExtensionAt(name, |stem|);
  }

  /** The basename of a path `dir/stem.ext` is `stem`. */
  lemma BasenameOf(dir: string, stem: string, ext: string)
    requires '/' !in stem
    requires ext != [] && '.' !in ext && '/' !in ext
    ensures VideoBasename(dir + "/" + stem + "." + ext) == stem
  {
    var name := stem + "." + ext;
    assert '/' !in name by {
      assert forall j :: 0 <= j < |name| ==> name[j] == (if j < |stem| then stem[j] else if j == |stem| then '.' else ext[j - |stem| - 1]);
    }
    assert dir + "/" + stem + "." + ext == dir + "/" + name;
    FileNameAfterLastSlash(dir, name);
    StripsExtension(stem, ext);
  }

  lemma BasenameOfUploadPath()
    ensures VideoBasename("/uploads/1760789903437.mp4") == "1760789903437"
  {
    assert "/uploads/1760789903437.mp4" == "/uploads" + "/" + "1760789903437" + "." + "mp4";
    BasenameOf("/uploads", "1760789903437", "mp4");
  }

  lemma StripExtensionExamples()
    ensures StripExtension("a.b.mp4") == "a.b"
    ensures StripExtension("video.") == "video."
    ensures StripExtension("video") == "video"
  {
    assert "a.b.mp4" == "a.b" + "." + "mp4";
    StripsExtension("a.b", "mp4");
    StripExtensionShape("video.");
    StripExtensionShape("video");
  }

  /** A path with no `/` is its own file name. */
  lemma FileNameWithoutSlash(path: string)
    requires '/' !in path
    ensures FileName(path) == path
  {
  }

  /** A path ending in `/` has the empty file name. */
  lemma FileNameOfDirectory(path: string)
    requires path != [] && path[|path| - 1] == '/'
    ensures FileName(path) == ""
  {
  }

  // ---------------------------------------------------------------------
  // The progress poll
  // ---------------------------------------------------------------------

  /** The body of a successful response of the progress endpoint. */
  datatype ProgressData = ProgressData(originalCount: int, asciiCount: int, progress: int, isComplete: bool)

  /** What a thrown value carries: an `Error` with its message, or anything else. */
  datatype Thrown = ErrorObject(message: string) | OtherValue

  /** How one poll ends. */
  datatype PollOutcome =
    | Delivered(data: ProgressData)                // status ok and a JSON body
    | NotOk(status: int, statusText: string)       // `!progressResponse.ok`
    | Rejected(thrown: Thrown)                     // `fetch` or `.json()` threw

  /** Which branch of the if/else-if chain a delivered body takes. */
  datatype Branch = Extracting | Converting | Completing | NoBranch

  /**
   * The chain of tests on a delivered body. With the progress a whole number
   * the chain has no gap: exactly one of its three branches is taken.
   */
  function Classify(d: ProgressData): (b: Branch)
    ensures b != NoBranch
    ensures b == Extracting <==> d.originalCount == 0
    ensures d.originalCount != 0 ==> (b == Converting <==> d.progress < 100 && !d.isComplete)
    ensures d.originalCount != 0 ==> (b == Completing <==> d.isComplete || d.progress >= 100)
  {
    if d.originalCount == 0 then Extracting
    else if d.progress < 100 && !d.isComplete then Converting
    else if d.isComplete || d.progress >= 100 then Completing
    else NoBranch
  }

  const ExtractingLabel := "Extracting frames..."
  const CompleteLabel := "Complete!"

  /** The label while frames are being converted; it is never the completion label. */
  function ConvertingLabel(asciiCount: int, originalCount: int): (l: string)
    ensures l != CompleteLabel && l != ExtractingLabel
  {
    var l := "Converting to ASCII... (" + IntToString(asciiCount) + "/" + IntToString(originalCount) + ")";
    assert l[2] == 'n';
    l
  }

  /** The message of the error the catch block receives. */
  function FailureMessage(o: PollOutcome): string
    requires !o.Delivered?
  {
    match o
    case NotOk(status, statusText) =>
      "Progress endpoint failed: " + IntToString(status) + " " + statusText
    case Rejected(ErrorObject(message)) => message
    case Rejected(OtherValue) => "Unknown error"
  }

  /** The label of a failed poll; it is never the completion label. */
  function ErrorLabel(o: PollOutcome): (l: string)
    requires !o.Delivered?
    ensures l != CompleteLabel && l != ExtractingLabel
  {
    var l := "Error: " + FailureMessage(o);
    assert l[1] == 'r';
    l
  }

  /**
   * The screen's state as far as polling sees it: the progress shown, the
   * step label, whether the 500 ms poll interval and the five-minute
   * fallback timeout are armed, and how many completion callbacks have been
   * scheduled.
   */
  datatype ScreenState = ScreenState(
    progress: int,
    step: string,
    pollTimerArmed: bool,
    fallbackTimerArmed: bool,
    completionsScheduled: nat)

  /** The state right after polling has been started. */
  function PollingStarted(): (s: ScreenState)
    ensures s.pollTimerArmed && s.fallbackTimerArmed && s.completionsScheduled == 0
  {
    ScreenState(0, "Initializing...", true, true, 0)
  }

  /** What one call of `pollProgress` does to the screen's state. */
  function PollProgress(s: ScreenState, o: PollOutcome): (t: ScreenState)
    ensures !s.pollTimerArmed ==> !t.pollTimerArmed
    ensures !s.fallbackTimerArmed ==> !t.fallbackTimerArmed
    ensures t.completionsScheduled >= s.completionsScheduled
  {
    match o
    case Delivered(d) =>
      var shown := s.(progress := d.progress);
      (match Classify(d)
       case Extracting => shown.(step := ExtractingLabel)
       case Converting => shown.(step := ConvertingLabel(d.asciiCount, d.originalCount))
       case Completing =>
         shown.(step := CompleteLabel, pollTimerArmed := false, fallbackTimerArmed := false,
                completionsScheduled := s.completionsScheduled + 1)
       case NoBranch => shown)
    case _ => s.(step := ErrorLabel(o))
  }

  /** The "Complete!" branch is taken exactly when the body reports completion. */
  predicate ReportsCompletion(o: PollOutcome) {
    o.Delivered? && o.data.originalCount != 0 && (o.data.isComplete || o.data.progress >= 100)
  }

  /**
   * Only the "Complete!" branch stops polling: it disarms both timers and
   * schedules the completion callback; every other branch, the error branch
   * included, leaves the timers as they were and schedules nothing.
   */
  lemma OnlyCompletionStopsPolling(s: ScreenState, o: PollOutcome)
    ensures var t := PollProgress(s, o);
            && (t.step == CompleteLabel <==> ReportsCompletion(o))
            && (ReportsCompletion(o) ==>
                  !t.pollTimerArmed && !t.fallbackTimerArmed && t.completionsScheduled == s.completionsScheduled + 1)
            && (!ReportsCompletion(o) ==>
                  t.pollTimerArmed == s.pollTimerArmed && t.fallbackTimerArmed == s.fallbackTimerArmed
                  && t.completionsScheduled == s.completionsScheduled)
  {
  }

  /** While nothing has been extracted the step is "Extracting frames...", whatever else the body says. */
  lemma ExtractingWhileNoFrames(s: ScreenState, d: ProgressData)
    requires d.originalCount == 0
    ensures var t := PollProgress(s, Delivered(d));
            && t.step == ExtractingLabel && t.progress == d.progress
            && t.pollTimerArmed == s.pollTimerArmed && t.fallbackTimerArmed == s.fallbackTimerArmed
  {
  }

  /** A failed poll shows the error and changes nothing else. */
  lemma FailureKeepsPolling(s: ScreenState, o: PollOutcome)
    requires !o.Delivered?
    ensures var t := PollProgress(s, o);
            && t.step[..7] == "Error: " && t == s.(step := t.step)
  {
  }

  /** Once a body reports completion, polling from a freshly started screen has stopped. */
  lemma {:induction false} CompletionStopsTimers(os: seq<PollOutcome>)
    requires exists k :: 0 <= k < |os| && ReportsCompletion(os[k])
    ensures !Run(PollingStarted(), os).pollTimerArmed
    ensures Run(PollingStarted(), os).completionsScheduled > 0
  {
    var k :| 0 <= k < |os| && ReportsCompletion(os[k]);
    RunStaysStopped(PollingStarted(), os, k);
  }

  /** The state after a series of polls. */
  function Run(s: ScreenState, os: seq<PollOutcome>): (r: ScreenState)
    ensures r.completionsScheduled >= s.completionsScheduled
    decreases |os|
  {
    if os == [] then s else Run(PollProgress(s, os[0]), os[1..])
  }

  /** No poll re-arms a timer, and a scheduled completion is never withdrawn. */
  lemma {:induction false} RunStaysStopped(s: ScreenState, os: seq<PollOutcome>, k: nat)
    requires k < |os| && ReportsCompletion(os[k])
    ensures !Run(s, os).pollTimerArmed && !Run(s, os).fallbackTimerArmed
    ensures Run(s, os).completionsScheduled > s.completionsScheduled
    decreases |os|
  {
    OnlyCompletionStopsPolling(s, os[0]);
    var next := PollProgress(s, os[0]);
    if k == 0 {
      RunKeepsStopped(next, os[1..]);
    } else {
      RunStaysStopped(next, os[1..], k - 1);
    }
  }

  lemma {:induction false} RunKeepsStopped(s: ScreenState, os: seq<PollOutcome>)
    requires !s.pollTimerArmed && !s.fallbackTimerArmed
    ensures !Run(s, os).pollTimerArmed && !Run(s, os).fallbackTimerArmed
    ensures Run(s, os).completionsScheduled >= s.completionsScheduled
    decreases |os|
  {
    if os != [] {
      OnlyCompletionStopsPolling(s, os[0]);
      RunKeepsStopped(PollProgress(s, os[0]), os[1..]);
    }
  }
}
