/**
 * The command entry point of ohc-uploader.py (`main` and `list_tasks_mode`)
 * as a decision function: from the configuration, the command-line flag, the
 * local files and the replies the service would give, it yields the exit
 * code, the requests sent (in order) and the overflow file written.
 *
 * The service is not called: each of the two requests a run can make is
 * represented by the reply it would get, and the outcome records which
 * requests were actually made.
 */
module Uploader {
  import opened Wrappers
  import opened Sequences
  import opened Collector
  import opened Tasks
  import opened Reconcile

  /** `ALGO_MODE`: the hash mode sent with every upload (WPA-PBKDF2-PMKID+EAPOL). */
  const AlgoMode: int := 22000

  /** The only accepted value of `AGREE_TERMS`. */
  const TermsAgreed: string := "yes"

  /** The prefix of the placeholder key the script ships with (`sk_XXXXXX`). */
  const PlaceholderKeyPrefix: string := "sk_XXX"

  /** `API_KEY` and `AGREE_TERMS`, fixed constants of the script, given here as inputs. */
  datatype Config = Config(apiKey: string, agreeTerms: string)

  /** A request sent to the service, with the payload fields the script sets. */
  datatype Request =
    | ListTasks(apiKey: string, agreeTerms: string)
    | Upload(apiKey: string, agreeTerms: string, algoMode: int, hashes: seq<string>)

  /**
   * The result of one `ohc_post`: a transport failure (`requests.RequestException`),
   * or an HTTP status with the truthiness of the body's `success` field
   * (false when the field is missing or the body is not JSON) and its `tasks` field.
   */
  datatype Response =
    | NetworkError
    | Reply(httpStatus: int, success: bool, tasks: Option<seq<Task>>)

  /** What a run does: its exit code, the requests it sent in order, and the overflow file text it wrote. */
  datatype Outcome = Outcome(exitCode: int, requests: seq<Request>, overflowFile: Option<string>)

  predicate StartsWith(s: string, prefix: string) {
    |prefix| <= |s| && s[..|prefix|] == prefix
  }

  /** A key is configured when it is non-empty and, once stripped, is not the placeholder. */
  predicate KeyConfigured(apiKey: string) {
    apiKey != [] && !StartsWith(Strip(apiKey), PlaceholderKeyPrefix)
  }

  /** The checks `main` makes before anything else, in either mode. */
  predicate ConfigValid(cfg: Config) {
    KeyConfigured(cfg.apiKey) && cfg.agreeTerms == TermsAgreed
  }

  /** The shipped placeholder key is refused, and so is the empty key. */
  lemma PlaceholderKeyRefused()
    ensures !KeyConfigured("")
    ensures !KeyConfigured("sk_XXXXXX")
  {
    var key := "sk_XXXXXX";
    assert LeadingSpaces(key) == 0 && TrailingSpaces(key) == 0;
    assert key[..6] == PlaceholderKeyPrefix;
  }

  /** Whitespace around the placeholder does not hide it: the key is stripped before the prefix test. */
  lemma PaddedPlaceholderRefused()
    ensures !KeyConfigured(" sk_XXXXXX\n")
  {
    var key := "sk_XXXXXX";
    var padded := " " + key + "\n";
    assert padded[1..] == key + "\n";
    assert LeadingSpaces(key + "\n") == 0;
    assert LeadingSpaces(padded) == 1;
    assert (key + "\n")[..|key|] == key;
    assert TrailingSpaces(key) == 0;
    assert TrailingSpaces(key + "\n") == 1;
    assert Strip(padded) == key;
    assert key[..6] == PlaceholderKeyPrefix;
  }

  /**
   * A real-looking key passes the check, and so does a key of whitespace
   * only: it is non-empty and strips to a text without the placeholder prefix.
   */
  lemma OtherKeysAccepted()
    ensures KeyConfigured("sk_live_1")
    ensures KeyConfigured("  ")
  {
    assert Strip("sk_live_1") == "sk_live_1";
    assert "sk_live_1"[..6][3] != PlaceholderKeyPrefix[3];
    assert Strip("  ") == "";
  }

  /** A reply the script accepts: HTTP status below 400 and a truthy `success`. */
  predicate Succeeded(r: Response) {
    r.Reply? && r.httpStatus < 400 && r.success
  }

  /** The exit code the script gives for the reply to its last request. */
  function ExitForReply(r: Response): (code: int)
    ensures code == 4 <==> r.NetworkError?
    ensures code == 3 <==> r.Reply? && !Succeeded(r)
    ensures code == 0 <==> Succeeded(r)
  {
    match r
    case NetworkError => 4
    case Reply(status, success, _) => if status >= 400 || !success then 3 else 0
  }

  /** `list_tasks_mode`: one list request, the exit code follows its reply. */
  function ListTasksMode(cfg: Config, listReply: Response): Outcome {
    Outcome(ExitForReply(listReply), [ListTasks(cfg.apiKey, cfg.agreeTerms)], None)
  }

  /** The upload step: one request carrying `batch`, the exit code follows its reply. */
  function UploadStep(cfg: Config, listRequest: Request, batch: seq<string>, uploadReply: Response): Outcome {
    var upload := Upload(cfg.apiKey, cfg.agreeTerms, AlgoMode, batch);
    Outcome(ExitForReply(uploadReply), [listRequest, upload], None)
  }

  /** Normal mode once the task list arrived: reconcile, then submit or write the overflow. */
  function AfterListing(cfg: Config, hashes: seq<string>, listReply: Response, uploadReply: Response): (o: Outcome)
    requires Succeeded(listReply)
    ensures o.exitCode in {0, 1, 3, 4}
    ensures o.exitCode == 1 <==> o.overflowFile.Some?
    ensures 1 <= |o.requests| <= 2 && o.requests[0] == ListTasks(cfg.apiKey, cfg.agreeTerms)
    ensures |o.requests| == 2 ==>
              o.requests[1] == Upload(cfg.apiKey, cfg.agreeTerms, AlgoMode, NewHashes(hashes, ExistingHashes(listReply.tasks)))
  {
    var listRequest := ListTasks(cfg.apiKey, cfg.agreeTerms);
    var newHashes := NewHashes(hashes, ExistingHashes(listReply.tasks));
    if newHashes == [] then Outcome(0, [listRequest], None)
    else
      match SubmissionGate(newHashes)
      case Withhold(overflow) => Outcome(1, [listRequest], Some(OverflowText(overflow)))
      case SubmitAll(batch) => UploadStep(cfg, listRequest, batch, uploadReply)
  }

  /** Normal mode: collect, list the tasks, and only on a successful listing go on. */
  function NormalMode(cfg: Config, files: seq<seq<string>>, listReply: Response, uploadReply: Response): (o: Outcome)
    ensures o.exitCode in {0, 1, 3, 4}
    ensures o.exitCode == 1 <==> o.overflowFile.Some?
    ensures |o.requests| <= 2 && (o.requests != [] ==> o.requests[0] == ListTasks(cfg.apiKey, cfg.agreeTerms))
    ensures |o.requests| == 2 ==>
              && listReply.Reply?
              && o.requests[1] == Upload(cfg.apiKey, cfg.agreeTerms, AlgoMode,
                                         NewHashes(CollectedHashes(files), ExistingHashes(listReply.tasks)))
  {
    var hashes := CollectedHashes(files);
    var listRequest := ListTasks(cfg.apiKey, cfg.agreeTerms);
    if hashes == [] then Outcome(0, [], None)
    else if !Succeeded(listReply) then Outcome(ExitForReply(listReply), [listRequest], None)
    else AfterListing(cfg, hashes, listReply, uploadReply)
  }

  /**
   * `main`: the configuration checks come first in both modes; then the
   * `-list` flag selects list mode, otherwise normal mode runs. `listReply`
   * and `uploadReply` are the replies the service would give to the list and
   * the upload request, used only if that request is made.
   */
  function Run(cfg: Config, listFlag: bool, files: seq<seq<string>>, listReply: Response, uploadReply: Response): (o: Outcome)
    ensures 0 <= o.exitCode <= 4
    ensures o.exitCode == 2 <==> !ConfigValid(cfg)
    ensures !ConfigValid(cfg) ==> o.requests == [] && o.overflowFile == None
    ensures o.exitCode == 1 <==> o.overflowFile.Some?
    ensures |o.requests| <= 2
    ensures o.requests != [] ==> o.requests[0] == ListTasks(cfg.apiKey, cfg.agreeTerms)
    ensures |o.requests| == 2 ==>
              && !listFlag && listReply.Reply?
              && o.requests[1] == Upload(cfg.apiKey, cfg.agreeTerms, AlgoMode,
                                         NewHashes(CollectedHashes(files), ExistingHashes(listReply.tasks)))
  {
    if !ConfigValid(cfg) then Outcome(2, [], None)
    else if listFlag then ListTasksMode(cfg, listReply)
    else NormalMode(cfg, files, listReply, uploadReply)
  }

  /** The hashes a successful listing leaves to submit. */
  function NewHashesOf(files: seq<seq<string>>, listReply: Response): seq<string>
    requires listReply.Reply?
  {
    NewHashes(CollectedHashes(files), ExistingHashes(listReply.tasks))
  }

  // ---------------------------------------------------------------------------
  // Properties of a run

  /** List mode sends one list request and nothing else; its exit code is 0, 3 or 4 by the reply. */
  lemma ListModeOutcome(cfg: Config, files: seq<seq<string>>, listReply: Response, uploadReply: Response)
    requires ConfigValid(cfg)
    ensures var o := Run(cfg, true, files, listReply, uploadReply);
            && o.requests == [ListTasks(cfg.apiKey, cfg.agreeTerms)]
            && o.overflowFile == None
            && (o.exitCode == 4 <==> listReply.NetworkError?)
            && (o.exitCode == 3 <==> listReply.Reply? && !Succeeded(listReply))
            && (o.exitCode == 0 <==> Succeeded(listReply))
  {
  }

  /**
   * With no hash line in any file (in particular with no files), a normal run
   * exits 0 without any request and without writing the overflow file.
   */
  lemma NoLocalHashesExit(cfg: Config, files: seq<seq<string>>, listReply: Response, uploadReply: Response)
    requires ConfigValid(cfg)
    requires forall f, l :: 0 <= f < |files| && 0 <= l < |files[f]| ==> !IsHashLine(files[f][l])
    ensures Run(cfg, false, files, listReply, uploadReply) == Outcome(0, [], None)
  {
    CollectedEmptyIff(files);
  }

  /**
   * A failed listing stops a normal run after the list request: exit 4 on a
   * network error, 3 on an error status or a false `success`, and no upload.
   */
  lemma ListingFailureStops(cfg: Config, files: seq<seq<string>>, listReply: Response, uploadReply: Response)
    requires ConfigValid(cfg) && CollectedHashes(files) != []
    requires !Succeeded(listReply)
    ensures var o := Run(cfg, false, files, listReply, uploadReply);
            && o.requests == [ListTasks(cfg.apiKey, cfg.agreeTerms)]
            && o.overflowFile == None
            && o.exitCode == (if listReply.NetworkError? then 4 else 3)
  {
  }

  /** When every local hash is already on the account, the run exits 0 after the listing alone. */
  lemma NothingNewExit(cfg: Config, files: seq<seq<string>>, listReply: Response, uploadReply: Response)
    requires ConfigValid(cfg) && CollectedHashes(files) != [] && Succeeded(listReply)
    requires forall h :: h in CollectedHashes(files) ==> h in ExistingHashes(listReply.tasks)
    ensures Run(cfg, false, files, listReply, uploadReply) == Outcome(0, [ListTasks(cfg.apiKey, cfg.agreeTerms)], None)
  {
    var n := NewHashesOf(files, listReply);
    if n != [] {
      ElementAt(n, 0);
      assert false;
    }
  }

  /**
   * More than the cap of new hashes: no upload, exit 1, and the overflow file
   * holds the new hashes after the first fifty, which read back exactly when
   * the input lines are lines as a file yields them.
   */
  lemma OverflowOutcome(cfg: Config, files: seq<seq<string>>, listReply: Response, uploadReply: Response)
    requires ConfigValid(cfg) && Succeeded(listReply)
    requires |NewHashesOf(files, listReply)| > MaxHashesPerRequest
    requires forall f, l :: 0 <= f < |files| && 0 <= l < |files[f]| ==> IsFileLine(files[f][l])
    ensures var o := Run(cfg, false, files, listReply, uploadReply);
            var overflow := NewHashesOf(files, listReply)[MaxHashesPerRequest..];
            && o.exitCode == 1
            && o.requests == [ListTasks(cfg.apiKey, cfg.agreeTerms)]
            && o.overflowFile == Some(OverflowText(overflow))
            && |overflow| == |NewHashesOf(files, listReply)| - MaxHashesPerRequest
            && ParseOverflow(o.overflowFile.value) == overflow
  {
    var n := NewHashesOf(files, listReply);
    var hashes := CollectedHashes(files);
    ElementAt(n, 0);
    assert hashes != [];
    var overflow := n[MaxHashesPerRequest..];
    AllHashesHaveNoNewline(files);
    forall i | 0 <= i < |overflow| ensures '\n' !in overflow[i] {
      assert overflow[i] == n[MaxHashesPerRequest + i];
      assert n[MaxHashesPerRequest + i] in n;
      DedupElements(AllHashes(files), overflow[i]);
    }
    OverflowRoundTrip(overflow);
  }

  /**
   * Between one and fifty new hashes: exactly one upload, after the listing,
   * carrying all new hashes in order; the exit code follows the upload's
   * reply (a timeout gives 4) and no overflow file is written.
   */
  lemma SubmitOutcome(cfg: Config, files: seq<seq<string>>, listReply: Response, uploadReply: Response)
    requires ConfigValid(cfg) && Succeeded(listReply)
    requires 0 < |NewHashesOf(files, listReply)| <= MaxHashesPerRequest
    ensures var o := Run(cfg, false, files, listReply, uploadReply);
            && o.requests == [ListTasks(cfg.apiKey, cfg.agreeTerms),
                              Upload(cfg.apiKey, TermsAgreed, AlgoMode, NewHashesOf(files, listReply))]
            && o.overflowFile == None
            && o.exitCode == ExitForReply(uploadReply)
  {
    var n := NewHashesOf(files, listReply);
    ElementAt(n, 0);
    assert CollectedHashes(files) != [];
  }

  /**
   * Whenever a run uploads, it made the list request first and that listing
   * succeeded; the upload is its second and last request and carries between
   * one and fifty distinct hashes, none of them already on the account, all
   * of them collected locally and in collection order.
   */
  lemma UploadOnlyAfterSuccessfulListing(cfg: Config, listFlag: bool, files: seq<seq<string>>, listReply: Response, uploadReply: Response, i: int)
    requires var o := Run(cfg, listFlag, files, listReply, uploadReply);
             0 <= i < |o.requests| && o.requests[i].Upload?
    ensures var o := Run(cfg, listFlag, files, listReply, uploadReply);
            var batch := o.requests[i].hashes;
            && i == 1 && |o.requests| == 2
            && o.requests[0] == ListTasks(cfg.apiKey, cfg.agreeTerms)
            && Succeeded(listReply)
            && !listFlag && ConfigValid(cfg)
            && 0 < |batch| <= MaxHashesPerRequest
            && NoDuplicates(batch)
            && (forall h :: h in batch ==> h !in ExistingHashes(listReply.tasks))
            && IsSubsequence(batch, CollectedHashes(files))
            && o.overflowFile == None
  {
    var hashes := CollectedHashes(files);
    DedupNoDuplicates(AllHashes(files));
    NewHashesNoDuplicates(hashes, ExistingHashes(listReply.tasks));
  }

  /**
   * Reconciliation is a set difference and a partition: each collected hash is
   * either new or already on the account, never both, and the number skipped
   * is the number of collected hashes already on the account.
   */
  lemma ReconcilePartition(files: seq<seq<string>>, listReply: Response)
    requires listReply.Reply?
    ensures var hashes := CollectedHashes(files);
            var existing := ExistingHashes(listReply.tasks);
            var n := NewHashesOf(files, listReply);
            && (forall h :: h in hashes ==> (h in n <==> h !in existing))
            && (forall h :: h in n ==> h in hashes)
            && IsSubsequence(n, hashes)
            && NoDuplicates(n)
            && |hashes| - |n| == |(set h | h in hashes) * existing|
  {
    var hashes := CollectedHashes(files);
    DedupNoDuplicates(AllHashes(files));
    NewHashesNoDuplicates(hashes, ExistingHashes(listReply.tasks));
    SkippedCount(hashes, ExistingHashes(listReply.tasks));
  }
}
