/**
 * `ScanBlobFunction`: the blob trigger on the intake container, its
 * VirusTotal scan (cached report, else submit and poll), and the copy of a
 * non-clean blob into the quarantine container.
 *
 * The VirusTotal service is an oracle whose answers are given up front: the
 * report found for the file's content, the resource id a submission returns,
 * and the reports returned by successive polls.
 */
module VirusTotal {

  import opened Common
  import opened Storage

  /** The container the trigger watches (`"uploads/{name}"`). */
  const IntakeContainer: string := "uploads"
  const QuarantineContainer: string := "quarantine"

  /** `FileReportResponseCode`. */
  datatype ResponseCode = NotPresent | Present | Queued

  datatype FileReport = FileReport(responseCode: ResponseCode, positives: int)

  /** The oracle's answers, in the order the scan asks for them. */
  datatype OracleScript = OracleScript(
    cachedReport: FileReport,   // GetFileReportAsync(fileBytes)
    resource: string,           // ScanFileAsync(fileBytes, fileName).Resource
    polls: seq<FileReport>)     // GetFileReportAsync(resource), one per poll

  /** The calls the scan makes on VirusTotal, in order. */
  datatype OracleCall =
    | ReportForContent(content: seq<byte>)
    | SubmitFile(content: seq<byte>, fileName: string)
    | ReportForResource(resource: string)

  /**
   * The result of a scan: a verdict, or `StillPolling` when every poll in the
   * script came back without a report (the code would go on polling).
   */
  datatype ScanOutcome = Verdict(clean: bool) | StillPolling

  predicate IsPresent(report: FileReport)
  {
    report.responseCode == Present
  }

  /** The index of the first `Present` report, if any. */
  function FirstPresent(reports: seq<FileReport>): (r: Option<nat>)
    ensures r.Some? ==> r.value < |reports| && IsPresent(reports[r.value])
    ensures r.Some? ==> forall j | 0 <= j < r.value :: !IsPresent(reports[j])
    ensures r.None? ==> forall j | 0 <= j < |reports| :: !IsPresent(reports[j])
  {
    if reports == [] then None
    else if IsPresent(reports[0]) then Some(0)
    else
      match FirstPresent(reports[1..])
      case None => None
      case Some(i) => Some(i + 1)
  }

  /** Every report the scan may read: the cached one, then the polls. */
  function ReportsRead(oracle: OracleScript): seq<FileReport>
  {
    [oracle.cachedReport] + oracle.polls
  }

  /**
   * The verdict: not clean without an API key; otherwise `Positives == 0` of
   * the first `Present` report among those the scan reads.
   */
  function ScanVerdict(apiKey: Option<string>, oracle: OracleScript): (r: ScanOutcome)
    ensures IsNullOrEmpty(apiKey) ==> r == Verdict(false)
    ensures r == Verdict(true) ==>
      exists i | 0 <= i < |ReportsRead(oracle)| ::
        IsPresent(ReportsRead(oracle)[i]) && ReportsRead(oracle)[i].positives == 0
    ensures !IsNullOrEmpty(apiKey) ==>
      (r == StillPolling <==> forall j | 0 <= j < |ReportsRead(oracle)| :: !IsPresent(ReportsRead(oracle)[j]))
  {
    if IsNullOrEmpty(apiKey) then Verdict(false)
    else
      var reports := ReportsRead(oracle);
      match FirstPresent(reports)
      case None => StillPolling
      case Some(i) => Verdict(reports[i].positives == 0)
  }

  /** A cached `Present` report decides the verdict alone. */
  lemma CachedReportDecides(apiKey: Option<string>, oracle: OracleScript)
    requires !IsNullOrEmpty(apiKey) && IsPresent(oracle.cachedReport)
    ensures ScanVerdict(apiKey, oracle) == Verdict(oracle.cachedReport.positives == 0)
  {
  }

  /** Without a cached report, the first `Present` poll decides the verdict. */
  lemma {:induction false} FirstPresentPollDecides(apiKey: Option<string>, oracle: OracleScript, k: nat)
    requires !IsNullOrEmpty(apiKey) && !IsPresent(oracle.cachedReport)
    requires k < |oracle.polls| && IsPresent(oracle.polls[k])
    requires forall j | 0 <= j < k :: !IsPresent(oracle.polls[j])
    ensures ScanVerdict(apiKey, oracle) == Verdict(oracle.polls[k].positives == 0)
  {
    var reports := ReportsRead(oracle);
    assert reports[k + 1] == oracle.polls[k];
    assert forall j | 0 < j <= k :: reports[j] == oracle.polls[j - 1];
  }

  /**
   * The calls a scan makes: none without an API key; the content lookup alone
   * on a cached hit; otherwise the lookup, one submission, and then a poll by
   * resource for each report read up to the first `Present` one.
   */
  predicate ScanCalls(apiKey: Option<string>, fileBytes: seq<byte>, fileName: string,
                      oracle: OracleScript, calls: seq<OracleCall>)
  {
    if IsNullOrEmpty(apiKey) then calls == []
    else if IsPresent(oracle.cachedReport) then calls == [ReportForContent(fileBytes)]
    else
      && |calls| >= 2
      && calls[..2] == [ReportForContent(fileBytes), SubmitFile(fileBytes, fileName)]
      && (forall i | 2 <= i < |calls| :: calls[i] == ReportForResource(oracle.resource))
      && |calls| == 2 + (match FirstPresent(oracle.polls)
                         case Some(k) => k + 1
                         case None => |oracle.polls|)
  }

  /**
   * `ScanFileWithVirusTotal`: fails closed without an API key; returns the
   * cached report's verdict without submitting; otherwise submits once and
   * polls by the returned resource until a report is `Present`.
   */
  method ScanFileWithVirusTotal(apiKey: Option<string>, fileBytes: seq<byte>, fileName: string,
                                oracle: OracleScript)
    returns (outcome: ScanOutcome, calls: seq<OracleCall>)
    ensures outcome == ScanVerdict(apiKey, oracle)
    ensures ScanCalls(apiKey, fileBytes, fileName, oracle, calls)
  {
    if IsNullOrEmpty(apiKey) {
      return Verdict(false), [];
    }
    calls := [ReportForContent(fileBytes)];
    var fileReport := oracle.cachedReport;
    if IsPresent(fileReport) {
      return Verdict(fileReport.positives == 0), calls;
    }
    calls := calls + [SubmitFile(fileBytes, fileName)];
    var k := 0;
    while k < |oracle.polls|
      invariant 0 <= k <= |oracle.polls|
      invariant forall j | 0 <= j < k :: !IsPresent(oracle.polls[j])
      invariant |calls| == 2 + k
      invariant calls[..2] == [ReportForContent(fileBytes), SubmitFile(fileBytes, fileName)]
      invariant forall i | 2 <= i < |calls| :: calls[i] == ReportForResource(oracle.resource)
    {
      fileReport := oracle.polls[k];
      calls := calls + [ReportForResource(oracle.resource)];
      if IsPresent(fileReport) {
        FirstPresentPollDecides(apiKey, oracle, k);
        return Verdict(fileReport.positives == 0), calls;
      }
      k := k + 1;
    }
    assert forall j | 0 <= j < |ReportsRead(oracle)| :: !IsPresent(ReportsRead(oracle)[j]) by {
      forall j | 0 <= j < |ReportsRead(oracle)| ensures !IsPresent(ReportsRead(oracle)[j]) {
        if j > 0 {
          assert ReportsRead(oracle)[j] == oracle.polls[j - 1];
        }
      }
    }
    outcome := StillPolling;
  }

  /**
   * What `MoveToQuarantineContainer` does to the store: nothing without a
   * connection string; otherwise it ensures the quarantine container exists
   * and writes the bytes there under the same name, with overwrite.
   */
  function Quarantined(s: StoreState, fileName: string, fileBytes: seq<byte>,
                       connectionString: Option<string>): (t: StoreState)
    ensures IsNullOrEmpty(connectionString) ==> t == s
    ensures !IsNullOrEmpty(connectionString) ==>
      && t.containers == s.containers + {QuarantineContainer}
      && BlobKey(QuarantineContainer, fileName) in t.blobs
      && t.blobs[BlobKey(QuarantineContainer, fileName)] == fileBytes
      && SameExcept(s, t, BlobKey(QuarantineContainer, fileName))
    ensures WellFormed(s) ==> WellFormed(t)
  {
    if IsNullOrEmpty(connectionString) then s
    else Put(AddContainer(s, QuarantineContainer), BlobKey(QuarantineContainer, fileName), fileBytes)
  }

  method MoveToQuarantineContainer(store: BlobStore, fileName: string, fileBytes: seq<byte>,
                                   connectionString: Option<string>)
    requires store.Valid()
    modifies store
    ensures store.Valid()
    ensures store.State() == Quarantined(old(store.State()), fileName, fileBytes, connectionString)
  {
    if IsNullOrEmpty(connectionString) {
      return;
    }
    var _ := store.CreateIfNotExists(QuarantineContainer);
    var ok := store.Upload(QuarantineContainer, fileName, fileBytes);
    assert ok;
  }

  /**
   * What one run of the trigger does to the store: a copy into quarantine on a
   * not-clean verdict, nothing otherwise, and no deletion in any case.
   */
  function Triggered(s: StoreState, name: string, blobBytes: seq<byte>, apiKey: Option<string>,
                     connectionString: Option<string>, oracle: OracleScript): (t: StoreState)
    ensures ScanVerdict(apiKey, oracle) != Verdict(false) ==> t == s
    ensures ScanVerdict(apiKey, oracle) == Verdict(false) ==>
      t == Quarantined(s, name, blobBytes, connectionString)
    ensures s.blobs.Keys <= t.blobs.Keys && s.containers <= t.containers
    ensures SameExcept(s, t, BlobKey(QuarantineContainer, name))
    ensures WellFormed(s) ==> WellFormed(t)
  {
    if ScanVerdict(apiKey, oracle) == Verdict(false) then Quarantined(s, name, blobBytes, connectionString)
    else s
  }

  /** The blob the trigger fired for stays in the intake container, byte for byte. */
  lemma TriggerKeepsOriginal(s: StoreState, name: string, blobBytes: seq<byte>, apiKey: Option<string>,
                             connectionString: Option<string>, oracle: OracleScript)
    requires BlobKey(IntakeContainer, name) in s.blobs
    ensures var t := Triggered(s, name, blobBytes, apiKey, connectionString, oracle);
            BlobKey(IntakeContainer, name) in t.blobs
            && t.blobs[BlobKey(IntakeContainer, name)] == s.blobs[BlobKey(IntakeContainer, name)]
  {
    assert BlobKey(IntakeContainer, name) != BlobKey(QuarantineContainer, name);
  }

  /** Without an API key every delivered blob is copied to quarantine. */
  lemma MissingKeyQuarantines(s: StoreState, name: string, blobBytes: seq<byte>, apiKey: Option<string>,
                              connectionString: Option<string>, oracle: OracleScript)
    requires IsNullOrEmpty(apiKey) && !IsNullOrEmpty(connectionString)
    ensures var t := Triggered(s, name, blobBytes, apiKey, connectionString, oracle);
            BlobKey(QuarantineContainer, name) in t.blobs
            && t.blobs[BlobKey(QuarantineContainer, name)] == blobBytes
  {
  }

  /**
   * `Run`: scans the delivered bytes and, unless the verdict is clean, copies
   * them to quarantine. The environment variables `VIRUSTOTAL_API_KEY` and
   * `BLOB_STORAGE_CONNECTION_STRING` are the parameters `apiKey` and
   * `connectionString`.
   */
  method Run(store: BlobStore, blobBytes: seq<byte>, name: string, apiKey: Option<string>,
             connectionString: Option<string>, oracle: OracleScript)
    returns (outcome: ScanOutcome, calls: seq<OracleCall>)
    requires store.Valid()
    modifies store
    ensures store.Valid()
    ensures outcome == ScanVerdict(apiKey, oracle)
    ensures ScanCalls(apiKey, blobBytes, name, oracle, calls)
    ensures store.State() == Triggered(old(store.State()), name, blobBytes, apiKey, connectionString, oracle)
  {
    outcome, calls := ScanFileWithVirusTotal(apiKey, blobBytes, name, oracle);
    if outcome == Verdict(false) {
      MoveToQuarantineContainer(store, name, blobBytes, connectionString);
    }
  }
}
