/**
 * DownloadAndValidateTask: fetch a dependency archive into the download cache unless it is already
 * there, then check its SHA-256 digest, deleting it when the digest is wrong. The file store is a map
 * from paths to contents, the transfer's result is an input, and the digest function is opaque.
 */
module Download {
  import opened Outcomes
  import opened Text

  type Path = seq<string>

  /** What the progress hook does: raise TaskCancelledException, or report progress. */
  datatype HookResult = CancelRaised | Report(progress: Progress)

  /**
   * _report_callback: cancellation is checked first; an unknown size (0 or less) reports indeterminate
   * progress, otherwise the fraction fetched so far, which is not clamped to 1.
   */
  function ReportHook(cancelled: bool, blockCount: int, blockSize: int, fileSize: int): (r: HookResult)
    ensures cancelled <==> r.CancelRaised?
    ensures !cancelled ==> (r.progress.Indeterminate? <==> fileSize <= 0)
    ensures !cancelled && fileSize > 0 ==> r.progress.value * fileSize as real == (blockCount * blockSize) as real
  {
    if cancelled then CancelRaised
    else if fileSize <= 0 then Report(Indeterminate)
    else Report(Fraction((blockCount * blockSize) as real / fileSize as real))
  }

  /** Why resolving a host failed: a socket.gaierror with its errno, or any other reason, as str() shows it. */
  datatype UrlReason = GaiError(errno: int, text: string) | OtherReason(text: string)

  /** How urlretrieve ends: with the file's contents, or with one of the exceptions the task tells apart. */
  datatype Transfer<C> =
    | Completed(content: C)
    | TransferCancelled
    | ContentTooShort
    | ConnectionFailed
    | HttpError(text: string)
    | UrlError(reason: UrlReason)
    | OtherError(text: string)

  /** The task's outcome and the file store it leaves behind. */
  datatype Run<C> = Run(outcome: Outcome, store: map<Path, C>)

  /** A failure whose message starts "Download failed". */
  function DownloadFailed(detail: string): (r: Outcome)
    ensures r.Failure? && StartsWith(r.message, "Download failed")
  {
    var m := "Download failed" + detail;
    assert m[..15] == "Download failed";
    Failure(m)
  }

  /** The failure message for a transfer that ended in a network error; `errorTab` is socket.errorTab. */
  function TransferFailure<C>(t: Transfer<C>, errorTab: map<int, string>): (r: Outcome)
    requires !t.Completed?
    ensures t.TransferCancelled? <==> r.Cancelled?
    ensures t.OtherError? <==> r.Raised?
    ensures r.Failure? ==> StartsWith(r.message, "Download failed")
  {
    match t
    case TransferCancelled => Cancelled
    case ContentTooShort => DownloadFailed(". Your network connection may have been interrupted.")
    case ConnectionFailed => DownloadFailed(". Your network connection may have been interrupted.")
    case HttpError(text) => DownloadFailed(".\n\n" + text)
    case UrlError(reason) =>
      (match reason
       case GaiError(errno, text) =>
         DownloadFailed(".\n\n" + (if errno in errorTab then errorTab[errno] else text))
       case OtherReason(text) => DownloadFailed(".\n\n" + text))
    case OtherError(text) => Raised(text)
  }

  /** "downloaded" or "cached", as the messages of the integrity check say. */
  function Source(cached: bool): string {
    if cached then "cached" else "downloaded"
  }

  /** The store with nothing at `dest`. */
  function Without<C>(store: map<Path, C>, dest: Path): (r: map<Path, C>)
    ensures dest !in r
    ensures forall q :: q != dest ==> (q in r <==> q in store) && (q in r ==> r[q] == store[q])
  {
    map q | q in store && q != dest :: store[q]
  }

  /**
   * The integrity check of a file in the store: a read error fails and keeps the file; a wrong digest
   * deletes it and fails, unless the deletion itself raises `unlinkError`, which then escapes with the
   * file still in place.
   */
  function Check<C>(
    store: map<Path, C>, dest: Path, cached: bool, expected: string, digest: C -> string,
    readError: Option<string>, unlinkError: Option<string>): (r: Run<C>)
    requires dest in store
    ensures r.outcome.Success? <==> readError.None? && digest(store[dest]) == expected
    ensures r.outcome.Raised? <==> readError.None? && digest(store[dest]) != expected && unlinkError.Some?
    ensures !r.outcome.Cancelled?
    ensures readError.None? && digest(store[dest]) != expected && unlinkError.None? ==> r.store == Without(store, dest)
    ensures readError.Some? || digest(store[dest]) == expected || unlinkError.Some? ==> r.store == store
    ensures forall q :: q != dest ==> (q in r.store <==> q in store) && (q in r.store ==> r.store[q] == store[q])
  {
    match readError
    case Some(strerror) => Run(Failure("Error reading the " + Source(cached) + " file.\n\n" + strerror), store)
    case None =>
      if digest(store[dest]) == expected then Run(Success, store)
      else
        match unlinkError
        case Some(error) => Run(Raised(error), store)
        case None =>
          Run(Failure("The " + Source(cached) + " file did not pass an integrity check, and was deleted."),
              Without(store, dest))
  }

  /**
   * The clean-up after a failed transfer: unlink(missing_ok=True) removes whatever part of the file
   * reached `dest`, and the transfer's own failure is reported; if the deletion raises `unlinkError`,
   * that escapes instead and the partial file stays.
   */
  function AfterFailedTransfer<C>(
    store: map<Path, C>, dest: Path, t: Transfer<C>, partial: Option<C>,
    unlinkError: Option<string>, errorTab: map<int, string>): (r: Run<C>)
    requires !t.Completed?
    ensures unlinkError.None? ==> r.outcome == TransferFailure(t, errorTab) && dest !in r.store
    ensures unlinkError.Some? ==> r.outcome == Raised(unlinkError.value) && (dest in r.store <==> partial.Some?)
    ensures forall q :: q != dest ==> (q in r.store <==> q in store) && (q in r.store ==> r.store[q] == store[q])
  {
    match unlinkError
    case None => Run(TransferFailure(t, errorTab), Without(store, dest))
    case Some(error) =>
      Run(Raised(error), match partial case Some(c) => store[dest := c] case None => Without(store, dest))
  }

  /**
   * run_impl. A file already at `dest` is checked without a transfer. Otherwise the transfer's file
   * lands at `dest`; a failed transfer may leave `partial` there, which the clean-up removes.
   * `unlinkError` is the OSError, other than a missing file, that deleting `dest` would raise.
   */
  function DownloadAndValidate<C>(
    store: map<Path, C>, dest: Path, expected: string, transfer: Transfer<C>, partial: Option<C>,
    digest: C -> string, readError: Option<string>, unlinkError: Option<string>,
    errorTab: map<int, string>): (r: Run<C>)
    ensures forall q :: q != dest ==> (q in r.store <==> q in store) && (q in store ==> r.store[q] == store[q])
    ensures r.outcome.Success? ==> dest in r.store && digest(r.store[dest]) == expected
  {
    if dest in store then Check(store, dest, true, expected, digest, readError, unlinkError)
    else if transfer.Completed? then
      var r := Check(store[dest := transfer.content], dest, false, expected, digest, readError, unlinkError);
      assert r.outcome.Success? ==> r.store == store[dest := transfer.content];
      r
    else AfterFailedTransfer(store, dest, transfer, partial, unlinkError, errorTab)
  }

  // ---------------------------------------------------------------- properties

  /** Progress grows with the bytes fetched, and past the announced size it exceeds 1. */
  lemma ReportUnclamped(blockCount: int, blockSize: int, fileSize: int)
    requires fileSize > 0 && blockCount * blockSize > fileSize
    ensures ReportHook(false, blockCount, blockSize, fileSize).progress.value > 1.0
  {
    DivGreater((blockCount * blockSize) as real, fileSize as real);
  }

  lemma DivGreater(a: real, f: real)
    requires f > 0.0 && a > f
    ensures a / f > 1.0
  {
    var q := a / f;
    assert q * f == a;
    assert (q - 1.0) * f > 0.0;
  }

  /** A cached file is never transferred: the result does not depend on the transfer or its leftovers. */
  lemma CacheHitSkipsTransfer<C>(
    store: map<Path, C>, dest: Path, expected: string, t1: Transfer<C>, t2: Transfer<C>,
    p1: Option<C>, p2: Option<C>, digest: C -> string, readError: Option<string>,
    unlinkError: Option<string>, errorTab: map<int, string>)
    requires dest in store
    ensures DownloadAndValidate(store, dest, expected, t1, p1, digest, readError, unlinkError, errorTab)
         == DownloadAndValidate(store, dest, expected, t2, p2, digest, readError, unlinkError, errorTab)
  {
  }

  /**
   * A failed transfer never succeeds. When the clean-up works it leaves no file at `dest` and reports
   * the transfer's failure; when the clean-up raises, that error escapes and the partial file stays.
   */
  lemma FailedTransferRemovesFile<C>(
    store: map<Path, C>, dest: Path, expected: string, t: Transfer<C>, partial: Option<C>,
    digest: C -> string, readError: Option<string>, unlinkError: Option<string>, errorTab: map<int, string>)
    requires dest !in store && !t.Completed?
    ensures var r := DownloadAndValidate(store, dest, expected, t, partial, digest, readError, unlinkError, errorTab);
      && !r.outcome.Success?
      && (unlinkError.None? ==> dest !in r.store && r.outcome == TransferFailure(t, errorTab) && (r.outcome.Raised? <==> t.OtherError?))
      && (unlinkError.Some? ==> r.outcome == Raised(unlinkError.value) && (dest in r.store <==> partial.Some?))
  {
  }

  /**
   * A file whose digest is wrong is deleted, whether it was cached or just fetched; if the deletion
   * raises, that error escapes and the file stays.
   */
  lemma MismatchDeletes<C>(
    store: map<Path, C>, dest: Path, expected: string, t: Transfer<C>, partial: Option<C>,
    digest: C -> string, unlinkError: Option<string>, errorTab: map<int, string>)
    requires dest in store || t.Completed?
    requires digest(if dest in store then store[dest] else t.content) != expected
    ensures var r := DownloadAndValidate(store, dest, expected, t, partial, digest, None, unlinkError, errorTab);
      && (unlinkError.None? ==>
           r.outcome == Failure("The " + Source(dest in store) + " file did not pass an integrity check, and was deleted.")
           && dest !in r.store)
      && (unlinkError.Some? ==> r.outcome == Raised(unlinkError.value) && dest in r.store)
  {
  }

  /** A file that cannot be read fails the check but stays where it is. */
  lemma ReadErrorKeepsFile<C>(
    store: map<Path, C>, dest: Path, expected: string, t: Transfer<C>, partial: Option<C>,
    digest: C -> string, strerror: string, unlinkError: Option<string>, errorTab: map<int, string>)
    requires dest in store || t.Completed?
    ensures var r := DownloadAndValidate(store, dest, expected, t, partial, digest, Some(strerror), unlinkError, errorTab);
      r.outcome == Failure("Error reading the " + Source(dest in store) + " file.\n\n" + strerror)
      && dest in r.store
  {
  }

  /** A readable file with the expected digest is kept and the task succeeds. */
  lemma MatchSucceeds<C>(
    store: map<Path, C>, dest: Path, expected: string, t: Transfer<C>, partial: Option<C>,
    digest: C -> string, unlinkError: Option<string>, errorTab: map<int, string>)
    requires dest in store || t.Completed?
    requires digest(if dest in store then store[dest] else t.content) == expected
    ensures var r := DownloadAndValidate(store, dest, expected, t, partial, digest, None, unlinkError, errorTab);
      r.outcome == Success && r.store[dest] == (if dest in store then store[dest] else t.content)
  {
  }
}
