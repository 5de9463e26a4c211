/**
 * FileExtractionTask: pick the archive reader (zip before tar), then extract the members one by one,
 * checking for cancellation and reporting progress i/n before member i. The archive libraries are
 * abstract: an archive is its member count, the error raised on opening it (if any), the member whose
 * extraction fails (if any), and the member before which cancellation is first seen (if any). An error
 * is either one the branch's handlers catch or one they do not (RuntimeError for an encrypted zip
 * member, NotImplementedError for an unknown compression method, EOFError or zlib.error from a
 * truncated compressed tar), which escapes run_impl.
 */
module Extraction {
  import opened Outcomes

  /** The errors the zip branch catches: zipfile.BadZipFile and OSError (by its strerror). */
  datatype ZipError = BadZipFile | ZipOsError(strerror: string)

  /** The errors the tar branch catches, in the order its handlers test them. */
  datatype TarError = FilterError | OtherTarError(text: string) | TarOsError(strerror: string)

  /** An error raised by the archive library: caught by a handler of the branch, or escaping it. */
  datatype Fault<E> = Caught(error: E) | Escapes(text: string)

  /** An archive as the reader sees it. */
  datatype Archive<E> = Archive(
    members: nat,
    openError: Option<Fault<E>>,
    cancelAt: Option<nat>,
    failAt: Option<(nat, Fault<E>)>)

  /** What an extraction did: its outcome, the progress values it reported, and how many members it wrote. */
  datatype Extraction = Extraction(outcome: Outcome, reports: seq<real>, extracted: nat)

  /** Which reader run_impl uses. */
  datatype Reader = ZipReader | TarReader | NoReader

  const Unrecognised := "Archive format was not recognised."

  function ZipMessage(e: ZipError): (m: string)
    ensures e.ZipOsError? ==> m == "Could not extract archive.\n\n" + e.strerror
  {
    match e
    case BadZipFile => "Could not extract archive, file is corrupt."
    case ZipOsError(strerror) => "Could not extract archive.\n\n" + strerror
  }

  /** FilterError is a TarError, so its own handler must come first to be reached. */
  function TarMessage(e: TarError): (m: string)
    ensures !e.FilterError? ==> m == "Could not extract archive.\n\n" + (if e.OtherTarError? then e.text else e.strerror)
  {
    match e
    case FilterError => "Could not extract archive due to extraction security settings."
    case OtherTarError(text) => "Could not extract archive.\n\n" + text
    case TarOsError(strerror) => "Could not extract archive.\n\n" + strerror
  }

  /** The progress reported before each of the first k of n members: 0/n, 1/n, ..., (k-1)/n. */
  function Fractions(k: nat, n: nat): (r: seq<real>)
    requires k <= n
    ensures |r| == k && forall i :: 0 <= i < k ==> r[i] == i as real / n as real
  {
    seq(k, i requires 0 <= i < k => i as real / n as real)
  }

  /** How an error ends the task: a caught one is reported with the handler's message, any other is raised. */
  function Handled<E>(f: Fault<E>, message: E -> string): (r: Outcome)
    ensures r.Failure? <==> f.Caught?
    ensures r.Raised? <==> f.Escapes?
    ensures f.Caught? ==> r.message == message(f.error)
    ensures f.Escapes? ==> r.error == f.text
  {
    match f
    case Caught(e) => Failure(message(e))
    case Escapes(text) => Raised(text)
  }

  /** The zip test comes first: a file both readers accept is read as a zip archive. */
  function Detect(isZip: bool, isTar: bool): (r: Reader)
    ensures r.ZipReader? <==> isZip
    ensures r.TarReader? <==> !isZip && isTar
    ensures r.NoReader? <==> !isZip && !isTar
  {
    if isZip then ZipReader else if isTar then TarReader else NoReader
  }

  /**
   * The extraction in closed form. The member before which cancellation is seen is neither reported
   * nor extracted; the member whose extraction fails has been reported but not extracted. Every
   * report made before member i of n is i/n, whatever ends the extraction.
   */
  function Planned<E>(a: Archive<E>, message: E -> string): (r: Extraction)
    ensures r.extracted <= |r.reports| <= a.members
    ensures forall i :: 0 <= i < |r.reports| ==> r.reports[i] == i as real / a.members as real
    ensures a.openError.Some? ==> r == Extraction(Handled(a.openError.value, message), [], 0)
    ensures r.outcome.Success? <==>
      && a.openError.None?
      && (a.cancelAt.None? || a.cancelAt.value >= a.members)
      && (a.failAt.None? || a.failAt.value.0 >= a.members)
    ensures r.outcome.Success? ==> r.extracted == a.members
    ensures r.outcome.Cancelled? ==> a.cancelAt == Some(r.extracted) && |r.reports| == r.extracted
    ensures (r.outcome.Failure? || r.outcome.Raised?) && a.openError.None? ==>
      && a.failAt.Some? && a.failAt.value.0 == r.extracted
      && r.outcome == Handled(a.failAt.value.1, message) && |r.reports| == r.extracted + 1
  {
    var n := a.members;
    var c := if a.cancelAt.Some? && a.cancelAt.value < n then a.cancelAt.value else n;
    var f := if a.failAt.Some? && a.failAt.value.0 < n then a.failAt.value.0 else n;
    if a.openError.Some? then Extraction(Handled(a.openError.value, message), [], 0)
    else if c < n && c <= f then Extraction(Cancelled, Fractions(c, n), c)
    else if f < n then Extraction(Handled(a.failAt.value.1, message), Fractions(f + 1, n), f)
    else Extraction(Success, Fractions(n, n), n)
  }

  /** The member loop of _extract_zip, and of _extract_tar's with_progress generator feeding extractall. */
  method ExtractMembers<E>(a: Archive<E>, message: E -> string) returns (r: Extraction)
    ensures r == Planned(a, message)
  {
    if a.openError.Some? {
      return Extraction(Handled(a.openError.value, message), [], 0);
    }
    var n := a.members;
    var reports: seq<real> := [];
    var i := 0;
    while i < n
      invariant 0 <= i <= n
      invariant reports == Fractions(i, n)
      invariant a.cancelAt.Some? && a.cancelAt.value < n ==> a.cancelAt.value >= i
      invariant a.failAt.Some? && a.failAt.value.0 < n ==> a.failAt.value.0 >= i
    {
      if a.cancelAt == Some(i) {
        return Extraction(Cancelled, reports, i);
      }
      reports := reports + [i as real / n as real];
      if a.failAt.Some? && a.failAt.value.0 == i {
        return Extraction(Handled(a.failAt.value.1, message), reports, i);
      }
      i := i + 1;
    }
    return Extraction(Success, reports, n);
  }

  /** run_impl after the output directory has been emptied and recreated. */
  method Extract(isZip: bool, isTar: bool, zip: Archive<ZipError>, tar: Archive<TarError>) returns (r: Extraction)
    ensures isZip ==> r == Planned(zip, ZipMessage)
    ensures !isZip && isTar ==> r == Planned(tar, TarMessage)
    ensures !isZip && !isTar ==> r == Extraction(Failure(Unrecognised), [], 0)
  {
    match Detect(isZip, isTar)
    case ZipReader => r := ExtractMembers(zip, ZipMessage);
    case TarReader => r := ExtractMembers(tar, TarMessage);
    case NoReader => r := Extraction(Failure(Unrecognised), [], 0);
  }

  // ---------------------------------------------------------------- properties

  lemma DivLess(i: real, j: real, n: real)
    requires n > 0.0 && i < j
    ensures i / n < j / n
  {
    var p, q := i / n, j / n;
    assert p * n == i && q * n == j;
    assert (q - p) * n > 0.0;
  }

  lemma DivAtMost(i: real, j: real, n: real)
    requires n > 0.0 && i <= j
    ensures i / n <= j / n
  {
    if i < j { DivLess(i, j, n); }
  }

  /** The progress values are strictly increasing. */
  lemma FractionsIncrease(k: nat, n: nat)
    requires k <= n
    ensures forall i, j :: 0 <= i < j < k ==> Fractions(k, n)[i] < Fractions(k, n)[j]
  {
    forall i, j | 0 <= i < j < k
      ensures Fractions(k, n)[i] < Fractions(k, n)[j]
    {
      DivLess(i as real, j as real, n as real);
    }
  }

  /** The first value is 0 and none exceeds (n-1)/n, so a task never reports itself complete. */
  lemma FractionsBounds(k: nat, n: nat)
    requires k <= n
    ensures k > 0 ==> Fractions(k, n)[0] == 0.0
    ensures forall i :: 0 <= i < k ==> 0.0 <= Fractions(k, n)[i] <= (n - 1) as real / n as real
    ensures forall i :: 0 <= i < k ==> Fractions(k, n)[i] < 1.0
  {
    forall i | 0 <= i < k
      ensures 0.0 <= Fractions(k, n)[i] <= (n - 1) as real / n as real
      ensures Fractions(k, n)[i] < 1.0
    {
      DivAtMost(0.0, i as real, n as real);
      DivAtMost(i as real, (n - 1) as real, n as real);
      DivLess((n - 1) as real, n as real, n as real);
    }
  }

  /** Cancellation is checked before the member's progress and extraction, so it wins over a failure there. */
  lemma CancelBeforeFailure<E>(a: Archive<E>, message: E -> string, i: nat)
    requires a.openError.None? && i < a.members && a.cancelAt == Some(i)
    requires a.failAt.Some? && a.failAt.value.0 >= i
    ensures Planned(a, message) == Extraction(Cancelled, Fractions(i, a.members), i)
  {
  }

  /**
   * An error the branch does not catch, raised while extracting member i, ends the task with that
   * error after i/n was reported and the i earlier members were written.
   */
  lemma EscapingErrorRaised<E>(a: Archive<E>, message: E -> string, i: nat, text: string)
    requires a.openError.None? && i < a.members && a.failAt == Some((i, Escapes(text)))
    requires a.cancelAt.None? || a.cancelAt.value > i
    ensures Planned(a, message) == Extraction(Raised(text), Fractions(i + 1, a.members), i)
  {
  }

  /** An archive without members reports nothing and succeeds. */
  lemma EmptyArchive<E>(a: Archive<E>, message: E -> string)
    requires a.members == 0 && a.openError.None?
    ensures Planned(a, message) == Extraction(Success, [], 0)
  {
  }
}
