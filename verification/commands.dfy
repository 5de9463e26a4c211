/**
 * How the tasks that run external commands, or copy and write single files, decide their outcome.
 * Exit statuses, OSError texts and the moments cancellation is seen are inputs. The rule they share:
 * once a command has finished, cancellation is checked before its exit status.
 */
module Commands {
  import opened Outcomes
  import Files
  import opened Text

  const CloneFailed := "An error occurred when cloning git repository. See the log file for more information."
  const MoveFailed := "Error(s) occurred when moving git repository from temporary folder. See the log file for more information."
  const CheckoutFailed := "An error occurred when checking out commit from git repository. See the log file for more information."
  const AddFailed := "An error occurred when adding the project file to the git repository. See the log file for more information."

  /** What SetupDependenciesTaskSequence writes to .gitignore in the environment directory. */
  const GitIgnoreContent := "*"

  /**
   * The check made when a command has exited: `None` lets the task go on. A cancelled task is
   * Cancelled whatever the status; otherwise a non-zero status fails with `message`.
   */
  function ExitCheck(cancelled: bool, exitStatus: int, message: string): (r: Option<Outcome>)
    ensures cancelled ==> r == Some(Cancelled)
    ensures !cancelled ==> (r.None? <==> exitStatus == 0)
    ensures !cancelled && exitStatus != 0 ==> r == Some(Failure(message))
  {
    if cancelled then Some(Cancelled)
    else if exitStatus != 0 then Some(Failure(message))
    else None
  }

  /**
   * The first of SetupGitRepoTask's three cancellation checks to see the flag set (it never clears
   * once set). The checks follow the clone, the copy out of the temporary directory, and the checkout;
   * a cancellation seen while reading git's output ends the clone and is seen again by the first check.
   */
  datatype CancelPoint = SeenAfterClone | SeenAfterCopy | SeenAfterCheckout | NotSeen

  /**
   * How shutil.copytree out of the temporary directory ends: it copies everything, collects per-file
   * errors into one shutil.Error, or stops at some other OSError, which no handler catches.
   */
  datatype CopyResult = Copied | CopyErrors | CopyOsError(text: string)

  /**
   * SetupGitRepoTask.run_impl. A failed copy raises inside the temporary-directory block, before the
   * cancellation check that follows it; the checkout runs only when the copy succeeded and no
   * cancellation was seen.
   */
  function SetupGitRepo(cancel: CancelPoint, cloneExit: int, copy: CopyResult, checkoutExit: int): (r: Outcome)
    ensures cancel.SeenAfterClone? ==> r == Cancelled
    ensures !cancel.SeenAfterClone? && cloneExit != 0 ==> r == Failure(CloneFailed)
    ensures r == Success <==> cancel.NotSeen? && cloneExit == 0 && copy.Copied? && checkoutExit == 0
    ensures r.Raised? <==> !cancel.SeenAfterClone? && cloneExit == 0 && copy.CopyOsError?
    ensures r.Raised? ==> r.error == copy.text
    ensures r.Failure? ==> r.message in {CloneFailed, MoveFailed, CheckoutFailed}
  {
    match ExitCheck(cancel.SeenAfterClone?, cloneExit, CloneFailed)
    case Some(stop) => stop
    case None =>
      match copy
      case CopyErrors => Failure(MoveFailed)
      case CopyOsError(text) => Raised(text)
      case Copied =>
        if cancel.SeenAfterCopy? then Cancelled
        else
          match ExitCheck(cancel.SeenAfterCheckout?, checkoutExit, CheckoutFailed)
          case Some(stop) => stop
          case None => Success
  }

  /**
   * CreateProjectFileTask.run_impl: copy the template into the project, then `git add` it. The copy
   * is not preceded by a cancellation check, so its error wins over cancellation.
   */
  function CreateProjectFile(copyError: Option<string>, cancelled: bool, addExit: int): (r: Outcome)
    ensures copyError.Some? ==> r == Failure("Couldn't create project file.\n\n" + copyError.value)
    ensures copyError.None? ==> (r.Cancelled? <==> cancelled)
    ensures r == Success <==> copyError.None? && !cancelled && addExit == 0
  {
    match copyError
    case Some(strerror) => Failure("Couldn't create project file.\n\n" + strerror)
    case None =>
      match ExitCheck(cancelled, addExit, AddFailed)
      case Some(stop) => stop
      case None => Success
  }

  /** FileCopyTask.run_impl: the caller's message, a blank line, then the OSError's text. */
  function FileCopy(errorMessage: string, copyError: Option<string>): (r: Outcome)
    ensures r.Success? <==> copyError.None?
    ensures r.Failure? ==>
      |r.message| == |errorMessage| + 2 + |copyError.value| && r.message[..|errorMessage|] == errorMessage
    ensures r.Failure? ==> r.message[|errorMessage|..] == "\n\n" + copyError.value
  {
    match copyError
    case Some(strerror) => Failure(errorMessage + "\n\n" + strerror)
    case None => Success
  }

  /**
   * The error details are on a line of their own, after a blank line: splitting the failure message
   * at line feeds gives the caller's lines, "", then the OSError's text.
   */
  lemma FileCopyDetailLine(errorMessage: string, strerror: string)
    requires '\n' !in strerror
    ensures FileCopy(errorMessage, Some(strerror)).Failure?
    ensures SplitOn(FileCopy(errorMessage, Some(strerror)).message, '\n') == SplitOn(errorMessage, '\n') + ["", strerror]
  {
    var tail := "" + ['\n'] + strerror;
    calc {
      SplitOn(FileCopy(errorMessage, Some(strerror)).message, '\n');
      { assert FileCopy(errorMessage, Some(strerror)).message == errorMessage + ['\n'] + tail; }
      SplitOn(errorMessage + ['\n'] + tail, '\n');
      { SplitOnConcat(errorMessage, '\n', tail); }
      SplitOn(errorMessage, '\n') + SplitOn(tail, '\n');
      { SplitOnAfter("", '\n', strerror); LoneField(strerror, '\n'); }
      SplitOn(errorMessage, '\n') + ["", strerror];
    }
  }

  /** ExecuteCommandTask.run_impl: a non-zero exit raises TaskFailureException without a message. */
  function ExecuteCommand(cancelled: bool, exitStatus: int): (r: Outcome)
    ensures r.Cancelled? <==> cancelled
    ensures r.Success? <==> !cancelled && exitStatus == 0
    ensures r.Failure? ==> r.message == ""
  {
    match ExitCheck(cancelled, exitStatus, "")
    case Some(stop) => stop
    case None => Success
  }

  /**
   * SetupDependenciesTaskSequence.run_impl before its child tasks run: create the environment
   * directory, then write .gitignore into it. `None` means the child tasks run next.
   */
  function PrepareEnvironment(mkdirError: Option<string>, writeError: Option<string>): (r: Option<Outcome>)
    ensures r.None? <==> mkdirError.None? && writeError.None?
    ensures mkdirError.Some? ==> r == Some(Failure("Could not create project environment folder.\n\n" + mkdirError.value))
    ensures mkdirError.None? && writeError.Some? ==>
      r == Some(Failure("Could not write to project environment folder.\n\n" + writeError.value))
  {
    match mkdirError
    case Some(strerror) => Some(Failure("Could not create project environment folder.\n\n" + strerror))
    case None =>
      match writeError
      case Some(strerror) => Some(Failure("Could not write to project environment folder.\n\n" + strerror))
      case None => None
  }

  /** MarkDependencyCompleteTask.run_impl: a read or write error of the list escapes the task uncaught. */
  function MarkDependencyComplete(f: Files.FileState, d: string, writeOk: bool): (r: (Outcome, Files.FileState))
    ensures r.0.Success? || r.0.Raised?
    ensures r.0.Raised? <==> f.Unreadable? || (!writeOk && d !in Files.DependenciesDone(f).value)
    ensures r.0.Raised? ==> r.1 == f
  {
    match Files.MarkDependencyDone(f, d, writeOk)
    case Ok(g) => (Success, g)
    case Err(e) => (Raised(e), f)
  }

  // ---------------------------------------------------------------- properties

  /** In every task that waits for a command, cancellation outranks a failing exit status. */
  lemma CancelOutranksExitStatus(exitStatus: int, copy: CopyResult, otherExit: int)
    requires exitStatus != 0
    ensures SetupGitRepo(SeenAfterClone, exitStatus, copy, otherExit) == Cancelled
    ensures SetupGitRepo(SeenAfterCheckout, 0, Copied, exitStatus) == Cancelled
    ensures CreateProjectFile(None, true, exitStatus) == Cancelled
    ensures ExecuteCommand(true, exitStatus) == Cancelled
  {
  }

  /** Uncancelled, a failing exit status fails with the step's own message. */
  lemma ExitStatusFails(exitStatus: int)
    requires exitStatus != 0
    ensures SetupGitRepo(NotSeen, exitStatus, Copied, 0) == Failure(CloneFailed)
    ensures SetupGitRepo(NotSeen, 0, Copied, exitStatus) == Failure(CheckoutFailed)
    ensures CreateProjectFile(None, false, exitStatus) == Failure(AddFailed)
    ensures ExecuteCommand(false, exitStatus) == Failure("")
  {
  }

  /** A copy failure of either kind outranks the cancellation seen just after the copy. */
  lemma CopyFailureBeforeCancel(checkoutExit: int, text: string)
    ensures SetupGitRepo(SeenAfterCopy, 0, CopyErrors, checkoutExit) == Failure(MoveFailed)
    ensures SetupGitRepo(SeenAfterCopy, 0, CopyOsError(text), checkoutExit) == Raised(text)
    ensures SetupGitRepo(SeenAfterCopy, 0, Copied, checkoutExit) == Cancelled
  {
  }
}
