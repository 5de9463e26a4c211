/**
 * FileOperationSequenceTask: a list of commands, each an operation name followed by operand paths
 * relative to a base directory. The filesystem is abstract: a state, a test for "is a file", an
 * effect for each performed operation (which may fail with an OSError's strerror), and the way a
 * path prints.
 */
module FileOps {
  import opened Outcomes
  import opened Text

  type Path = seq<string>

  /** How a copy, move or delete ends: with the new state, or with an OSError after partial effects. */
  datatype Attempt<S> = Done(state: S) | Failed(state: S, strerror: string)

  datatype FileSystem<!S> = FileSystem(
    isFile: (S, Path) -> bool,
    perform: (S, string, bool, seq<Path>) -> Attempt<S>,
    show: Path -> string)

  /** One command: go on from a state, or stop the task with an outcome. */
  datatype Step<S> = Continue(state: S) | Stop(outcome: Outcome, state: S)

  /** The whole task: its outcome, the final state and the progress values reported. */
  datatype OpRun<S> = OpRun(outcome: Outcome, state: S, reports: seq<real>)

  /** The message of the IndexError raised by indexing an empty list. */
  const IndexError := "IndexError: list index out of range"

  const Operations: set<string> := {"copy", "move", "delete"}

  function LowerChar(c: char): (d: char)
    ensures 'A' <= c <= 'Z' ==> 'a' <= d <= 'z'
    ensures !('A' <= c <= 'Z') ==> d == c
  {
    if 'A' <= c <= 'Z' then (c as int - 'A' as int + 'a' as int) as char else c
  }

  /** str.lower on ASCII letters. */
  function Lower(s: string): (r: string)
    ensures |r| == |s| && forall i :: 0 <= i < |s| ==> r[i] == LowerChar(s[i])
  {
    if s == [] then [] else [LowerChar(s[0])] + Lower(s[1..])
  }

  /** "delete" takes one operand; every other name, known or not, takes two. */
  function Arity(name: string): (n: nat)
    ensures n == 1 <==> name == "delete"
    ensures n == 1 || n == 2
  {
    if name == "delete" then 1 else 2
  }

  /** The operand paths: each operand is taken relative to the base directory. */
  function Operands(base: Path, command: seq<string>): (args: seq<Path>)
    requires |command| >= 1
    ensures |args| == |command| - 1
    ensures forall i :: 0 <= i < |args| ==> args[i] == base + [command[i + 1]]
  {
    seq(|command| - 1, i requires 0 <= i < |command| - 1 => base + [command[i + 1]])
  }

  function Shown(show: Path -> string, args: seq<Path>): (r: seq<string>)
    ensures |r| == |args| && forall i :: 0 <= i < |args| ==> r[i] == show(args[i])
  {
    seq(|args|, i requires 0 <= i < |args| => show(args[i]))
  }

  function WrongCount(name: string): string {
    "Wrong number of parameters to \"" + name + "\" operation"
  }

  /**
   * One command. Indexing the name and the first operand raises IndexError on a short command, before
   * the operand count is checked; a wrong count fails before anything is touched; a name that is not
   * an operation does nothing.
   */
  function Operation<S>(fs: FileSystem<S>, s: S, base: Path, command: seq<string>): (r: Step<S>)
    ensures |command| <= 1 ==> r == Stop(Raised(IndexError), s)
    ensures |command| >= 2 && |command| - 1 != Arity(Lower(command[0])) ==>
      r == Stop(Failure(WrongCount(Lower(command[0]))), s)
    ensures |command| >= 2 && Lower(command[0]) !in Operations && |command| == 3 ==> r == Continue(s)
    ensures r.Stop? && r.state != s ==> |command| >= 2 && Lower(command[0]) in Operations
  {
    if |command| == 0 then Stop(Raised(IndexError), s)
    else
      var name := Lower(command[0]);
      var args := Operands(base, command);
      if |args| == 0 then Stop(Raised(IndexError), s)
      else
        var target := fs.isFile(s, args[0]);
        if |args| != Arity(name) then Stop(Failure(WrongCount(name)), s)
        else if name !in Operations then Continue(s)
        else
          match fs.perform(s, name, target, args)
          case Done(s') => Continue(s')
          case Failed(s', strerror) =>
            Stop(Failure("Could not " + name + " " + (if target then "file" else "directory") + ".\n\n"
                         + Join(Shown(fs.show, args), " -> ") + "\n\n" + strerror), s')
  }

  /**
   * The loop from command i on: cancellation is checked before the command, and progress i/n is
   * reported after it has been performed.
   */
  function RunFrom<S>(fs: FileSystem<S>, base: Path, ops: seq<seq<string>>, i: nat, s: S,
                      cancelAt: Option<nat>, reports: seq<real>): (r: OpRun<S>)
    requires i <= |ops| && |reports| == i
    requires forall j :: 0 <= j < i ==> reports[j] == j as real / |ops| as real
    ensures i <= |r.reports| <= |ops| && r.reports[..i] == reports
    ensures forall j :: 0 <= j < |r.reports| ==> r.reports[j] == j as real / |ops| as real
    ensures r.outcome.Success? ==> |r.reports| == |ops|
    decreases |ops| - i
  {
    if i == |ops| then OpRun(Success, s, reports)
    else if cancelAt == Some(i) then OpRun(Cancelled, s, reports)
    else
      match Operation(fs, s, base, ops[i])
      case Stop(outcome, s') => OpRun(outcome, s', reports)
      case Continue(s') => RunFrom(fs, base, ops, i + 1, s', cancelAt, reports + [i as real / |ops| as real])
  }

  /** run_impl; `cancelAt` is the command before which cancellation is first seen. */
  function RunOperations<S>(fs: FileSystem<S>, base: Path, ops: seq<seq<string>>, s: S, cancelAt: Option<nat>): (r: OpRun<S>)
    ensures |r.reports| <= |ops|
    ensures forall j :: 0 <= j < |r.reports| ==> r.reports[j] == j as real / |ops| as real
    ensures r.outcome.Success? ==> |r.reports| == |ops|
  {
    RunFrom(fs, base, ops, 0, s, cancelAt, [])
  }

  // ---------------------------------------------------------------- properties

  lemma {:induction false} LowerIdempotent(s: string)
    ensures Lower(Lower(s)) == Lower(s)
  {
    if s != [] {
      LowerIdempotent(s[1..]);
    }
  }

  /** Two commands whose names differ only in letter case do the same thing. */
  lemma NameCaseInsensitive<S>(fs: FileSystem<S>, s: S, base: Path, c: seq<string>, d: seq<string>)
    requires |c| == |d| >= 1 && Lower(c[0]) == Lower(d[0]) && c[1..] == d[1..]
    ensures Operation(fs, s, base, c) == Operation(fs, s, base, d)
  {
    assert Operands(base, c) == Operands(base, d);
  }

  /** A command is stopped for its operand count exactly when that count is not the name's arity. */
  lemma WrongCountIff<S>(fs: FileSystem<S>, s: S, base: Path, command: seq<string>)
    requires |command| >= 2
    ensures Operation(fs, s, base, command) == Stop(Failure(WrongCount(Lower(command[0]))), s)
        <==> |command| - 1 != Arity(Lower(command[0]))
  {
    var name := Lower(command[0]);
    if |command| - 1 == Arity(name) && name in Operations {
      match fs.perform(s, name, fs.isFile(s, Operands(base, command)[0]), Operands(base, command))
      case Done(_) =>
      case Failed(_, strerror) =>
        assert Operation(fs, s, base, command).outcome.message[0] == 'C';
        assert WrongCount(name)[0] == 'W';
    }
  }

  /** A mixed-case "DELETE" with one operand passes the count check. */
  lemma MixedCaseDelete<S>(fs: FileSystem<S>, s: S, base: Path, p: string)
    ensures Operation(fs, s, base, ["DeLeTe", p]) == Operation(fs, s, base, ["delete", p])
    ensures Operation(fs, s, base, ["DeLeTe", p]) != Stop(Failure(WrongCount("delete")), s)
  {
    assert Lower("DeLeTe") == "delete";
    NameCaseInsensitive(fs, s, base, ["DeLeTe", p], ["delete", p]);
    WrongCountIff(fs, s, base, ["delete", p]);
  }

  /** A command seen after cancellation is never performed: the state is the one before it. */
  lemma CancelledFirst<S>(fs: FileSystem<S>, base: Path, ops: seq<seq<string>>, s: S)
    requires |ops| > 0
    ensures RunOperations(fs, base, ops, s, Some(0)) == OpRun(Cancelled, s, [])
  {
  }

  /** A task whose first command has the wrong operand count fails with nothing touched. */
  lemma {:induction false} FirstWrongCount<S>(fs: FileSystem<S>, base: Path, ops: seq<seq<string>>, s: S, cancelAt: Option<nat>)
    requires |ops| > 0 && |ops[0]| >= 2 && |ops[0]| - 1 != Arity(Lower(ops[0][0]))
    requires cancelAt != Some(0)
    ensures RunOperations(fs, base, ops, s, cancelAt) == OpRun(Failure(WrongCount(Lower(ops[0][0]))), s, [])
  {
  }

  /** Commands that are not operations leave the state as it was and report every step. */
  lemma {:induction false} UnknownOnly<S>(fs: FileSystem<S>, base: Path, ops: seq<seq<string>>, i: nat, s: S, reports: seq<real>)
    requires i <= |ops| && |reports| == i
    requires forall j :: 0 <= j < i ==> reports[j] == j as real / |ops| as real
    requires forall j :: i <= j < |ops| ==> |ops[j]| == 3 && Lower(ops[j][0]) !in Operations
    ensures RunFrom(fs, base, ops, i, s, None, reports).outcome == Success
    ensures RunFrom(fs, base, ops, i, s, None, reports).state == s
    decreases |ops| - i
  {
    if i < |ops| {
      UnknownOnly(fs, base, ops, i + 1, s, reports + [i as real / |ops| as real]);
    }
  }
}
