/**
 * The two small list files the application keeps: recent.txt, the most recently opened project files
 * (most recent first, at most eight), and dependencies.txt in a project's environment directory, the
 * names of the dependencies whose setup has finished. Both are one entry per line, written with
 * Windows line endings.
 */
module Files {
  import opened Outcomes
  import opened Text

  const ProjectFileName: string := "decomplicator.toml"
  const DependenciesFileName: string := "dependencies.txt"

  /** The length recent.txt is cut to. */
  const RecentProjectCount: nat := 8

  /** A file on disk: missing, present with its bytes decoded, or present but failing to read (OSError). */
  datatype FileState = Absent | Present(text: string) | Unreadable

  predicate NoDuplicates(xs: seq<string>) {
    forall i, j :: 0 <= i < j < |xs| ==> xs[i] != xs[j]
  }

  /** `sub` can be had from `xs` by deleting elements: its elements appear in `xs` in the same order. */
  predicate IsSubsequence(sub: seq<string>, xs: seq<string>)
    decreases |xs|
  {
    if sub == [] then true
    else if xs == [] then false
    else if sub[0] == xs[0] then IsSubsequence(sub[1..], xs[1..])
    else IsSubsequence(sub, xs[1..])
  }

  lemma ConsDistinct(x: string, xs: seq<string>)
    requires NoDuplicates(xs) && x !in xs
    ensures NoDuplicates([x] + xs)
  {
    var ys := [x] + xs;
    forall i, j | 0 <= i < j < |ys| ensures ys[i] != ys[j] {
      assert ys[j] == xs[j - 1];
      if i > 0 {
        assert ys[i] == xs[i - 1];
      }
    }
  }

  /** The elements of `xs` that are in `keep`, in order. */
  function Only(xs: seq<string>, keep: set<string>): (r: seq<string>)
    ensures |r| <= |xs|
    ensures forall x :: x in r <==> x in xs && x in keep
    ensures IsSubsequence(r, xs)
    ensures SameCounts(r, xs, keep)
    ensures (forall k :: 0 <= k < |xs| ==> xs[k] in keep) ==> r == xs
  {
    FilterKeeps(xs, keep);
    Filter(xs, keep)
  }

  /** The list comprehension itself, one element at a time. */
  function Filter(xs: seq<string>, keep: set<string>): seq<string>
    decreases |xs|
  {
    if xs == [] then [] else (if xs[0] in keep then [xs[0]] else []) + Filter(xs[1..], keep)
  }

  /** What the comprehension keeps: exactly the elements in `keep`, each as often, in order. */
  lemma FilterKeeps(xs: seq<string>, keep: set<string>)
    ensures |Filter(xs, keep)| <= |xs|
    ensures forall x :: x in Filter(xs, keep) <==> x in xs && x in keep
    ensures IsSubsequence(Filter(xs, keep), xs)
    ensures SameCounts(Filter(xs, keep), xs, keep)
    ensures (forall k :: 0 <= k < |xs| ==> xs[k] in keep) ==> Filter(xs, keep) == xs
  {
    FilterMembers(xs, keep);
    FilterOrder(xs, keep);
    FilterCounts(xs, keep);
    FilterAll(xs, keep);
  }

  /** One step of the comprehension. */
  lemma FilterCons(xs: seq<string>, keep: set<string>)
    requires xs != []
    ensures Filter(xs, keep) == (if xs[0] in keep then [xs[0]] + Filter(xs[1..], keep) else Filter(xs[1..], keep))
  {
  }

  lemma {:induction false} FilterMembers(xs: seq<string>, keep: set<string>)
    ensures |Filter(xs, keep)| <= |xs|
    ensures forall x :: x in Filter(xs, keep) <==> x in xs && x in keep
    decreases |xs|
  {
    if xs != [] {
      FilterCons(xs, keep);
      FilterMembers(xs[1..], keep);
      assert xs == [xs[0]] + xs[1..];
    }
  }

  lemma {:induction false} FilterOrder(xs: seq<string>, keep: set<string>)
    ensures IsSubsequence(Filter(xs, keep), xs)
    decreases |xs|
  {
    if xs != [] {
      var rest := Filter(xs[1..], keep);
      FilterCons(xs, keep);
      FilterOrder(xs[1..], keep);
      if xs[0] in keep {
        assert ([xs[0]] + rest)[1..] == rest;
      } else {
        FilterMembers(xs[1..], keep);
        assert rest != [] ==> rest[0] in rest;
      }
    }
  }

  lemma {:induction false} FilterCounts(xs: seq<string>, keep: set<string>)
    ensures SameCounts(Filter(xs, keep), xs, keep)
    decreases |xs|
  {
    if xs != [] {
      FilterCons(xs, keep);
      FilterCounts(xs[1..], keep);
      OnlyCountStep(xs[0], xs[1..], keep, Filter(xs[1..], keep));
      assert [xs[0]] + xs[1..] == xs;
    }
  }

  lemma {:induction false} FilterAll(xs: seq<string>, keep: set<string>)
    ensures (forall k :: 0 <= k < |xs| ==> xs[k] in keep) ==> Filter(xs, keep) == xs
    decreases |xs|
  {
    if xs != [] && forall k :: 0 <= k < |xs| ==> xs[k] in keep {
      FilterCons(xs, keep);
      assert xs[0] in keep;
      assert forall k :: 0 <= k < |xs[1..]| ==> xs[1..][k] == xs[k + 1];
      FilterAll(xs[1..], keep);
      assert xs == [xs[0]] + xs[1..];
    }
  }

  /** Filtering distributes over concatenation. */
  lemma {:induction false} FilterAppend(xs: seq<string>, ys: seq<string>, keep: set<string>)
    ensures Filter(xs + ys, keep) == Filter(xs, keep) + Filter(ys, keep)
    decreases |xs|
  {
    if xs == [] {
      assert xs + ys == ys;
    } else {
      assert (xs + ys)[1..] == xs[1..] + ys;
      FilterAppend(xs[1..], ys, keep);
    }
  }

  /** Every element of `keep` occurs in `r` as often as in `xs`, and nothing else occurs in `r`. */
  ghost predicate SameCounts(r: seq<string>, xs: seq<string>, keep: set<string>) {
    forall y :: multiset(r)[y] == (if y in keep then multiset(xs)[y] else 0)
  }

  /** One step of the filter keeps the counts. */
  lemma OnlyCountStep(x: string, t: seq<string>, keep: set<string>, rest: seq<string>)
    requires SameCounts(rest, t, keep)
    ensures SameCounts(if x in keep then [x] + rest else rest, [x] + t, keep)
  {
    assert multiset([x] + t) == multiset([x]) + multiset(t);
    assert multiset([x] + rest) == multiset([x]) + multiset(rest);
  }

  /** The elements of `xs` that are not in `drop`, in order. */
  function Except(xs: seq<string>, drop: set<string>): (r: seq<string>)
    ensures |r| <= |xs|
    ensures forall x :: x in r <==> x in xs && x !in drop
    ensures NoDuplicates(xs) ==> NoDuplicates(r)
    ensures (forall k :: 0 <= k < |xs| ==> xs[k] !in drop) ==> r == xs
  {
    if xs == [] then []
    else
      DropFirstDistinct(xs);
      (if xs[0] in drop then [] else [xs[0]]) + Except(xs[1..], drop)
  }

  /**
   * The list without repeats, each element where it first occurs: the reference the dedup loop of
   * add_recent_project is measured against.
   */
  function Dedup(xs: seq<string>): (r: seq<string>)
    ensures NoDuplicates(r)
    ensures forall x :: x in r <==> x in xs
    ensures |r| <= |xs|
  {
    if xs == [] then []
    else
      var rest := Except(Dedup(xs[1..]), {xs[0]});
      ConsDistinct(xs[0], rest);
      [xs[0]] + rest
  }

  /** str.strip() applied to every element. */
  function StripAll(xs: seq<string>): (r: seq<string>)
    ensures |r| == |xs|
    ensures forall k :: 0 <= k < |r| ==> r[k] == Strip(xs[k])
  {
    seq(|xs|, k requires 0 <= k < |xs| => Strip(xs[k]))
  }

  /**
   * The entries of a list file as read back: read_text (universal newlines), splitlines, drop the
   * empty lines, strip each of the rest. A line of blanks becomes an empty entry.
   */
  function Entries(text: string): (r: seq<string>)
    ensures forall k :: 0 <= k < |r| ==> IsStripped(r[k]) && NoLineBreak(r[k])
  {
    var lines := SplitLines(UniversalNewlines(text));
    StrippedLinesLineFree(lines);
    StripAll(NonEmpty(lines))
  }

  /** The kept lines, stripped, are stripped and stay line-free. */
  lemma StrippedLinesLineFree(lines: seq<string>)
    requires forall k :: 0 <= k < |lines| ==> NoLineBreak(lines[k])
    ensures forall k :: 0 <= k < |StripAll(NonEmpty(lines))| ==>
      IsStripped(StripAll(NonEmpty(lines))[k]) && NoLineBreak(StripAll(NonEmpty(lines))[k])
  {
    var ne := NonEmpty(lines);
    var r := StripAll(ne);
    forall k | 0 <= k < |r| ensures IsStripped(r[k]) && NoLineBreak(r[k]) {
      assert r[k] == Strip(ne[k]);
      assert ne[k] in lines;
      StripKeeps(ne[k]);
    }
  }

  /** What write_text puts on disk for a list of entries: one per line, Windows line endings. */
  function ListText(entries: seq<string>): (r: string)
    ensures (forall k :: 0 <= k < |entries| ==> NoLineBreak(entries[k])) ==> UniversalNewlines(r) == Join(entries, "\n")
  {
    JoinReadBack(entries);
    WindowsNewlines(Join(entries, "\n"))
  }

  // ---------------------------------------------------------------- recent projects

  /**
   * get_recent_project_files: the entries of recent.txt whose project file exists, in file order. A file
   * that is missing or cannot be read gives no projects.
   */
  function RecentProjects(f: FileState, existing: set<string>): (r: seq<string>)
    ensures f.Present? ==> forall x :: x in r <==> x in Entries(f.text) && x in existing
    ensures f.Present? ==> IsSubsequence(r, Entries(f.text))
    ensures f.Present? ==> SameCounts(r, Entries(f.text), existing)
    ensures forall x :: x in r ==> IsStripped(x) && NoLineBreak(x) && x in existing
    ensures !f.Present? ==> r == []
  {
    if f.Present? then
      var es := Entries(f.text);
      assert forall x :: x in es ==> IsStripped(x) && NoLineBreak(x) by {
        forall x | x in es ensures IsStripped(x) && NoLineBreak(x) {
          var k :| 0 <= k < |es| && es[k] == x;
        }
      }
      Only(es, existing)
    else []
  }

  /** The loop of add_recent_project: each element of `xs` not yet in `acc` is appended. */
  function AppendNew(acc: seq<string>, xs: seq<string>): (r: seq<string>)
    ensures forall x :: x in r <==> x in acc || x in xs
    ensures |acc| <= |r| <= |acc| + |xs| && r[..|acc|] == acc
    ensures NoDuplicates(acc) ==> NoDuplicates(r)
    decreases |xs|
  {
    if xs == [] then acc
    else AppendNew(if xs[0] in acc then acc else acc + [xs[0]], xs[1..])
  }

  /** The first `n` elements, or all of them: xs[:n]. */
  function Take(xs: seq<string>, n: nat): (r: seq<string>)
    ensures |r| <= n && r <= xs
    ensures |xs| <= n ==> r == xs
  {
    if |xs| <= n then xs else xs[..n]
  }

  /** The new recent list: the project first, then the earlier entries without repeats, cut to eight. */
  function RecentAfterAdd(prev: seq<string>, p: string): (r: seq<string>)
    ensures 1 <= |r| <= RecentProjectCount && r[0] == p
    ensures NoDuplicates(r)
    ensures forall x :: x in r ==> x == p || x in prev
  {
    var all := AppendNew([p], prev);
    assert all[..1] == [p];
    Take(all, RecentProjectCount)
  }

  /**
   * add_recent_project: the new list is written to recent.txt; a write failure is only logged. The
   * model treats a failed write as one that fails before the file is opened, so the file keeps its
   * old contents.
   */
  function AddRecentProject(f: FileState, existing: set<string>, p: string, writeOk: bool): (r: FileState)
    ensures !writeOk ==> r == f
    ensures writeOk ==> r.Present?
    ensures writeOk && p != "" && NoLineBreak(p) && IsStripped(p) && p in existing && "" !in existing ==>
      RecentProjects(r, existing) == RecentAfterAdd(RecentProjects(f, existing), p)
  {
    if writeOk then
      var list := RecentAfterAdd(RecentProjects(f, existing), p);
      if p != "" && NoLineBreak(p) && IsStripped(p) && p in existing && "" !in existing then
        assert forall k :: 0 <= k < |list| ==> list[k] in list;
        RecentListReadBack(list, existing);
        Present(ListText(list))
      else Present(ListText(list))
    else f
  }

  // ---------------------------------------------------------------- finished dependencies

  /**
   * get_project_dependencies_done: a missing file lists nothing; a read error propagates; otherwise the
   * stripped non-empty lines. DependenciesReadBack states what a written list reads back as.
   */
  function DependenciesDone(f: FileState): (r: Result<seq<string>, string>)
    ensures f.Unreadable? <==> r.Err?
    ensures f.Absent? ==> r == Ok([])
    ensures f.Present? ==> r == Ok(Entries(f.text))
    ensures r.Ok? ==> forall k :: 0 <= k < |r.value| ==> IsStripped(r.value[k]) && NoLineBreak(r.value[k])
  {
    match f
    case Absent => Ok([])
    case Unreadable => Err("OSError")
    case Present(text) => Ok(Entries(text))
  }

  /**
   * mark_project_dependency_done: a name already listed leaves the file alone; otherwise it is
   * appended and the whole list rewritten. Read and write errors propagate.
   */
  function MarkDependencyDone(f: FileState, d: string, writeOk: bool): (r: Result<FileState, string>)
    ensures f.Unreadable? ==> r.Err?
    ensures DependenciesDone(f).Ok? && d in DependenciesDone(f).value ==> r == Ok(f)
    ensures DependenciesDone(f).Ok? && d !in DependenciesDone(f).value ==> (r.Ok? <==> writeOk)
    ensures r.Ok? ==> r.value.Present? || r.value == f
    ensures !f.Unreadable? && writeOk && d != "" && NoLineBreak(d) && IsStripped(d) ==>
      r.Ok? && DependenciesDone(r.value) == Ok(if d in DependenciesDone(f).value then DependenciesDone(f).value
                                               else NonEmpty(DependenciesDone(f).value) + [d])
  {
    match DependenciesDone(f)
    case Err(e) => Err(e)
    case Ok(done) =>
      if d in done then Ok(f)
      else if !writeOk then Err("OSError")
      else if d != "" && NoLineBreak(d) && IsStripped(d) then
        DependenciesReadBack(done + [d]);
        NonEmptyAppend(done, [d]);
        assert NonEmpty([d]) == [d];
        Ok(Present(ListText(done + [d])))
      else Ok(Present(ListText(done + [d])))
  }

  // ---------------------------------------------------------------- properties

  lemma NoReturnInJoin(parts: seq<string>)
    requires forall k :: 0 <= k < |parts| ==> NoLineBreak(parts[k])
    ensures '\r' !in Join(parts, "\n")
  {
    if |parts| > 1 {
      NoReturnInJoin(parts[1..]);
      assert '\r' !in parts[0];
    } else if |parts| == 1 {
      assert '\r' !in parts[0];
    }
  }

  /** Break-free entries joined with "\n" come back unchanged through universal-newline reading. */
  lemma JoinReadBack(entries: seq<string>)
    ensures (forall k :: 0 <= k < |entries| ==> NoLineBreak(entries[k])) ==>
      UniversalNewlines(WindowsNewlines(Join(entries, "\n"))) == Join(entries, "\n")
  {
    if forall k :: 0 <= k < |entries| ==> NoLineBreak(entries[k]) {
      NoReturnInJoin(entries);
      NewlinesRoundTrip(Join(entries, "\n"));
    }
  }

  lemma StripAllStripped(xs: seq<string>)
    requires forall k :: 0 <= k < |xs| ==> IsStripped(xs[k])
    ensures StripAll(xs) == xs
  {
    forall k | 0 <= k < |xs| ensures StripAll(xs)[k] == xs[k] {
      StripStripped(xs[k]);
    }
  }

  /**
   * A list of line-free, stripped entries survives being written and read back, except that empty
   * entries are lost.
   */
  lemma ListRoundTrip(entries: seq<string>)
    requires forall k :: 0 <= k < |entries| ==> NoLineBreak(entries[k]) && IsStripped(entries[k])
    ensures Entries(ListText(entries)) == NonEmpty(entries)
  {
    var ne := NonEmpty(entries);
    calc {
      Entries(ListText(entries));
      StripAll(NonEmpty(SplitLines(UniversalNewlines(ListText(entries)))));
      { JoinReadBack(entries); }
      StripAll(NonEmpty(SplitLines(Join(entries, "\n"))));
      { SplitLinesJoin(entries); }
      StripAll(ne);
      { assert forall k :: 0 <= k < |ne| ==> ne[k] in entries;
        StripAllStripped(ne); }
      ne;
    }
  }

  lemma {:induction false} NonEmptyOfNonEmpty(xs: seq<string>)
    requires forall k :: 0 <= k < |xs| ==> xs[k] != ""
    ensures NonEmpty(xs) == xs
  {
    if xs != [] {
      NonEmptyOfNonEmpty(xs[1..]);
    }
  }

  /** recent.txt written from a list of existing, non-empty, well-formed paths reads back as that list. */
  lemma RecentListReadBack(r: seq<string>, existing: set<string>)
    requires forall k :: 0 <= k < |r| ==> r[k] != "" && NoLineBreak(r[k]) && IsStripped(r[k]) && r[k] in existing
    ensures RecentProjects(Present(ListText(r)), existing) == r
  {
    ListRoundTrip(r);
    NonEmptyOfNonEmpty(r);
  }

  lemma DropFirstDistinct(xs: seq<string>)
    requires xs != []
    ensures NoDuplicates(xs) ==> NoDuplicates(xs[1..]) && xs[0] !in xs[1..]
  {
    assert forall k :: 0 <= k < |xs[1..]| ==> xs[1..][k] == xs[k + 1];
  }

  lemma ExceptCons(x: string, xs: seq<string>, drop: set<string>)
    ensures Except([x] + xs, drop) == (if x in drop then [] else [x]) + Except(xs, drop)
  {
    assert ([x] + xs)[1..] == xs;
  }

  /** Dropping in two rounds is dropping the union once. */
  lemma {:induction false} ExceptExcept(xs: seq<string>, d1: set<string>, d2: set<string>)
    ensures Except(Except(xs, d1), d2) == Except(xs, d1 + d2)
  {
    if xs != [] {
      ExceptExcept(xs[1..], d1, d2);
      ExceptExceptStep(xs, d1, d2);
    }
  }

  /** The step of ExceptExcept: the property passes from the tail to the whole list. */
  lemma ExceptExceptStep(xs: seq<string>, d1: set<string>, d2: set<string>)
    requires xs != []
    requires Except(Except(xs[1..], d1), d2) == Except(xs[1..], d1 + d2)
    ensures Except(Except(xs, d1), d2) == Except(xs, d1 + d2)
  {
    var x, t := xs[0], xs[1..];
    if x in d1 {
      assert Except(xs, d1) == Except(t, d1);
      assert Except(xs, d1 + d2) == Except(t, d1 + d2);
    } else {
      var e1 := Except(t, d1);
      assert Except(xs, d1) == [x] + e1;
      ExceptCons(x, e1, d2);
    }
  }

  /** One step of Dedup seen through Except. */
  lemma DedupExcept(xs: seq<string>, seen: set<string>)
    requires xs != []
    ensures Except(Dedup(xs), seen) ==
      (if xs[0] in seen then [] else [xs[0]]) + Except(Dedup(xs[1..]), {xs[0]} + seen)
  {
    var x, rest := xs[0], Dedup(xs[1..]);
    assert Dedup(xs) == [x] + Except(rest, {x});
    ExceptCons(x, Except(rest, {x}), seen);
    ExceptExcept(rest, {x}, seen);
  }

  /**
   * The loop appends exactly the deduplicated input without what was collected already: its result
   * is `acc` followed by the first occurrences, in order, of the elements not yet in `acc`.
   */
  lemma {:induction false} AppendNewDedup(acc: seq<string>, xs: seq<string>, seen: set<string>)
    requires forall x :: x in seen <==> x in acc
    ensures AppendNew(acc, xs) == acc + Except(Dedup(xs), seen)
    decreases |xs|, 1
  {
    if xs != [] {
      if xs[0] in acc {
        AppendNewSkips(acc, xs, seen);
      } else {
        AppendNewAppends(acc, xs, seen);
      }
    }
  }

  /** The step of AppendNewDedup for an element collected already. */
  lemma {:induction false} AppendNewSkips(acc: seq<string>, xs: seq<string>, seen: set<string>)
    requires forall x :: x in seen <==> x in acc
    requires xs != [] && xs[0] in acc
    ensures AppendNew(acc, xs) == acc + Except(Dedup(xs), seen)
    decreases |xs|, 0
  {
    var x, t := xs[0], xs[1..];
    DedupExcept(xs, seen);
    assert {x} + seen == seen;
    assert Except(Dedup(xs), seen) == Except(Dedup(t), seen);
    assert AppendNew(acc, xs) == AppendNew(acc, t);
    AppendNewDedup(acc, t, seen);
  }

  /** The step of AppendNewDedup for an element not collected yet. */
  lemma {:induction false} AppendNewAppends(acc: seq<string>, xs: seq<string>, seen: set<string>)
    requires forall x :: x in seen <==> x in acc
    requires xs != [] && xs[0] !in acc
    ensures AppendNew(acc, xs) == acc + Except(Dedup(xs), seen)
    decreases |xs|, 0
  {
    var x, t := xs[0], xs[1..];
    var tail := Except(Dedup(t), seen + {x});
    calc {
      AppendNew(acc, xs);
      AppendNew(acc + [x], t);
      { SeenGrows(acc, seen, x); AppendNewDedup(acc + [x], t, seen + {x}); }
      (acc + [x]) + tail;
      acc + ([x] + tail);
      { DedupExceptNew(xs, seen); }
      acc + Except(Dedup(xs), seen);
    }
  }

  lemma DedupExceptNew(xs: seq<string>, seen: set<string>)
    requires xs != [] && xs[0] !in seen
    ensures Except(Dedup(xs), seen) == [xs[0]] + Except(Dedup(xs[1..]), seen + {xs[0]})
  {
    DedupExcept(xs, seen);
    assert {xs[0]} + seen == seen + {xs[0]};
  }

  lemma SeenGrows(acc: seq<string>, seen: set<string>, x: string)
    requires forall y :: y in seen <==> y in acc
    ensures forall y :: y in seen + {x} <==> y in acc + [x]
  {
  }

  /** A list without repeats is its own deduplication. */
  lemma {:induction false} DedupDistinct(xs: seq<string>)
    requires NoDuplicates(xs)
    ensures Dedup(xs) == xs
  {
    if xs != [] {
      var x, t := xs[0], xs[1..];
      DropFirstDistinct(xs);
      assert Dedup(t) == t by {
        DedupDistinct(t);
      }
      assert Except(t, {x}) == t by {
        assert forall k :: 0 <= k < |t| ==> t[k] in t;
      }
      assert Dedup(xs) == [x] + t;
      assert xs == [x] + t;
    }
  }

  /**
   * The new recent list is the project followed by the deduplicated earlier list with the project
   * taken out, cut to eight: the relative order of the other projects is kept.
   */
  lemma RecentAfterAddOrder(prev: seq<string>, p: string)
    ensures RecentAfterAdd(prev, p) == Take([p] + Except(Dedup(prev), {p}), RecentProjectCount)
  {
    AppendNewDedup([p], prev, {p});
  }

  /** When fewer than eight projects were listed, the cut drops none of them. */
  lemma RecentKeepsAll(prev: seq<string>, p: string)
    requires |prev| < RecentProjectCount
    ensures forall x :: x in prev ==> x in RecentAfterAdd(prev, p)
  {
    var all := AppendNew([p], prev);
    assert Take(all, RecentProjectCount) == all;
  }

  /** Without repeats in the earlier list, nothing but the project itself is moved. */
  lemma RecentAfterAddDistinct(prev: seq<string>, p: string)
    requires NoDuplicates(prev)
    ensures RecentAfterAdd(prev, p) == Take([p] + Except(prev, {p}), RecentProjectCount)
  {
    RecentAfterAddOrder(prev, p);
    DedupDistinct(prev);
  }

  /** Keeping the elements of a concatenation keeps those of each part, one part after the other. */
  lemma OnlyAppend(xs: seq<string>, ys: seq<string>, keep: set<string>)
    ensures Only(xs + ys, keep) == Only(xs, keep) + Only(ys, keep)
  {
    FilterAppend(xs, ys, keep);
  }

  /** A list of dependency names written to dependencies.txt reads back as its non-empty names, in order. */
  lemma DependenciesReadBack(ls: seq<string>)
    requires forall k :: 0 <= k < |ls| ==> NoLineBreak(ls[k]) && IsStripped(ls[k])
    ensures DependenciesDone(Present(ListText(ls))) == Ok(NonEmpty(ls))
  {
    ListRoundTrip(ls);
  }

  /** Marking twice is the same as marking once. */
  lemma MarkIdempotent(f: FileState, d: string)
    requires !f.Unreadable?
    requires d != "" && NoLineBreak(d) && IsStripped(d)
    ensures var g := MarkDependencyDone(f, d, true).value;
      MarkDependencyDone(g, d, true) == Ok(g)
  {
    var done := DependenciesDone(f).value;
    if d !in done {
      assert d in NonEmpty(done) + [d];
    }
  }
}
