/**
 * doctest's subcase scheduler: a test body is run again and again, each run entering one
 * more leaf of its tree of subcases, until no run had to skip anything.
 */
module Subcases {
  import opened Bytes
  import opened Wildcard

  datatype Signature = Signature(name: CString, file: CString, line: int)

  /** What the body of a test does, as far as the scheduler sees: nested subcases, in program order. */
  datatype Block = Subcase(sig: Signature, body: seq<Block>)

  /** The name filters that apply to the first `levels` levels. */
  datatype Filters = Filters(levels: int, only: seq<CString>, except: seq<CString>, caseSensitive: bool)

  const UNFILTERED := Filters(0, [], [], true)

  ghost predicate Allowed(o: Filters, sig: Signature, level: nat) {
    level < o.levels ==>
      && (o.only == [] || MatchesSome(sig.name, o.only, o.caseSensitive))
      && !MatchesSome(sig.name, o.except, o.caseSensitive)
  }

  /** The scheduler's state; `started` lists the subcases the current run reported as started. */
  datatype Status = Status(
    passed: set<Signature>,
    entered: set<int>,
    level: nat,
    reenter: bool,
    started: seq<Signature>)

  /** What the `Subcase` constructor decides: enter, skip for now, or ignore. */
  datatype Decision = Enter | Postpone | Ignore

  ghost function Decide(o: Filters, sig: Signature, st: Status): Decision {
    if sig in st.passed || !Allowed(o, sig, st.level) then Ignore
    else if st.level in st.entered then Postpone
    else Enter
  }

  ghost function Entered(sig: Signature, st: Status): Status {
    st.(entered := st.entered + {st.level}, level := st.level + 1, started := st.started + [sig])
  }

  ghost function Left(sig: Signature, st: Status): Status
    requires st.level > 0
  {
    st.(level := st.level - 1, passed := if st.reenter then st.passed else st.passed + {sig})
  }

  /** One run over a piece of the body. */
  ghost function Exec(o: Filters, f: seq<Block>, st: Status): (r: Status)
    ensures r.level == st.level
    decreases f, 0
  {
    if f == [] then st else Exec(o, f[1..], ExecOne(o, f[0], st))
  }

  ghost function ExecOne(o: Filters, b: Block, st: Status): (r: Status)
    ensures r.level == st.level
    decreases b, 1
  {
    match Decide(o, b.sig, st)
    case Ignore => st
    case Postpone => st.(reenter := true)
    case Enter => Left(b.sig, Exec(o, b.body, Entered(b.sig, st)))
  }

  // ---- what a tree of subcases promises ----

  function Prepend(sig: Signature, paths: seq<seq<Signature>>): (r: seq<seq<Signature>>)
    ensures |r| == |paths|
    ensures forall i :: 0 <= i < |r| ==> r[i] == [sig] + paths[i]
  {
    if paths == [] then [] else [[sig] + paths[0]] + Prepend(sig, paths[1..])
  }

  /** The leaves of a body in program order, each as the path of subcases that leads to it. */
  function Paths(f: seq<Block>): seq<seq<Signature>>
    decreases f, 0
  {
    if f == [] then [] else PathsOne(f[0]) + Paths(f[1..])
  }

  function PathsOne(b: Block): (r: seq<seq<Signature>>)
    ensures r != []
    decreases b, 1
  {
    if Paths(b.body) == [] then [[b.sig]] else Prepend(b.sig, Paths(b.body))
  }

  function Signatures(f: seq<Block>): set<Signature>
    decreases f, 0
  {
    if f == [] then {} else SignaturesOne(f[0]) + Signatures(f[1..])
  }

  function SignaturesOne(b: Block): set<Signature>
    decreases b, 1
  {
    {b.sig} + Signatures(b.body)
  }

  /**
   * How signatures may repeat: siblings' subtrees share none, and a block's own one recurs
   * below it, if at all, only on the chain of last children.
   */
  ghost predicate WellSigned(f: seq<Block>)
    decreases f, 0
  {
    f != [] ==> WellSignedOne(f[0]) && WellSigned(f[1..]) && SignaturesOne(f[0]) !! Signatures(f[1..])
  }

  ghost predicate WellSignedOne(b: Block)
    decreases b, 1
  {
    OnLastChain(b.sig, b.body) && WellSigned(b.body)
  }

  /** Only the last block of `f` may bear the signature in its subtree, and below itself only on its own chain. */
  ghost predicate OnLastChain(sig: Signature, f: seq<Block>)
    decreases f
  {
    if f == [] then true
    else if |f| == 1 then OnLastChain(sig, f[0].body)
    else sig !in SignaturesOne(f[0]) && OnLastChain(sig, f[1..])
  }

  /** The subcases all of whose leaves are among the first `k`. */
  ghost function Finished(f: seq<Block>, k: nat): set<Signature>
    decreases f, 0
  {
    if f == [] then {}
    else
      var n := |PathsOne(f[0])|;
      FinishedOne(f[0], k) + Finished(f[1..], if k < n then 0 else k - n)
  }

  ghost function FinishedOne(b: Block, k: nat): set<Signature>
    decreases b, 1
  {
    if |PathsOne(b)| <= k then SignaturesOne(b) else Finished(b.body, k)
  }

  // ---- facts about the tree ----

  lemma {:induction false} NoLeafNoBlock(f: seq<Block>)
    ensures Paths(f) == [] <==> f == []
  {
  }

  lemma {:induction false} NothingFinishedAtFirst(f: seq<Block>)
    ensures Finished(f, 0) == {}
    decreases f
  {
    if f != [] {
      NothingFinishedAtFirst(f[1..]);
      NothingFinishedAtFirst(f[0].body);
    }
  }

  lemma {:induction false} AllFinishedAtLast(f: seq<Block>, k: nat)
    requires |Paths(f)| <= k
    ensures Finished(f, k) == Signatures(f)
    decreases f
  {
    if f != [] {
      AllFinishedAtLast(f[1..], k - |PathsOne(f[0])|);
    }
  }

  lemma {:induction false} FinishedIsPart(f: seq<Block>, k: nat)
    ensures Finished(f, k) <= Signatures(f)
    decreases f
  {
    if f != [] {
      FinishedIsPart(f[0].body, k);
      var n := |PathsOne(f[0])|;
      FinishedIsPart(f[1..], if k < n then 0 else k - n);
    }
  }

  lemma OneFinishedIsPart(b: Block, k: nat)
    ensures FinishedOne(b, k) <= SignaturesOne(b)
  {
    FinishedIsPart(b.body, k);
  }

  lemma {:induction false} FinishedGrows(f: seq<Block>, k: nat)
    ensures Finished(f, k) <= Finished(f, k + 1)
    decreases f
  {
    if f != [] {
      var n := |PathsOne(f[0])|;
      FinishedGrows(f[0].body, k);
      FinishedIsPart(f[0].body, k);
      FinishedGrows(f[1..], if k < n then 0 else k - n);
    }
  }

  lemma {:induction false} FinishedUpTo(f: seq<Block>, k: nat, n: nat)
    requires k <= n
    ensures Finished(f, k) <= Finished(f, n)
    decreases n - k
  {
    if k < n {
      FinishedGrows(f, k);
      FinishedUpTo(f, k + 1, n);
    }
  }

  lemma FinishedInOne(b: Block, k: nat)
    requires k < |PathsOne(b)|
    ensures Finished([b], k) == Finished(b.body, k) && |Paths([b])| == |PathsOne(b)|
  {
    assert [b][1..] == [] && Finished([], 0) == {};
  }

  lemma FinishedInFirst(f: seq<Block>, k: nat)
    requires f != [] && k >= |PathsOne(f[0])|
    ensures Finished(f, k) == SignaturesOne(f[0]) + Finished(f[1..], k - |PathsOne(f[0])|)
    ensures |Paths(f)| == |PathsOne(f[0])| + |Paths(f[1..])|
  {
  }

  lemma LeavesOfBlock(b: Block)
    ensures |PathsOne(b)| == if b.body == [] then 1 else |Paths(b.body)|
  {
    NoLeafNoBlock(b.body);
  }

  lemma LastChainUnfolds(sig: Signature, f: seq<Block>)
    requires f != []
    ensures OnLastChain(sig, f) <==>
            if |f| == 1 then OnLastChain(sig, f[0].body) else sig !in SignaturesOne(f[0]) && OnLastChain(sig, f[1..])
    ensures OnLastChain(sig, []) && Finished([], 0) == {}
  {
  }

  /** A signature is on the chain of last blocks only iff nothing that bears it is finished before the last leaf. */
  lemma {:induction false} OnLastChainFinishesLast(sig: Signature, f: seq<Block>)
    requires f != []
    ensures Paths(f) != []
    ensures OnLastChain(sig, f) <==> sig !in Finished(f, |Paths(f)| - 1)
    decreases f
  {
    hide Paths, PathsOne, Finished, OnLastChain, SignaturesOne;
    LastChainUnfolds(sig, f);
    LeavesOfBlock(f[0]);
    if |f| == 1 {
      assert f == [f[0]];
      FinishedInOne(f[0], |PathsOne(f[0])| - 1);
      if f[0].body != [] {
        OnLastChainFinishesLast(sig, f[0].body);
      }
    } else {
      OnLastChainFinishesLast(sig, f[1..]);
      FinishedInFirst(f, |PathsOne(f[0])| + |Paths(f[1..])| - 1);
    }
  }

  lemma LeafAlone(b: Block)
    requires b.body == []
    ensures PathsOne(b) == [[b.sig]] && SignaturesOne(b) == {b.sig} && FinishedOne(b, 0) == {} &&
            FinishedOne(b, 1) == {b.sig}
  {
    assert Paths([]) == [] && Signatures([]) == {};
  }

  // ---- one run ----

  /** Once a subcase was entered on this level, fresh siblings are only noted for later. */
  lemma {:induction false} FreshSiblingsPostponed(f: seq<Block>, st: Status)
    requires st.level in st.entered && st.passed !! Signatures(f)
    ensures Exec(UNFILTERED, f, st) == st.(reenter := st.reenter || f != [])
    decreases f
  {
    if f != [] {
      assert f[0].sig in SignaturesOne(f[0]);
      FreshSiblingsPostponed(f[1..], st.(reenter := true));
    }
  }

  /** The scheduler may run `f` next: `k` leaves of it are done, and this run has entered and skipped nothing. */
  ghost predicate Ready(f: seq<Block>, st: Status, k: nat) {
    && k < |Paths(f)|
    && st.passed * Signatures(f) == Finished(f, k)
    && !st.reenter
    && forall l :: l in st.entered ==> l < st.level
  }

  ghost predicate ReadyOne(b: Block, st: Status, k: nat) {
    && k < |PathsOne(b)|
    && st.passed * SignaturesOne(b) == FinishedOne(b, k)
    && !st.reenter
    && forall l :: l in st.entered ==> l < st.level
  }

  /**
   * Running from `st` to `st'` entered the subcases on `path`, completed `done`, and postponed
   * something iff `more`.
   */
  ghost predicate Advanced(st: Status, path: seq<Signature>, done: set<Signature>, more: bool, st': Status) {
    && st'.level == st.level
    && st.level in st'.entered
    && st.entered <= st'.entered
    && st'.passed == st.passed + done
    && st'.reenter == more
    && st'.started == st.started + path
  }

  /** A run enters exactly the next leaf, and marks exactly the subcases that this completes. */
  lemma {:induction false} RunEntersNextLeaf(f: seq<Block>, st: Status, k: nat)
    requires WellSigned(f) && Ready(f, st, k)
    ensures Advanced(st, Paths(f)[k], Finished(f, k + 1), k + 1 < |Paths(f)|, Exec(UNFILTERED, f, st))
    decreases f, 2
  {
    if k < |PathsOne(f[0])| {
      NextLeafInHead(f, st, k);
    } else {
      NextLeafInTail(f, st, k);
    }
  }

  lemma {:induction false} NextLeafInHead(f: seq<Block>, st: Status, k: nat)
    requires WellSigned(f) && Ready(f, st, k) && k < |PathsOne(f[0])|
    ensures Advanced(st, Paths(f)[k], Finished(f, k + 1), k + 1 < |Paths(f)|, Exec(UNFILTERED, f, st))
    decreases f, 1
  {
    var b, rest := f[0], f[1..];
    NothingFinishedAtFirst(rest);
    NoLeafNoBlock(rest);
    OneFinishedIsPart(b, k);
    assert st.passed * SignaturesOne(b) == FinishedOne(b, k) && st.passed !! Signatures(rest);
    BlockEntersNextLeaf(b, st, k);
    OneFinishedIsPart(b, k + 1);
    FreshSiblingsPostponed(rest, ExecOne(UNFILTERED, b, st));
  }

  lemma {:induction false} NextLeafInTail(f: seq<Block>, st: Status, k: nat)
    requires WellSigned(f) && Ready(f, st, k) && k >= |PathsOne(f[0])|
    ensures Advanced(st, Paths(f)[k], Finished(f, k + 1), k + 1 < |Paths(f)|, Exec(UNFILTERED, f, st))
    decreases f, 1
  {
    var b, rest, k' := f[0], f[1..], k - |PathsOne(f[0])|;
    FinishedIsPart(rest, k');
    FinishedIsPart(rest, k' + 1);
    assert Finished(f, k) == SignaturesOne(b) + Finished(rest, k');
    assert b.sig in Finished(f, k);
    assert st.passed * Signatures(rest) == Finished(rest, k');
    RunEntersNextLeaf(rest, st, k');
  }

  lemma OpensWhenReady(b: Block, st: Status, k: nat)
    requires WellSignedOne(b) && ReadyOne(b, st, k)
    ensures ExecOne(UNFILTERED, b, st) == Left(b.sig, Exec(UNFILTERED, b.body, Entered(b.sig, st)))
    ensures b.body != [] ==> Ready(b.body, Entered(b.sig, st), k)
  {
    FinishedIsPart(b.body, k);
    NoLeafNoBlock(b.body);
    if b.body == [] {
      LeafAlone(b);
    } else {
      OnLastChainFinishesLast(b.sig, b.body);
      FinishedUpTo(b.body, k, |Paths(b.body)| - 1);
    }
    assert b.sig in SignaturesOne(b) && b.sig !in st.passed;
    assert st.passed * Signatures(b.body) == Finished(b.body, k);
  }

  lemma {:induction false} BlockEntersNextLeaf(b: Block, st: Status, k: nat)
    requires WellSignedOne(b) && ReadyOne(b, st, k)
    ensures Advanced(st, PathsOne(b)[k], FinishedOne(b, k + 1), k + 1 < |PathsOne(b)|, ExecOne(UNFILTERED, b, st))
    decreases b, 1
  {
    var inside := Entered(b.sig, st);
    var outside := Exec(UNFILTERED, b.body, inside);
    OpensWhenReady(b, st, k);
    if b.body == [] {
      LeafAlone(b);
    } else {
      NoLeafNoBlock(b.body);
      RunEntersNextLeaf(b.body, inside, k);
      AllFinishedAtLast(b.body, |Paths(b.body)|);
      hide WellSigned, Signatures, Finished, Exec, Paths;
    }
  }

  // ---- runs of any tree ----

  /** What any run does to the marks: they grow, by signatures of the tree, and no marked subcase is started. */
  lemma {:induction false} RunGrows(o: Filters, f: seq<Block>, st: Status)
    ensures var r := Exec(o, f, st);
            && st.passed <= r.passed <= st.passed + Signatures(f) && st.entered <= r.entered &&
               (st.reenter ==> r.reenter)
            && st.started <= r.started && forall s :: s in r.started[|st.started|..] ==> s !in st.passed
    decreases f, 0
  {
    if f != [] {
      BlockGrows(o, f[0], st);
      RunGrows(o, f[1..], ExecOne(o, f[0], st));
      StartedInTwo(st.started, ExecOne(o, f[0], st).started, Exec(o, f, st).started);
    }
  }

  lemma StartedInTwo<T>(a: seq<T>, b: seq<T>, c: seq<T>)
    requires a <= b <= c
    ensures a <= c && c[|a|..] == b[|a|..] + c[|b|..]
  {
  }

  lemma {:induction false} BlockGrows(o: Filters, b: Block, st: Status)
    ensures var r := ExecOne(o, b, st);
            && st.passed <= r.passed <= st.passed + SignaturesOne(b) && st.entered <= r.entered &&
               (st.reenter ==> r.reenter)
            && st.started <= r.started && forall s :: s in r.started[|st.started|..] ==> s !in st.passed
    decreases b, 1
  {
    if Decide(o, b.sig, st) == Enter {
      var inside := Entered(b.sig, st);
      RunGrows(o, b.body, inside);
      StartedInTwo(st.started, inside.started, Exec(o, b.body, inside).started);
    }
  }

  /** Nothing was entered here, and nothing postponed. */
  ghost predicate Clean(st: Status) {
    !st.reenter && forall l :: l in st.entered ==> l < st.level
  }

  /** A run either finds everything marked, or marks something. */
  lemma {:induction false} RunMarks(o: Filters, f: seq<Block>, st: Status)
    requires Clean(st)
    ensures Exec(o, f, st) == st || exists s :: s in Exec(o, f, st).passed && s !in st.passed
    decreases f
  {
    if f != [] {
      var next := ExecOne(o, f[0], st);
      RunGrows(o, f[1..], next);
      if Decide(o, f[0].sig, st) == Enter {
        var inside := Entered(f[0].sig, st);
        RunMarks(o, f[0].body, inside);
        assert exists s :: s in next.passed && s !in st.passed;
      } else {
        assert next == st;
        RunMarks(o, f[1..], st);
      }
    }
  }

  ghost function Start(passed: set<Signature>): Status {
    Status(passed, {}, 0, false, [])
  }

  /** The re-enter loop on any tree: what each run started, and the marks at the end. */
  ghost function Loop(o: Filters, f: seq<Block>, passed: set<Signature>): (seq<seq<Signature>>, set<Signature>)
    decreases Signatures(f) - passed
  {
    var st := Exec(o, f, Start(passed));
    RunMarks(o, f, Start(passed));
    RunGrows(o, f, Start(passed));
    if !st.reenter then ([st.started], st.passed)
    else
      assert Signatures(f) - st.passed < Signatures(f) - passed;
      var (runs, end) := Loop(o, f, st.passed);
      ([st.started] + runs, end)
  }

  /** The leaves a caller expects: a body without subcases runs once. */
  ghost function Leaves(f: seq<Block>): seq<seq<Signature>> {
    if f == [] then [[]] else Paths(f)
  }

  // ---- filters ----

  /** The tree that remains when every filtered-out subcase is cut with all that is below it. */
  ghost function Prune(o: Filters, f: seq<Block>, level: nat): seq<Block>
    decreases f, 0
  {
    if f == [] then []
    else (if Allowed(o, f[0].sig, level) then [PruneOne(o, f[0], level)] else []) + Prune(o, f[1..], level)
  }

  ghost function PruneOne(o: Filters, b: Block, level: nat): Block
    decreases b, 1
  {
    Subcase(b.sig, Prune(o, b.body, level + 1))
  }

  /** Running with filters is running the pruned tree without any. */
  lemma {:induction false} FilteringIsPruning(o: Filters, f: seq<Block>, st: Status)
    ensures Exec(o, f, st) == Exec(UNFILTERED, Prune(o, f, st.level), st)
    decreases f, 0
  {
    if f != [] {
      var b', rest := PruneOne(o, f[0], st.level), Prune(o, f[1..], st.level);
      FilteringOneIsPruning(o, f[0], st);
      FilteringIsPruning(o, f[1..], ExecOne(o, f[0], st));
      if Allowed(o, f[0].sig, st.level) {
        assert ([b'] + rest)[1..] == rest;
      } else {
        assert [] + rest == rest;
      }
    }
  }

  lemma {:induction false} FilteringOneIsPruning(o: Filters, b: Block, st: Status)
    ensures ExecOne(o, b, st) == if Allowed(o, b.sig, st.level) then ExecOne(UNFILTERED, PruneOne(o, b, st.level), st)
            else st
    decreases b, 1
  {
    assert Allowed(UNFILTERED, b.sig, st.level);
    FilteringIsPruning(o, b.body, Entered(b.sig, st));
  }

  // ---- exactly when every leaf runs once, in order ----

  /** One turn of the re-enter loop, with the leaves before the `k`th done. */
  lemma NextRun(o: Filters, f: seq<Block>, kept: seq<Block>, k: nat)
    requires kept == Prune(o, f, 0) && WellSigned(kept) && k < |Leaves(kept)|
    ensures var st := Exec(o, f, Start(Finished(kept, k)));
            st.passed == Finished(kept, k + 1) && (st.reenter <==> k + 1 < |Leaves(kept)|) &&
                st.started == Leaves(kept)[k]
  {
    var st := Start(Finished(kept, k));
    FilteringIsPruning(o, f, st);
    if kept != [] {
      FinishedIsPart(kept, k);
      RunEntersNextLeaf(kept, st, k);
      FinishedGrows(kept, k);
    }
  }

  /** With repeated signatures in their places, the loop runs the leaves that are left, and marks all. */
  lemma {:induction false} LoopRunsLeaves(o: Filters, f: seq<Block>, kept: seq<Block>, k: nat)
    requires kept == Prune(o, f, 0) && WellSigned(kept) && k < |Leaves(kept)|
    ensures Loop(o, f, Finished(kept, k)) == (Leaves(kept)[k..], Signatures(kept))
    decreases |Leaves(kept)| - k
  {
    hide Exec, Finished, WellSigned, Prune, Leaves, Signatures;
    NextRun(o, f, kept, k);
    LoopUnfolds(o, f, Finished(kept, k));
    HeadOfRest(Leaves(kept), k);
    if k + 1 < |Leaves(kept)| {
      LoopRunsLeaves(o, f, kept, k + 1);
    } else {
      LastRunMarksAll(kept);
    }
  }

  lemma LastRunMarksAll(kept: seq<Block>)
    ensures Finished(kept, |Leaves(kept)|) == Signatures(kept)
  {
    AllFinishedAtLast(kept, |Leaves(kept)|);
  }

  lemma HeadOfRest<T>(s: seq<T>, k: nat)
    requires k < |s|
    ensures s[k..] == [s[k]] + s[k + 1..] && (k + 1 == |s| ==> s[k..] == [s[k]])
  {
  }

  lemma LoopUnfolds(o: Filters, f: seq<Block>, passed: set<Signature>)
    ensures var st := Exec(o, f, Start(passed));
            Loop(o, f, passed) == if !st.reenter then ([st.started], st.passed)
                                  else ([st.started] + Loop(o, f, st.passed).0, Loop(o, f, st.passed).1)
  {
  }

  /** A run that meets no mark on the path to leaf `k` completes what that leaf completes. */
  ghost predicate MayReach(path: seq<Signature>, done: set<Signature>, st: Status) {
    Clean(st) && done <= st.passed && forall s :: s in path ==> s !in st.passed
  }

  lemma {:induction false} RunCompletes(f: seq<Block>, st: Status, k: nat)
    requires k < |Paths(f)| && MayReach(Paths(f)[k], Finished(f, k), st)
    ensures var r := Exec(UNFILTERED, f, st);
            Finished(f, k + 1) <= r.passed && (k + 1 == |Paths(f)| ==> !r.reenter)
    decreases f, 1
  {
    var b, rest, n := f[0], f[1..], |PathsOne(f[0])|;
    NoLeafNoBlock(rest);
    if k < n {
      NothingFinishedAtFirst(rest);
      BlockCompletes(b, st, k);
      RunGrows(UNFILTERED, rest, ExecOne(UNFILTERED, b, st));
    } else {
      assert b.sig in SignaturesOne(b) && b.sig in Finished(f, k);
      RunCompletes(rest, st, k - n);
      RunGrows(UNFILTERED, rest, st);
      FinishedInFirst(f, k);
      FinishedInFirst(f, k + 1);
    }
  }

  lemma {:induction false} BlockCompletes(b: Block, st: Status, k: nat)
    requires k < |PathsOne(b)| && MayReach(PathsOne(b)[k], FinishedOne(b, k), st)
    ensures var r := ExecOne(UNFILTERED, b, st);
            FinishedOne(b, k + 1) <= r.passed && (k + 1 == |PathsOne(b)| ==> !r.reenter)
    decreases b, 0
  {
    var inside := Entered(b.sig, st);
    var path := PathsOne(b)[k];
    if b.body == [] {
      LeafAlone(b);
      assert b.sig in path;
    } else {
      NoLeafNoBlock(b.body);
      assert path == [b.sig] + Paths(b.body)[k];
      assert b.sig in path && forall s :: s in Paths(b.body)[k] ==> s in path;
      RunCompletes(b.body, inside, k);
      AllFinishedAtLast(b.body, |Paths(b.body)|);
    }
  }

  /** No leaf's path bears a signature of something that is finished before it. */
  ghost predicate NothingStale(f: seq<Block>) {
    forall k, s :: !Stale(f, k, s)
  }

  ghost predicate Stale(f: seq<Block>, k: int, s: Signature) {
    0 <= k < |Paths(f)| && s in Paths(f)[k] && s in Finished(f, k)
  }

  /** If the loop runs the leaves that are left, none of them is stale. */
  lemma {:induction false} LoopFindsNothingStale(o: Filters, f: seq<Block>, kept: seq<Block>, k: nat,
        passed: set<Signature>)
    requires kept == Prune(o, f, 0) && k < |Paths(kept)| && Finished(kept, k) <= passed
    requires Loop(o, f, passed).0 == Paths(kept)[k..]
    ensures forall j, s :: k <= j ==> !Stale(kept, j, s)
    decreases |Paths(kept)| - k
  {
    hide Exec, Finished, Prune, Paths;
    var st := Exec(o, f, Start(passed));
    FilteringIsPruning(o, f, Start(passed));
    LoopUnfolds(o, f, passed);
    HeadOfRest(Paths(kept), k);
    RunGrows(o, f, Start(passed));
    assert st.started == Paths(kept)[k] && st.started[0..] == st.started;
    RunCompletes(kept, Start(passed), k);
    if k + 1 < |Paths(kept)| {
      assert Loop(o, f, st.passed).0 == Paths(kept)[k + 1..];
      LoopFindsNothingStale(o, f, kept, k + 1, st.passed);
    }
  }

  lemma {:induction false} OnSomePath(f: seq<Block>, s: Signature) returns (j: nat)
    requires s in Signatures(f)
    ensures j < |Paths(f)| && s in Paths(f)[j]
    decreases f
  {
    var n := |PathsOne(f[0])|;
    if s in Signatures(f[1..]) {
      var i := OnSomePath(f[1..], s);
      j := n + i;
    } else {
      var i := 0;
      if s in Signatures(f[0].body) {
        i := OnSomePath(f[0].body, s);
      }
      NoLeafNoBlock(f[0].body);
      assert s in PathsOne(f[0])[i];
      j := i;
    }
  }

  lemma StaleBelow(f: seq<Block>)
    requires f != [] && NothingStale(f)
    ensures NothingStale(f[1..]) && SignaturesOne(f[0]) !! Signatures(f[1..])
    ensures NothingStale(f[0].body) && forall k :: 0 <= k < |Paths(f[0].body)| ==> f[0].sig !in Finished(f[0].body, k)
  {
    StaleInTail(f);
    StaleInHead(f);
    forall s | s in Signatures(f[1..]) ensures s !in SignaturesOne(f[0]) {
      var j := OnSomePath(f[1..], s);
    }
  }

  lemma StaleInTail(f: seq<Block>)
    requires f != [] && NothingStale(f)
    ensures NothingStale(f[1..])
    ensures forall k, s :: 0 <= k < |Paths(f[1..])| && s in Paths(f[1..])[k] ==> s !in SignaturesOne(f[0])
  {
    var rest, n := f[1..], |PathsOne(f[0])|;
    assert Paths(f) == PathsOne(f[0]) + Paths(rest);
    forall k: int, s | 0 <= k < |Paths(rest)| && s in Paths(rest)[k]
      ensures !Stale(rest, k, s)
      ensures s !in SignaturesOne(f[0])
    {
      FinishedInFirst(f, n + k);
      assert Paths(f)[n + k] == Paths(rest)[k] && !Stale(f, n + k, s);
    }
    forall k, s ensures !Stale(rest, k, s) {
    }
  }

  lemma StaleInHead(f: seq<Block>)
    requires f != [] && NothingStale(f)
    ensures var b := f[0];
            NothingStale(b.body) && forall k :: 0 <= k < |Paths(b.body)| ==> b.sig !in Finished(b.body, k)
  {
    var b := f[0];
    NoLeafNoBlock(b.body);
    assert Paths(f) == PathsOne(b) + Paths(f[1..]);
    forall k, s | 0 <= k < |Paths(b.body)| && (s == b.sig || s in Paths(b.body)[k])
      ensures s !in Finished(b.body, k)
    {
      assert Paths(f)[k] == [b.sig] + Paths(b.body)[k] && s in Paths(f)[k];
      assert Finished(b.body, k) <= Finished(f, k) && !Stale(f, k, s);
    }
    forall k, s ensures !Stale(b.body, k, s) {
    }
  }

  lemma {:induction false} NothingStaleIsWellSigned(f: seq<Block>)
    requires NothingStale(f)
    ensures WellSigned(f)
    decreases f
  {
    if f != [] {
      StaleBelow(f);
      NothingStaleIsWellSigned(f[1..]);
      NothingStaleIsWellSigned(f[0].body);
      if f[0].body != [] {
        OnLastChainFinishesLast(f[0].sig, f[0].body);
      }
    }
  }

  /**
   * For any tree and filters: the loop runs every leaf that the filters leave exactly once, in
   * program order, iff signatures repeat only where they may; and then all are marked.
   */
  lemma EveryLeafRunsIff(o: Filters, f: seq<Block>)
    ensures var kept := Prune(o, f, 0);
            var (runs, passed) := Loop(o, f, {});
            && (runs == Leaves(kept) <==> WellSigned(kept))
            && (runs == Leaves(kept) ==> passed == Signatures(kept))
  {
    var kept := Prune(o, f, 0);
    NothingFinishedAtFirst(kept);
    NoLeafNoBlock(kept);
    if WellSigned(kept) {
      LoopRunsLeaves(o, f, kept, 0);
      assert Leaves(kept)[0..] == Leaves(kept);
    }
    if Loop(o, f, {}).0 == Leaves(kept) && kept != [] {
      assert Paths(kept)[0..] == Paths(kept);
      LoopFindsNothingStale(o, f, kept, 0, {});
      NothingStaleIsWellSigned(kept);
    }
  }

  /**
   * Of two siblings with one signature, wherever they stand and whatever is in them, the
   * second makes no difference to any run, so nothing in it ever starts.
   */
  lemma TwinNeverRuns(o: Filters, x: seq<Block>, a: Block, y: seq<Block>, b: Block, z: seq<Block>, st: Status)
    requires a.sig == b.sig
    ensures Exec(o, x + [a] + y + [b] + z, st) == Exec(o, x + [a] + y + z, st)
  {
    var first, second := Exec(o, x + [a], st), Exec(o, x + [a] + y, st);
    ExecInTwo(o, x, [a], st);
    ExecAlone(o, a, Exec(o, x, st));
    RunGrows(o, a.body, Entered(a.sig, Exec(o, x, st)));
    ExecInTwo(o, x + [a], y, st);
    RunGrows(o, y, first);
    ExecInTwo(o, x + [a] + y, [b], st);
    ExecAlone(o, b, second);
    ExecInTwo(o, x + [a] + y + [b], z, st);
    ExecInTwo(o, x + [a] + y, z, st);
    assert ExecOne(o, b, second) == second;
  }

  lemma ExecAlone(o: Filters, b: Block, st: Status)
    ensures Exec(o, [b], st) == ExecOne(o, b, st)
  {
    assert [b][1..] == [] && Exec(o, [], ExecOne(o, b, st)) == ExecOne(o, b, st);
  }

  lemma {:induction false} ExecInTwo(o: Filters, x: seq<Block>, y: seq<Block>, st: Status)
    ensures Exec(o, x + y, st) == Exec(o, y, Exec(o, x, st))
    decreases |x|
  {
    if x == [] {
      assert x + y == y;
    } else {
      assert (x + y)[1..] == x[1..] + y;
      ExecInTwo(o, x[1..], y, ExecOne(o, x[0], st));
    }
  }

  // ---- what the filters keep from running, and what they let run ----

  lemma RunShrinks(o: Filters, f: seq<Block>, passed: set<Signature>)
    ensures var st := Exec(o, f, Start(passed));
            st.reenter ==> Signatures(f) - st.passed < Signatures(f) - passed
  {
    RunMarks(o, f, Start(passed));
    RunGrows(o, f, Start(passed));
  }

  /** A name that no exclude pattern matches, and some include pattern if there are any. */
  ghost predicate Selected(o: Filters, name: CString) {
    && (forall i :: 0 <= i < |o.except| ==> !Matches(Text(o.except[i]), Text(name), o.caseSensitive))
    && (o.only == [] || exists i :: 0 <= i < |o.only| && Matches(Text(o.only[i]), Text(name), o.caseSensitive))
  }

  /** All of a path, which begins on the given level, as far as the filters apply. */
  ghost predicate PathSelected(o: Filters, path: seq<Signature>, level: nat) {
    forall i :: 0 <= i < |path| && level + i < o.levels ==> Selected(o, path[i].name)
  }

  lemma AllowedIsSelected(o: Filters, sig: Signature, level: nat)
    ensures Allowed(o, sig, level) <==> (level < o.levels ==> Selected(o, sig.name))
  {
  }

  /** A run's subcases so far are one below the other: it is on every level down to some, or has left them again. */
  ghost predicate OnePath(st: Status) {
    st.level <= |st.started| && forall l :: l in st.entered <==> 0 <= l < |st.started|
  }

  lemma {:induction false} StartedAreSelected(o: Filters, f: seq<Block>, st: Status)
    requires OnePath(st) && PathSelected(o, st.started, 0)
    ensures OnePath(Exec(o, f, st)) && PathSelected(o, Exec(o, f, st).started, 0)
    decreases f, 0
  {
    hide PathSelected, Allowed;
    if f != [] {
      BlockStartsSelected(o, f[0], st);
      StartedAreSelected(o, f[1..], ExecOne(o, f[0], st));
    }
  }

  lemma {:induction false} BlockStartsSelected(o: Filters, b: Block, st: Status)
    requires OnePath(st) && PathSelected(o, st.started, 0)
    ensures OnePath(ExecOne(o, b, st)) && PathSelected(o, ExecOne(o, b, st).started, 0)
    decreases b, 1
  {
    hide Allowed, Selected;
    if Decide(o, b.sig, st) == Enter {
      AllowedIsSelected(o, b.sig, st.level);
      var inside := Entered(b.sig, st);
      assert st.level == |st.started|;
      StartedAreSelected(o, b.body, inside);
      RunGrows(o, b.body, inside);
    }
  }

  /** Of every run, on any tree: what it starts on a level that the filters apply to, they select. */
  lemma {:induction false} RunsAreSelected(o: Filters, f: seq<Block>, passed: set<Signature>)
    ensures forall r :: 0 <= r < |Loop(o, f, passed).0| ==> PathSelected(o, Loop(o, f, passed).0[r], 0)
    decreases Signatures(f) - passed
  {
    var st := Exec(o, f, Start(passed));
    StartedAreSelected(o, f, Start(passed));
    LoopUnfolds(o, f, passed);
    if st.reenter {
      RunShrinks(o, f, passed);
      RunsAreSelected(o, f, st.passed);
    }
  }

  /** Cutting subcases leaves the signatures of what is kept where they may be. */
  lemma {:induction false} PruneIsPart(o: Filters, f: seq<Block>, level: nat)
    ensures Signatures(Prune(o, f, level)) <= Signatures(f)
    decreases f
  {
    if f != [] {
      PruneIsPart(o, f[0].body, level + 1);
      PruneIsPart(o, f[1..], level);
      PruneSignatures(o, f, level);
    }
  }

  lemma PruneSignatures(o: Filters, f: seq<Block>, level: nat)
    requires f != []
    ensures Signatures(Prune(o, f, level)) ==
            (if Allowed(o, f[0].sig, level) then SignaturesOne(PruneOne(o, f[0], level)) else {})
            + Signatures(Prune(o, f[1..], level))
  {
    hide Allowed;
    var rest := Prune(o, f[1..], level);
    if Allowed(o, f[0].sig, level) {
      assert ([PruneOne(o, f[0], level)] + rest)[1..] == rest;
    } else {
      assert [] + rest == rest;
    }
  }

  lemma PruneUnfolds(o: Filters, f: seq<Block>, level: nat)
    requires f != []
    ensures var kept, rest := Prune(o, f, level), Prune(o, f[1..], level);
            if Allowed(o, f[0].sig, level) then kept != [] && kept[0] == PruneOne(o, f[0], level) && kept[1..] == rest
            else kept == rest
  {
    hide Allowed;
    var rest := Prune(o, f[1..], level);
    assert [] + rest == rest && ([PruneOne(o, f[0], level)] + rest)[1..] == rest;
  }

  lemma NotThereIsOnChain(sig: Signature, f: seq<Block>)
    requires sig !in Signatures(f)
    ensures OnLastChain(sig, f)
    decreases f
  {
    if f != [] {
      if |f| == 1 {
        NotThereIsOnChain(sig, f[0].body);
      } else {
        NotThereIsOnChain(sig, f[1..]);
      }
    }
  }

  lemma {:induction false} PruneKeepsChain(o: Filters, sig: Signature, f: seq<Block>, level: nat)
    requires OnLastChain(sig, f)
    ensures OnLastChain(sig, Prune(o, f, level))
    decreases f
  {
    hide Allowed, Prune;
    if f == [] {
      PruneOfNothing(o, level);
    } else {
      PruneUnfolds(o, f, level);
      if |f| == 1 {
        PruneKeepsChain(o, sig, f[0].body, level + 1);
        assert f[1..] == [];
        PruneOfNothing(o, level);
      } else {
        PruneKeepsChain(o, sig, f[1..], level);
        PruneIsPart(o, f[0].body, level + 1);
        if Allowed(o, f[0].sig, level) && Prune(o, f[1..], level) == [] {
          NotThereIsOnChain(sig, PruneOne(o, f[0], level).body);
        }
      }
    }
  }

  lemma PruneOfNothing(o: Filters, level: nat)
    ensures Prune(o, [], level) == []
  {
  }

  lemma {:induction false} PruneIsWellSigned(o: Filters, f: seq<Block>, level: nat)
    requires WellSigned(f)
    ensures WellSigned(Prune(o, f, level))
    decreases f
  {
    hide Allowed, Prune;
    if f == [] {
      PruneOfNothing(o, level);
    } else {
      PruneUnfolds(o, f, level);
      PruneIsWellSigned(o, f[1..], level);
      PruneIsPart(o, f[1..], level);
      PruneIsPart(o, f[0].body, level + 1);
      PruneIsWellSigned(o, f[0].body, level + 1);
      PruneKeepsChain(o, f[0].sig, f[0].body, level + 1);
    }
  }

  lemma PathSelectedBelow(o: Filters, path: seq<Signature>, level: nat)
    requires path != [] && PathSelected(o, path, level)
    ensures (level < o.levels ==> Selected(o, path[0].name)) && PathSelected(o, path[1..], level + 1)
  {
    hide Selected;
    forall i | 0 <= i < |path| - 1 && level + 1 + i < o.levels ensures Selected(o, path[1..][i].name) {
      assert path[1..][i] == path[i + 1];
    }
  }

  /** A leaf whose whole path is selected is a leaf of what is kept. */
  lemma {:induction false} SelectedLeafIsKept(o: Filters, f: seq<Block>, level: nat, k: nat)
    requires k < |Paths(f)| && PathSelected(o, Paths(f)[k], level)
    ensures Paths(f)[k] in Paths(Prune(o, f, level))
    decreases f
  {
    hide Allowed, Prune, PathSelected, Selected;
    var b, n, path := f[0], |PathsOne(f[0])|, Paths(f)[k];
    PruneUnfolds(o, f, level);
    if k >= n {
      SelectedLeafIsKept(o, f[1..], level, k - n);
    } else {
      HeadOfPath(b, k);
      assert path == PathsOne(b)[k];
      PathSelectedBelow(o, path, level);
      AllowedIsSelected(o, b.sig, level);
      if b.body == [] {
        PruneOfNothing(o, level + 1);
        assert path == [b.sig];
      } else {
        SelectedLeafIsKept(o, b.body, level + 1, k);
        KeptBelow(PruneOne(o, b, level), path);
      }
    }
  }

  lemma HeadOfPath(b: Block, k: nat)
    requires k < |PathsOne(b)|
    ensures PathsOne(b)[k] != [] && PathsOne(b)[k][0] == b.sig
    ensures if b.body == [] then PathsOne(b) == [[b.sig]]
            else k < |Paths(b.body)| && PathsOne(b)[k][1..] == Paths(b.body)[k]
  {
    NoLeafNoBlock(b.body);
  }

  lemma KeptBelow(b: Block, path: seq<Signature>)
    requires path != [] && path[0] == b.sig && path[1..] in Paths(b.body)
    ensures path in PathsOne(b)
  {
    var j :| 0 <= j < |Paths(b.body)| && Paths(b.body)[j] == path[1..];
    assert path == [b.sig] + path[1..];
    assert PathsOne(b)[j] == path;
  }

  /** When signatures repeat only where they may, every leaf whose whole path is selected is some run. */
  lemma SelectedLeavesRun(o: Filters, f: seq<Block>)
    requires WellSigned(f)
    ensures forall k :: 0 <= k < |Paths(f)| && PathSelected(o, Paths(f)[k], 0) ==> Paths(f)[k] in Loop(o, f, {}).0
  {
    hide WellSigned, Prune, Paths, PathSelected, Loop;
    PruneIsWellSigned(o, f, 0);
    EveryLeafRunsIff(o, f);
    forall k | 0 <= k < |Paths(f)| && PathSelected(o, Paths(f)[k], 0) ensures Paths(f)[k] in Loop(o, f, {}).0 {
      SelectedLeafIsKept(o, f, 0, k);
      LeavesOfKept(Prune(o, f, 0), Paths(f)[k]);
    }
  }

  lemma LeavesOfKept(f: seq<Block>, path: seq<Signature>)
    requires path in Paths(f)
    ensures path in Leaves(f)
  {
  }

  // ---- the scheduler itself ----

  /** The part of doctest's `ContextState` that subcases use. */
  class ContextState {
    const filters: Filters
    var subcasesPassed: set<Signature>
    var subcasesEnteredLevels: set<int>
    var subcasesCurrentLevel: nat
    var shouldReenter: bool
    var started: seq<Signature>

    ghost function Abs(): Status
      reads this
    {
      Status(subcasesPassed, subcasesEnteredLevels, subcasesCurrentLevel, shouldReenter, started)
    }

    constructor (filters: Filters)
      ensures this.filters == filters
    {
      this.filters := filters;
      subcasesPassed, subcasesEnteredLevels, subcasesCurrentLevel := {}, {}, 0;
      shouldReenter, started := false, [];
    }

    /** `Subcase::Subcase`. */
    method Open(sig: Signature) returns (entered: bool)
      modifies this
      ensures entered <==> Decide(filters, sig, old(Abs())) == Enter
      ensures Abs() == match Decide(filters, sig, old(Abs()))
                       case Ignore => old(Abs())
                       case Postpone => old(Abs()).(reenter := true)
                       case Enter => Entered(sig, old(Abs()))
    {
      if sig in subcasesPassed {
        return false;
      }
      if subcasesCurrentLevel < filters.levels {
        var included := MatchesAny(sig.name, filters.only, true, filters.caseSensitive);
        if !included {
          return false;
        }
        var excluded := MatchesAny(sig.name, filters.except, false, filters.caseSensitive);
        if excluded {
          return false;
        }
      }
      if subcasesCurrentLevel in subcasesEnteredLevels {
        shouldReenter := true;
        return false;
      }
      subcasesEnteredLevels := subcasesEnteredLevels + {subcasesCurrentLevel};
      subcasesCurrentLevel := subcasesCurrentLevel + 1;
      started := started + [sig];
      return true;
    }

    /** `Subcase::~Subcase`. */
    method Close(sig: Signature, entered: bool)
      requires entered ==> subcasesCurrentLevel > 0
      modifies this
      ensures Abs() == if entered then Left(sig, old(Abs())) else old(Abs())
    {
      if entered {
        subcasesCurrentLevel := subcasesCurrentLevel - 1;
        if !shouldReenter {
          subcasesPassed := subcasesPassed + {sig};
        }
      }
    }

    /** The test function: each subcase is opened, its body run if it was entered, and closed. */
    method Body(f: seq<Block>)
      modifies this
      ensures Abs() == Exec(filters, f, old(Abs()))
      decreases f
    {
      if f != [] {
        var entered := Open(f[0].sig);
        if entered {
          Body(f[0].body);
        }
        Close(f[0].sig, entered);
        Body(f[1..]);
      }
    }

    /**
     * The re-enter loop of `Context::run` for one test case. `runs` records what each run
     * started: run i is the path to the i-th leaf that the filters leave, iff signatures
     * repeat only where they may.
     */
    method RunTestCase(f: seq<Block>) returns (runs: seq<seq<Signature>>)
      modifies this
      ensures (runs, subcasesPassed) == Loop(filters, f, {})
      ensures var kept := Prune(filters, f, 0);
              && (runs == Leaves(kept) <==> WellSigned(kept))
              && (runs == Leaves(kept) ==> subcasesPassed == Signatures(kept))
      ensures forall r :: 0 <= r < |runs| ==> PathSelected(filters, runs[r], 0)
      ensures WellSigned(f) ==>
                forall k :: 0 <= k < |Paths(f)| && PathSelected(filters, Paths(f)[k], 0) ==> Paths(f)[k] in runs
    {
      hide Prune, Paths, Leaves, Signatures, WellSigned, Exec, PathSelected, Allowed;
      EveryLeafRunsIff(filters, f);
      RunsAreSelected(filters, f, {});
      if WellSigned(f) {
        SelectedLeavesRun(filters, f);
      }
      subcasesPassed := {};
      runs := [];
      var again := true;
      assert [] + Loop(filters, f, {}).0 == Loop(filters, f, {}).0;
      while again
        invariant again ==>
                    && Loop(filters, f, {}).0 == runs + Loop(filters, f, subcasesPassed).0
                    && Loop(filters, f, {}).1 == Loop(filters, f, subcasesPassed).1
        invariant !again ==> Loop(filters, f, {}) == (runs, subcasesPassed)
        decreases again, Signatures(f) - subcasesPassed
      {
        shouldReenter, subcasesCurrentLevel, subcasesEnteredLevels := false, 0, {};
        started := [];
        ghost var before := subcasesPassed;
        LoopUnfolds(filters, f, before);
        RunShrinks(filters, f, before);
        Body(f);
        assert runs + ([started] + Loop(filters, f, subcasesPassed).0) ==
               runs + [started] + Loop(filters, f, subcasesPassed).0;
        runs := runs + [started];
        again := shouldReenter;
      }
    }
  }
}
