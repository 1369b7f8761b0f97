/**
  The loader of the shell: require and require_relative run files of a store, depth first, and mark
  each of them before running it. A file is the list of load calls it makes.
 */
module Loader {

  import opened Wrappers
  import opened Paths

  datatype Call = Require(name: string) | RequireRelative(name: string)

  type Store = map<string, seq<Call>>

  const STUBS: set<string> := {"curses", "bundler/inline", "bundler", "open3", "tempfile", "clipboard"}

  /** The paths that require tries, in order. */
  function Candidates(name: string): seq<string> {
    ["/lib/" + name + ".rb", "/lib/" + name, WithExtension(name)]
  }

  /** The path that require loads: the first candidate that is stored and not loaded. */
  function FirstUnloaded(store: Store, loaded: set<string>, paths: seq<string>): Option<string> {
    if paths == [] then None
    else if paths[0] !in loaded && paths[0] in store then Some(paths[0])
    else FirstUnloaded(store, loaded, paths[1..])
  }

  lemma {:induction false} FirstUnloadedIs(store: Store, loaded: set<string>, paths: seq<string>, i: nat)
    requires i <= |paths| && forall j | 0 <= j < i :: paths[j] in loaded || paths[j] !in store
    ensures FirstUnloaded(store, loaded, paths) == FirstUnloaded(store, loaded, paths[i..])
  {
    if i == 0 {
      assert paths[0..] == paths;
    } else {
      FirstUnloadedIs(store, loaded, paths[1..], i - 1);
      assert paths[1..][i - 1..] == paths[i..];
    }
  }

  /** Every path of the store that a call in this file may load. */
  function Targets(store: Store, file: string, call: Call): set<string> {
    match call
    case Require(name) => if name in STUBS then {} else set c | c in Candidates(name) && c in store
    case RequireRelative(name) => set c | c in {RelativePath(file, name)} && c in store
  }

  ghost predicate Edge(store: Store, from: string, to: string) {
    from in store && exists call | call in store[from] :: to in Targets(store, from, call)
  }

  /** A path of files, each loading the next, none of them marked. */
  ghost predicate IsChain(store: Store, marked: set<string>, chain: seq<string>) {
    && chain != []
    && (forall i | 0 <= i < |chain| :: chain[i] in store && chain[i] !in marked)
    && (forall i | 0 <= i < |chain| - 1 :: Edge(store, chain[i], chain[i + 1]))
  }

  ghost predicate ChainFrom(store: Store, marked: set<string>, from: string, to: string, chain: seq<string>) {
    IsChain(store, marked, chain) && chain[0] == from && chain[|chain| - 1] == to
  }

  /** Files are reached through files that are not loaded yet. */
  ghost predicate Reaches(store: Store, marked: set<string>, from: string, to: string) {
    exists chain :: ChainFrom(store, marked, from, to, chain)
  }

  lemma ReachesItself(store: Store, marked: set<string>, p: string)
    requires p in store && p !in marked
    ensures Reaches(store, marked, p, p)
  {
    assert ChainFrom(store, marked, p, p, [p]);
  }

  /** What is reached later, with more files marked, through a file that loads it is reached from that file. */
  lemma ReachesThrough(store: Store, marked: set<string>, later: set<string>, from: string, next: string, to: string)
    requires from in store && from !in marked && marked <= later
    requires Edge(store, from, next) && Reaches(store, later, next, to)
    ensures Reaches(store, marked, from, to)
  {
    var chain :| ChainFrom(store, later, next, to, chain);
    assert ChainFrom(store, marked, from, to, [from] + chain);
  }

  /** All that these files load is marked. */
  ghost predicate Closed(store: Store, files: set<string>, marked: set<string>) {
    forall p, q | p in files && Edge(store, p, q) :: q in marked
  }

  /** A marked set that is closed but for what was marked before holds everything reachable. */
  lemma {:induction false} ClosedHoldsReachable(store: Store, before: set<string>, after: set<string>, chain: seq<string>)
    requires Closed(store, after - before, after)
    requires IsChain(store, before, chain) && chain[0] in after
    ensures chain[|chain| - 1] in after
    decreases |chain|
  {
    if |chain| > 1 {
      var last := |chain| - 1;
      var front := chain[..last];
      assert IsChain(store, before, front);
      ClosedHoldsReachable(store, before, after, front);
      assert Edge(store, chain[last - 1], chain[last]);
    }
  }

  /** No name stands for two files of the store. */
  ghost predicate UniqueName(store: Store, name: string) {
    forall c, d | c in Candidates(name) && d in Candidates(name) && c in store && d in store :: c == d
  }

  ghost predicate UniqueNames(store: Store) {
    forall p, name | p in store && Require(name) in store[p] :: UniqueName(store, name)
  }

  /** Two files for one name: with the first loaded already, requiring the name again loads the second. */
  lemma TwoFilesOneName()
    ensures var store: Store := map["/lib/a.rb" := [], "/lib/a" := []];
            && !UniqueName(store, "a")
            && FirstUnloaded(store, {}, Candidates("a")) == Some("/lib/a.rb")
            && FirstUnloaded(store, {"/lib/a.rb"}, Candidates("a")) == Some("/lib/a")
  {
    var store: Store := map["/lib/a.rb" := [], "/lib/a" := []];
    assert "/lib/" + "a" + ".rb" == "/lib/a.rb" && "/lib/" + "a" == "/lib/a";
    assert Candidates("a")[0] == "/lib/a.rb" && Candidates("a")[1] == "/lib/a";
    assert "/lib/a.rb" in Candidates("a") && "/lib/a" in Candidates("a");
    assert |"/lib/a"| != |"/lib/a.rb"|;
    assert "a" !in STUBS;
    FirstUnloadedIs(store, {"/lib/a.rb"}, Candidates("a"), 1);
    assert Candidates("a")[1..][0] == "/lib/a";
  }

  /** The least marks a load of p may leave: all that p reaches through files not loaded before. */
  ghost predicate ExactlyReachable(store: Store, before: set<string>, after: set<string>, p: string) {
    forall q :: q in after <==> q in before || Reaches(store, before, p, q)
  }

  lemma MarksExactlyReachable(store: Store, before: set<string>, after: set<string>, p: string)
    requires before <= after && p in after
    requires forall q | q in after - before :: Reaches(store, before, p, q)
    requires Closed(store, after - before, after)
    ensures ExactlyReachable(store, before, after, p)
  {
    forall q | Reaches(store, before, p, q)
      ensures q in after
    {
      var chain :| ChainFrom(store, before, p, q, chain);
      ClosedHoldsReachable(store, before, after, chain);
    }
  }

  /** A call either returns a value or raises a load error through all of its callers. */
  datatype Result = Returned(value: bool) | Raised

  /** What a call leaves behind: only what its targets reach is new, and that is closed. */
  ghost predicate LoadedBy(store: Store, before: set<string>, after: set<string>, trace: seq<string>, r: Result, file: string, call: Call) {
    && before <= after
    && (forall q | q in after - before ::
          q in trace && exists t :: t in Targets(store, file, call) && Reaches(store, before, t, q))
    && (r.Returned? && UniqueNames(store) ==> Closed(store, after - before, after))
  }

  /** While file p runs, everything marked since is reached from p through files not marked before it. */
  ghost predicate Marks(store: Store, p: string, before: set<string>, start: set<string>, now: set<string>, trace: seq<string>) {
    && start <= now
    && forall q | q in now - start :: q in trace && Reaches(store, before, p, q)
  }

  /** The first i calls of p are done: their targets are marked, and what they marked is closed. */
  ghost predicate CallsDone(store: Store, p: string, start: set<string>, now: set<string>, i: nat)
    requires p in store && i <= |store[p]|
  {
    && Closed(store, now - start, now)
    && forall j, q | 0 <= j < i && q in Targets(store, p, store[p][j]) :: q in now
  }

  lemma CallMarks(store: Store, p: string, before: set<string>, start: set<string>, mid: set<string>, now: set<string>,
                  run: seq<string>, trace: seq<string>, r: Result, call: Call)
    requires p in store && p !in before && before <= start && call in store[p]
    requires Marks(store, p, before, start, mid, run) && run <= trace
    requires LoadedBy(store, mid, now, trace, r, p, call)
    ensures Marks(store, p, before, start, now, trace)
  {
    assert forall q | q in run :: q in trace;
    forall q | q in now - mid
      ensures Reaches(store, before, p, q)
    {
      var t :| t in Targets(store, p, call) && Reaches(store, mid, t, q);
      assert Edge(store, p, t);
      ReachesThrough(store, before, mid, p, t, q);
    }
  }

  lemma CallDone(store: Store, p: string, start: set<string>, mid: set<string>, now: set<string>, i: nat)
    requires p in store && i < |store[p]|
    requires CallsDone(store, p, start, mid, i) && mid <= now
    requires Closed(store, now - mid, now) && Targets(store, p, store[p][i]) <= now
    ensures CallsDone(store, p, start, now, i + 1)
  {
  }

  lemma AllCallsDone(store: Store, p: string, before: set<string>, now: set<string>)
    requires p in store && CallsDone(store, p, before + {p}, now, |store[p]|)
    ensures Closed(store, now - before, now)
  {
    forall f, q | f in now - before && Edge(store, f, q)
      ensures q in now
    {
      if f == p {
        var call :| call in store[p] && q in Targets(store, p, call);
        var j :| 0 <= j < |store[p]| && store[p][j] == call;
      }
    }
  }

  /** From position n on, only files outside this set were run. */
  ghost predicate RunsOnly(trace: seq<string>, n: nat, excluded: set<string>) {
    forall i | n <= i < |trace| :: trace[i] !in excluded
  }

  /**
    The files run since position at[0] belong to the calls of p in their order: those from at[i] to
    at[i + 1] to call i, and the first of them is the one that call i names.
   */
  ghost predicate InOrder(store: Store, p: string, trace: seq<string>, at: seq<nat>)
    requires p in store
  {
    && 1 <= |at| <= |store[p]| + 1 && at[|at| - 1] == |trace|
    && forall i | 0 <= i < |at| - 1 ::
         at[i] <= at[i + 1] && (at[i] < at[i + 1] ==> at[i] < |trace| && trace[at[i]] in Targets(store, p, store[p][i]))
  }

  /** Behind its own position n, the files run by p are in the order of its calls. */
  ghost predicate RunInOrder(store: Store, p: string, trace: seq<string>, n: nat, at: seq<nat>) {
    p in store && InOrder(store, p, trace, at) && at[0] == n + 1 && |at| == |store[p]| + 1
  }

  lemma OrderGoesOn(store: Store, p: string, trace: seq<string>, at: seq<nat>, longer: seq<string>)
    requires p in store && InOrder(store, p, trace, at) && |at| <= |store[p]| && trace <= longer
    requires |longer| > |trace| ==> longer[|trace|] in Targets(store, p, store[p][|at| - 1])
    ensures InOrder(store, p, longer, at + [|longer|])
  {
    hide Targets;
    var next := at + [|longer|];
    forall i | 0 <= i < |next| - 1
      ensures next[i] <= next[i + 1]
      ensures next[i] < next[i + 1] ==> next[i] < |longer| && longer[next[i]] in Targets(store, p, store[p][i])
    {
      if i < |at| - 1 && at[i] < at[i + 1] {
        assert longer[at[i]] == trace[at[i]];
      }
    }
  }

  /** The paths a require tries: in the library with the extension and without, then the name itself with the extension. */
  lemma RequireOrder(store: Store, loaded: set<string>, name: string)
    ensures var first := FirstUnloaded(store, loaded, Candidates(name));
            var a, b := "/lib/" + name + ".rb", "/lib/" + name;
            var c := if |name| >= 3 && name[|name| - 3..] == ".rb" then name else name + ".rb";
            first == if a in store && a !in loaded then Some(a)
                     else if b in store && b !in loaded then Some(b)
                     else if c in store && c !in loaded then Some(c)
                     else None
  {
    FirstOfThree(store, loaded, "/lib/" + name + ".rb", "/lib/" + name, WithExtension(name));
  }

  lemma FirstOfThree(store: Store, loaded: set<string>, a: string, b: string, c: string)
    ensures FirstUnloaded(store, loaded, [a, b, c]) ==
            if a in store && a !in loaded then Some(a)
            else if b in store && b !in loaded then Some(b)
            else if c in store && c !in loaded then Some(c)
            else None
  {
    assert [a, b, c][1..] == [b, c] && [b, c][1..] == [c] && [c][1..] == [];
    assert FirstUnloaded(store, loaded, [c]) == if c in store && c !in loaded then Some(c) else None;
  }

  class Kernel {
    const store: Store

    /** $LOADED_FEATURES_VFS, and the files that were run, in order. */
    var loaded: set<string>
    var trace: seq<string>

    /** No file was run twice, and only marked files were run. */
    ghost predicate Valid()
      reads this
    {
      && (forall i | 0 <= i < |trace| :: trace[i] in loaded)
      && (forall i, j | 0 <= i < j < |trace| :: trace[i] != trace[j])
    }

    ghost function Unloaded(): set<string>
      reads this
    {
      store.Keys - loaded
    }

    constructor (store: Store)
      ensures Valid() && this.store == store && loaded == {} && trace == []
    {
      this.store, loaded, trace := store, {}, [];
    }

    /** Marks a file and runs it. */
    method Load(p: string) returns (r: Result)
      requires Valid() && p in store && p !in loaded
      modifies this
      ensures Valid() && old(trace) <= trace && RunsOnly(trace, |old(trace)|, old(loaded))
      ensures old(loaded) <= loaded && p in loaded
      ensures |trace| > |old(trace)| && trace[|old(trace)|] == p
      ensures forall q | q in loaded - old(loaded) :: q in trace && Reaches(store, old(loaded), p, q)
      ensures r.Returned? && UniqueNames(store) ==> Closed(store, loaded - old(loaded), loaded)
      ensures r.Returned? && UniqueNames(store) ==> ExactlyReachable(store, old(loaded), loaded, p)
      ensures r.Returned? ==> r.value
      ensures r.Returned? ==> exists at: seq<nat> :: RunInOrder(store, p, trace, |old(trace)|, at)
      decreases Unloaded(), 0
    {
      ghost var before := loaded;
      loaded := loaded + {p};
      trace := trace + [p];
      ReachesItself(store, before, p);
      assert p in Unloaded() + {p};
      ghost var at;
      r, at := Eval(p, before);
      assert r.Returned? ==> RunInOrder(store, p, trace, |old(trace)|, at);
      if r.Returned? && UniqueNames(store) {
        MarksExactlyReachable(store, before, loaded, p);
      }
    }

    /** Runs the calls of a file that was just marked. */
    method Eval(p: string, ghost before: set<string>) returns (r: Result, ghost at: seq<nat>)
      requires Valid() && p in store && p in loaded && p !in before && p in trace && before + {p} == loaded
      modifies this
      ensures Valid() && old(trace) <= trace && RunsOnly(trace, |old(trace)|, old(loaded))
      ensures old(loaded) <= loaded
      ensures Marks(store, p, before, old(loaded), loaded, trace)
      ensures r.Returned? && UniqueNames(store) ==> Closed(store, loaded - before, loaded)
      ensures r.Returned? ==> r.value
      ensures InOrder(store, p, trace, at) && at[0] == |old(trace)| && (r.Returned? ==> |at| == |store[p]| + 1)
      decreases Unloaded(), 2
    {
      var calls := store[p];
      ghost var start := loaded;
      at := [|trace|];
      assert InOrder(store, p, trace, at);
      hide Closed, Reaches, Targets, UniqueNames, InOrder;
      assert Closed(store, {}, loaded) && loaded - start == {};
      for i := 0 to |calls|
        invariant Valid() && old(trace) <= trace && RunsOnly(trace, |old(trace)|, old(loaded))
        invariant Marks(store, p, before, start, loaded, trace)
        invariant UniqueNames(store) ==> CallsDone(store, p, start, loaded, i)
        invariant |at| == i + 1 && at[0] == |old(trace)| && InOrder(store, p, trace, at)
      {
        ghost var mid, run := loaded, trace;
        match calls[i] {
          case Require(name) =>
            r := RequireFile(p, name);
          case RequireRelative(name) =>
            r := RequireRelativeFile(p, name);
        }
        CallMarks(store, p, before, start, mid, loaded, run, trace, r, calls[i]);
        OrderGoesOn(store, p, run, at, trace);
        at := at + [|trace|];
        if r.Raised? {
          return;
        }
        if UniqueNames(store) {
          CallDone(store, p, start, mid, loaded, i);
        }
      }
      if UniqueNames(store) {
        AllCallsDone(store, p, before, loaded);
      }
      r := Returned(true);
    }

    method RequireFile(ghost file: string, name: string) returns (r: Result)
      requires Valid()
      modifies this
      ensures Valid() && old(trace) <= trace && RunsOnly(trace, |old(trace)|, old(loaded))
      ensures LoadedBy(store, old(loaded), loaded, trace, r, file, Require(name))
      ensures loaded == old(loaded) <==> Targets(store, file, Require(name)) <= old(loaded)
      ensures |trace| > |old(trace)| ==> trace[|old(trace)|] in Targets(store, file, Require(name))
      ensures var first := FirstUnloaded(store, old(loaded), Candidates(name));
              if name in STUBS || first == None then r.Returned? && trace == old(trace)
              else |trace| > |old(trace)| && trace[|old(trace)|] == first.value
      ensures r.Returned? && UniqueName(store, name) ==> Targets(store, file, Require(name)) <= loaded
      ensures r.Returned? && UniqueName(store, name) && UniqueNames(store) ==>
                forall t | t in Targets(store, file, Require(name)) - old(loaded) :: ExactlyReachable(store, old(loaded), loaded, t)
      ensures r.Returned? ==> (r.value <==> name in STUBS || loaded != old(loaded))
      ensures r.Raised? ==> loaded != old(loaded)
      decreases Unloaded(), 1
    {
      if name in STUBS {
        return Returned(true);
      }
      var paths := Candidates(name);
      for i := 0 to |paths|
        invariant loaded == old(loaded) && trace == old(trace)
        invariant forall j | 0 <= j < i :: paths[j] in store ==> paths[j] in loaded
      {
        if paths[i] !in loaded {
          if paths[i] in store {
            assert paths[i] in Targets(store, file, Require(name));
            FirstUnloadedIs(store, loaded, paths, i);
            assert paths[i..][0] == paths[i];
            r := Load(paths[i]);
            return;
          }
        }
      }
      FirstUnloadedIs(store, loaded, paths, |paths|);
      r := Returned(false);
    }

    method RequireRelativeFile(caller: string, name: string) returns (r: Result)
      requires Valid()
      modifies this
      ensures Valid() && old(trace) <= trace && RunsOnly(trace, |old(trace)|, old(loaded))
      ensures LoadedBy(store, old(loaded), loaded, trace, r, caller, RequireRelative(name))
      ensures loaded == old(loaded) <==> Targets(store, caller, RequireRelative(name)) <= old(loaded)
      ensures |trace| > |old(trace)| ==> trace[|old(trace)|] in Targets(store, caller, RequireRelative(name))
      ensures r.Returned? ==> r.value && RelativePath(caller, name) in loaded && Targets(store, caller, RequireRelative(name)) <= loaded
      ensures r.Returned? && UniqueNames(store) && RelativePath(caller, name) !in old(loaded) ==>
                ExactlyReachable(store, old(loaded), loaded, RelativePath(caller, name))
      decreases Unloaded(), 1
    {
      var full := NormalisePath(WithExtension(Dirname(caller) + "/" + name));
      if full in loaded {
        return Returned(true);
      }
      if full in store {
        assert full in Targets(store, caller, RequireRelative(name));
        r := Load(full);
        return;
      }
      return Raised;
    }
  }
}
