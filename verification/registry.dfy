/**
  The module registry (`struct modules`, `_query`, `skynet_module_query` and
  `skynet_module_init` in skynet-src/skynet_module.c): a table of at most
  `MaxModuleType` loaded modules with lookup by name and an append-only
  get-or-load operation.

  The table is modelled by its published part: the records at indices below
  `count`, so `count` is the length of `m`. The spin lock and the second
  lookup under it collapse into one atomic step: with no other writer, the
  lookup under the lock sees what the first lookup saw.
*/
module Registry {
  import opened Wrappers
  import SearchPath
  import Symbols

  /** `MAX_MODULE_TYPE`: the capacity of the table. */
  const MaxModuleType := 32

  /** One loaded module: its own copy of the name, the library handle and the
      bound entry points. */
  datatype Module<H, S> = Module(name: string, dl: H, api: Symbols.Api<S>)

  /** The registry: the search-path template and the published records. */
  datatype Modules<H, S> = Modules(path: string, m: seq<Module<H, S>>)

  /** What `skynet_module_query` answers: the record at an index, NULL, or the
      process exit on a malformed search path. */
  datatype Reply = Record(index: nat) | Null | Exit

  /** The registry after a query, and the query's answer. */
  datatype Step<H, S> = Step(after: Modules<H, S>, reply: Reply)

  /** One call of `skynet_module_query`, with what the loader answers at that time. */
  datatype Call<!H, S> = Call(name: string, dlopen: string -> Option<H>, dlsym: (H, string) -> Option<S>)

  /** The registry after a series of calls, and each call's answer in order. */
  datatype Trace<H, S> = Trace(final: Modules<H, S>, replies: seq<Reply>)

  ghost predicate DistinctNames<H, S>(ms: seq<Module<H, S>>) {
    forall i, j :: 0 <= i < j < |ms| ==> ms[i].name != ms[j].name
  }

  /** The registry invariant: within capacity, no name twice. */
  ghost predicate Valid<H, S>(M: Modules<H, S>) {
    |M.m| <= MaxModuleType && DistinctNames(M.m)
  }

  ghost predicate Registered<H, S>(M: Modules<H, S>, name: string) {
    exists i :: 0 <= i < |M.m| && M.m[i].name == name
  }

  /** `skynet_module_init`: an empty table over a copy of the template. */
  function Init<H, S>(path: string): (M: Modules<H, S>)
    ensures Valid(M)
    ensures |M.m| == 0 && M.path == path
  {
    Modules(path, [])
  }

  /** `_query`: the index of the first record called `name`, if any. */
  function Find<H, S>(ms: seq<Module<H, S>>, name: string): (r: Option<nat>)
    ensures r.Some? ==> r.value < |ms| && ms[r.value].name == name
    ensures r.Some? ==> forall j :: 0 <= j < r.value ==> ms[j].name != name
    ensures r.None? <==> forall j :: 0 <= j < |ms| ==> ms[j].name != name
  {
    if ms == [] then None
    else if ms[0].name == name then Some(0)
    else
      match Find(ms[1..], name)
      case None => None
      case Some(i) => Some(i + 1)
  }

  /** The load path of `skynet_module_query`, taken under the lock after a
      miss with room left: open the library, bind it, and on success publish the
      record at index `count`. */
  function Load<H, S>(M: Modules<H, S>, name: string, dlopen: string -> Option<H>,
                      dlsym: (H, string) -> Option<S>): (s: Step<H, S>)
    ensures s.reply.Record? ==>
      && s.reply.index == |M.m|
      && |s.after.m| == |M.m| + 1
      && s.after == Modules(M.path, M.m + [s.after.m[|M.m|]])
      && s.after.m[|M.m|].name == name
    ensures !s.reply.Record? ==> s.after == M
  {
    match SearchPath.TryOpen(M.path, name, dlopen)
    case InvalidPath => Step(M, Exit)
    case Exhausted => Step(M, Null)
    case Opened(dl) =>
      match Symbols.OpenSym(dl, name, dlsym)
      case None => Step(M, Null)
      case Some(api) => Step(Modules(M.path, M.m + [Module(name, dl, api)]), Record(|M.m|))
  }

  /** `skynet_module_query`: return the record called `name`, or load it into
      the next free slot, or answer NULL leaving the table as it was. */
  function Query<H, S>(M: Modules<H, S>, name: string, dlopen: string -> Option<H>,
                       dlsym: (H, string) -> Option<S>): (s: Step<H, S>)
    ensures s.after.path == M.path
    ensures |M.m| <= |s.after.m| <= |M.m| + 1 && s.after.m[..|M.m|] == M.m
    ensures s.reply.Record? ==> s.reply.index < |s.after.m| && s.after.m[s.reply.index].name == name
    ensures !s.reply.Record? ==> s.after == M
    ensures |s.after.m| == |M.m| + 1 ==> s.reply == Record(|M.m|) && |M.m| < MaxModuleType
    ensures Valid(M) ==> Valid(s.after)
  {
    match Find(M.m, name)
    case Some(i) => Step(M, Record(i))
    case None =>
      if |M.m| < MaxModuleType then
        var s := Load(M, name, dlopen, dlsym);
        assert s.after.m[..|M.m|] == M.m;
        if s.reply.Record? then
          AppendKeepsValid(M, s.after.m[|M.m|]);
          s
        else s
      else Step(M, Null)
  }

  /** A record with a new name appended below capacity keeps the invariant. */
  lemma AppendKeepsValid<H, S>(M: Modules<H, S>, r: Module<H, S>)
    requires |M.m| < MaxModuleType
    requires forall j :: 0 <= j < |M.m| ==> M.m[j].name != r.name
    ensures Valid(M) ==> Valid(Modules(M.path, M.m + [r]))
  {
    var m := M.m + [r];
    assert forall j :: 0 <= j < |M.m| ==> m[j] == M.m[j];
  }

  /** Which of its outcomes a query takes: a registered name is answered with
      its record and nothing changes; only an unregistered name below capacity
      can add a record; a full table answers NULL to a new name. */
  lemma QueryOutcomes<H, S>(M: Modules<H, S>, name: string, dlopen: string -> Option<H>,
                            dlsym: (H, string) -> Option<S>)
    ensures var s := Query(M, name, dlopen, dlsym);
      Registered(M, name) ==> s.after == M && s.reply.Record?
    ensures var s := Query(M, name, dlopen, dlsym);
      |s.after.m| == |M.m| + 1 ==> !Registered(M, name)
    ensures |M.m| >= MaxModuleType && !Registered(M, name) ==>
      Query(M, name, dlopen, dlsym) == Step(M, Null)
  {
  }

  /** A name not yet registered, with room left, is loaded exactly when the
      search path yields a library and that library has the `init` entry point;
      the new record sits at index `count` and holds what was opened and bound. */
  lemma QueryLoads<H, S>(M: Modules<H, S>, name: string, dlopen: string -> Option<H>,
                         dlsym: (H, string) -> Option<S>)
    requires !Registered(M, name) && |M.m| < MaxModuleType
    ensures var s := Query(M, name, dlopen, dlsym);
      s.reply.Record? <==>
        SearchPath.TryOpen(M.path, name, dlopen).Opened?
        && Symbols.OpenSym(SearchPath.TryOpen(M.path, name, dlopen).dl, name, dlsym).Some?
    ensures var s := Query(M, name, dlopen, dlsym);
      s.reply.Record? ==>
        var dl := SearchPath.TryOpen(M.path, name, dlopen).dl;
        s.after.m == M.m + [Module(name, dl, Symbols.OpenSym(dl, name, dlsym).value)]
    ensures var s := Query(M, name, dlopen, dlsym);
      s.reply.Exit? <==> SearchPath.TryOpen(M.path, name, dlopen).InvalidPath?
  {
  }

  /** A query that answers a record answers the same record when asked again,
      whatever the loader would say then: a loaded module is never reloaded. */
  lemma QueryAgainHits<H, S>(M: Modules<H, S>, name: string, dlopen: string -> Option<H>,
                             dlsym: (H, string) -> Option<S>, dlopen': string -> Option<H>,
                             dlsym': (H, string) -> Option<S>)
    requires Query(M, name, dlopen, dlsym).reply.Record?
    ensures var s := Query(M, name, dlopen, dlsym);
      Query(s.after, name, dlopen', dlsym') == s
  {
    var s := Query(M, name, dlopen, dlsym);
    if Registered(M, name) {
      assert Find(M.m, name) == Some(s.reply.index);
    } else {
      FindAppended(M.m, s.after.m[|M.m|], name);
    }
  }

  /** A record appended after a miss is the first one with its name. */
  lemma FindAppended<H, S>(ms: seq<Module<H, S>>, x: Module<H, S>, name: string)
    requires forall j :: 0 <= j < |ms| ==> ms[j].name != name
    requires x.name == name
    ensures Find(ms + [x], name) == Some(|ms|)
  {
    assert (ms + [x])[|ms|] == x;
  }

  /** No negative caching: a query that answered NULL left nothing behind, so
      the next query for that name starts over and, if the loader now finds and
      binds the library, loads it. */
  lemma FailureNotCached<H, S>(M: Modules<H, S>, name: string, dlopen: string -> Option<H>,
                               dlsym: (H, string) -> Option<S>, dlopen': string -> Option<H>,
                               dlsym': (H, string) -> Option<S>)
    requires Query(M, name, dlopen, dlsym).reply.Null?
    ensures var s := Query(M, name, dlopen, dlsym);
      Query(s.after, name, dlopen', dlsym') == Query(M, name, dlopen', dlsym')
  {
  }

  /** `skynet_module_query` over a series of calls; the process ends at an exit. */
  function Run<H, S>(M: Modules<H, S>, calls: seq<Call<H, S>>): (t: Trace<H, S>)
    ensures |t.replies| <= |calls|
    ensures t.final.path == M.path
    ensures |M.m| <= |t.final.m| <= |M.m| + |calls|
    ensures t.final.m[..|M.m|] == M.m
    ensures Valid(M) ==> Valid(t.final)
    decreases |calls|
  {
    if calls == [] then Trace(M, [])
    else
      var s := Query(M, calls[0].name, calls[0].dlopen, calls[0].dlsym);
      if s.reply.Exit? then Trace(s.after, [Exit])
      else
        var t := Run(s.after, calls[1..]);
        PrefixOfPrefix(M.m, s.after.m, t.final.m);
        Trace(t.final, [s.reply] + t.replies)
  }

  /** Prefixes compose: records kept by two steps are kept by both together. */
  lemma PrefixOfPrefix<T>(a: seq<T>, b: seq<T>, c: seq<T>)
    requires |a| <= |b| <= |c| && b[..|a|] == a && c[..|b|] == b
    ensures c[..|a|] == a
  {
    assert c[..|b|][..|a|] == c[..|a|];
  }

  /** Every record of a valid table is the only one with its name, so a lookup
      by that name finds exactly it. */
  lemma FindRegistered<H, S>(M: Modules<H, S>, i: nat)
    requires Valid(M) && i < |M.m|
    ensures Find(M.m, M.m[i].name) == Some(i)
  {
  }

  /** References are stable: after any further calls, a module registered
      before them is still answered by the record at the same index. */
  lemma ReferencesStable<H, S>(M: Modules<H, S>, calls: seq<Call<H, S>>, i: nat,
                               dlopen: string -> Option<H>, dlsym: (H, string) -> Option<S>)
    requires Valid(M) && i < |M.m|
    ensures var t := Run(M, calls);
      t.final.m[i] == M.m[i]
      && Query(t.final, M.m[i].name, dlopen, dlsym) == Step(t.final, Record(i))
  {
    var t := Run(M, calls);
    assert t.final.m[i] == t.final.m[..|M.m|][i];
    FindRegistered(t.final, i);
  }

  /** A full table refuses every new name without touching anything, and
      keeps answering every name it holds with its record. */
  lemma FullTable<H, S>(M: Modules<H, S>, name: string, dlopen: string -> Option<H>,
                        dlsym: (H, string) -> Option<S>)
    requires Valid(M) && |M.m| == MaxModuleType
    ensures !Registered(M, name) ==> Query(M, name, dlopen, dlsym) == Step(M, Null)
    ensures forall i :: 0 <= i < |M.m| ==> Query(M, M.m[i].name, dlopen, dlsym) == Step(M, Record(i))
  {
    forall i | 0 <= i < |M.m|
      ensures Query(M, M.m[i].name, dlopen, dlsym) == Step(M, Record(i))
    {
      FindRegistered(M, i);
    }
  }

  /** All the records among the replies are the same one. */
  ghost predicate OneRecord(replies: seq<Reply>) {
    forall k, l :: 0 <= k < |replies| && 0 <= l < |replies| && replies[k].Record? && replies[l].Record? ==>
      replies[k] == replies[l]
  }

  /** A reply that is no record adds no second record. */
  lemma OneRecordAfterMiss(r: Reply, replies: seq<Reply>)
    requires !r.Record? && OneRecord(replies)
    ensures OneRecord([r] + replies)
  {
    assert forall k :: 1 <= k < |replies| + 1 ==> ([r] + replies)[k] == replies[k - 1];
  }

  /** Replies that all name record `i` name one record. */
  lemma OneRecordWhenAllHit(replies: seq<Reply>, i: nat)
    requires forall k :: 0 <= k < |replies| ==> replies[k] == Record(i)
    ensures OneRecord(replies)
  {
  }

  /** Calls that all ask for one name publish at most one record, and every
      record they are answered with is that same one. */
  lemma {:induction false} OneNameOneRecord<H, S>(M: Modules<H, S>, calls: seq<Call<H, S>>, name: string)
    requires Valid(M)
    requires forall k :: 0 <= k < |calls| ==> calls[k].name == name
    ensures |Run(M, calls).final.m| <= |M.m| + 1
    ensures OneRecord(Run(M, calls).replies)
    decreases |calls|
  {
    if calls != [] {
      var s := Query(M, name, calls[0].dlopen, calls[0].dlsym);
      if !s.reply.Exit? {
        var t := Run(s.after, calls[1..]);
        RunStep(M, calls);
        if s.reply.Record? {
          OneNameFirstHit(M, calls, name);
        } else {
          OneNameOneRecord(M, calls[1..], name);
          OneRecordAfterMiss(s.reply, t.replies);
        }
      }
    }
  }

  /** Calls for one name whose first query answers a record: the rest only
      hit that record, so nothing more is published. */
  lemma OneNameFirstHit<H, S>(M: Modules<H, S>, calls: seq<Call<H, S>>, name: string)
    requires Valid(M) && calls != []
    requires forall k :: 0 <= k < |calls| ==> calls[k].name == name
    requires Query(M, name, calls[0].dlopen, calls[0].dlsym).reply.Record?
    ensures |Run(M, calls).final.m| <= |M.m| + 1
    ensures OneRecord(Run(M, calls).replies)
  {
    var s := Query(M, name, calls[0].dlopen, calls[0].dlsym);
    var t := Run(s.after, calls[1..]);
    RunStep(M, calls);
    RepeatHits(s.after, calls[1..], s.reply.index);
    OneRecordWhenAllHit([s.reply] + t.replies, s.reply.index);
  }

  /** Calls for a name already at index `i` all answer `i` and change nothing. */
  lemma {:induction false} RepeatHits<H, S>(M: Modules<H, S>, calls: seq<Call<H, S>>, i: nat)
    requires Valid(M) && i < |M.m|
    requires forall k :: 0 <= k < |calls| ==> calls[k].name == M.m[i].name
    ensures Run(M, calls).final == M
    ensures forall k :: 0 <= k < |Run(M, calls).replies| ==> Run(M, calls).replies[k] == Record(i)
    decreases |calls|
  {
    if calls != [] {
      FindRegistered(M, i);
      RepeatHits(M, calls[1..], i);
    }
  }

  /** Every record a call of the series was answered with is, at the end of the
      series, still a record with the name that call asked for. */
  lemma {:induction false} RepliesResolve<H, S>(M: Modules<H, S>, calls: seq<Call<H, S>>)
    ensures var t := Run(M, calls);
      forall k :: 0 <= k < |t.replies| && t.replies[k].Record? ==>
        t.replies[k].index < |t.final.m| && t.final.m[t.replies[k].index].name == calls[k].name
    decreases |calls|
  {
    if calls != [] {
      var s := Query(M, calls[0].name, calls[0].dlopen, calls[0].dlsym);
      if !s.reply.Exit? {
        RepliesResolve(s.after, calls[1..]);
        RunStep(M, calls);
        ResolveFirst(s.after.m, s.reply, Run(s.after, calls[1..]), calls);
      }
    }
  }

  /** The replies of a series resolve when its first reply does and the replies
      of the rest resolve against a table that keeps the first's records. */
  lemma ResolveFirst<H, S>(m: seq<Module<H, S>>, r: Reply, t: Trace<H, S>, calls: seq<Call<H, S>>)
    requires |t.replies| < |calls| && |m| <= |t.final.m| && t.final.m[..|m|] == m
    requires r.Record? ==> r.index < |m| && m[r.index].name == calls[0].name
    requires forall k :: 0 <= k < |t.replies| && t.replies[k].Record? ==>
      t.replies[k].index < |t.final.m| && t.final.m[t.replies[k].index].name == calls[1..][k].name
    ensures var replies := [r] + t.replies;
      forall k :: 0 <= k < |replies| && replies[k].Record? ==>
        replies[k].index < |t.final.m| && t.final.m[replies[k].index].name == calls[k].name
  {
    if r.Record? {
      assert t.final.m[r.index] == t.final.m[..|m|][r.index];
    }
    forall k | 1 <= k < |t.replies| + 1 && ([r] + t.replies)[k].Record?
      ensures ([r] + t.replies)[k].index < |t.final.m|
      ensures t.final.m[([r] + t.replies)[k].index].name == calls[k].name
    {
      assert ([r] + t.replies)[k] == t.replies[k - 1];
      assert calls[k] == calls[1..][k - 1];
    }
  }

  /** The names the calls of a series ask for, in order. */
  function CallNames<H, S>(calls: seq<Call<H, S>>): (names: seq<string>)
    ensures |names| == |calls|
    ensures forall k :: 0 <= k < |calls| ==> names[k] == calls[k].name
  {
    if calls == [] then [] else [calls[0].name] + CallNames(calls[1..])
  }

  /** A series that does not start with an exit: the first query, then the rest. */
  lemma RunStep<H, S>(M: Modules<H, S>, calls: seq<Call<H, S>>)
    requires calls != []
    requires !Query(M, calls[0].name, calls[0].dlopen, calls[0].dlsym).reply.Exit?
    ensures var s := Query(M, calls[0].name, calls[0].dlopen, calls[0].dlsym);
      var t := Run(s.after, calls[1..]);
      Run(M, calls) == Trace(t.final, [s.reply] + t.replies)
  {
  }

  /** A record a query adds carries the name asked for. */
  lemma QueryAddsAskedName<H, S>(M: Modules<H, S>, name: string, dlopen: string -> Option<H>,
                                 dlsym: (H, string) -> Option<S>)
    ensures var s := Query(M, name, dlopen, dlsym);
      forall i :: |M.m| <= i < |s.after.m| ==> s.after.m[i].name == name
  {
    var s := Query(M, name, dlopen, dlsym);
    forall i | |M.m| <= i < |s.after.m|
      ensures s.after.m[i].name == name
    {
      assert i == |M.m| && s.reply == Record(|M.m|);
    }
  }

  /** Only names that were asked for get registered: every record the series
      published carries the name of one of its calls. */
  lemma {:induction false} NamesFromCalls<H, S>(M: Modules<H, S>, calls: seq<Call<H, S>>)
    ensures forall i :: |M.m| <= i < |Run(M, calls).final.m| ==> Run(M, calls).final.m[i].name in CallNames(calls)
    decreases |calls|
  {
    if calls != [] {
      var s := Query(M, calls[0].name, calls[0].dlopen, calls[0].dlsym);
      if !s.reply.Exit? {
        var t := Run(s.after, calls[1..]);
        RunStep(M, calls);
        NamesFromCalls(s.after, calls[1..]);
        QueryAddsAskedName(M, calls[0].name, calls[0].dlopen, calls[0].dlsym);
        assert CallNames(calls) == [calls[0].name] + CallNames(calls[1..]);
        forall i | |M.m| <= i < |t.final.m|
          ensures t.final.m[i].name in CallNames(calls)
        {
          if i < |s.after.m| {
            assert t.final.m[i] == t.final.m[..|s.after.m|][i];
            assert t.final.m[i].name == calls[0].name;
          } else {
            assert t.final.m[i].name in CallNames(calls[1..]);
          }
        }
      }
    }
  }
}
