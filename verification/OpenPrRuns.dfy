/** What open_pr guarantees over every run of interleaved and failing calls. */
module OpenPrRuns {
  import opened Basics
  import opened Trailer
  import opened OpenPr

  /** The world after a history of actions. */
  function Run(w: World, actions: seq<Action>): (v: World)
    requires Inv(w)
    ensures Inv(v) && Extends(w, v)
  {
    if actions == [] then w
    else
      var before := Run(w, actions[..|actions| - 1]);
      InvStep(before, actions[|actions| - 1]);
      Step(before, actions[|actions| - 1])
  }

  /** Every run starts from a repository with a master and intact refs. */
  lemma InitInv(g: GitHub)
    ensures Consistent(g) <==> Inv(World(g, [], []))
  {
  }

  // The base branch

  lemma StepKeepsMaster(w: World, a: Action)
    requires Inv(w) && !a.PushMaster?
    ensures Readable(w) && Step(w, a).github.refs[MASTER] == w.github.refs[MASTER]
  {
    hide TrailerKey, IsKey, Message, PhaseOk, EntryOk, Request, OneRefPerBranch;
    InvReadable(w);
    if a.Send? && Enabled(w, a) {
      var c := w.calls[a.call];
      assert PhaseOk(w, a.call, c.args, c.phase);
      HeadExists(w, a.call);
      RequestGrows(w.github, c.args, c.phase, a.fault, a.newId);
    }
  }

  lemma HeadExists(w: World, i: nat)
    requires i < |w.calls| && PhaseOk(w, i, w.calls[i].args, w.calls[i].phase)
    ensures w.calls[i].phase.ReadHead? ==> w.calls[i].phase.head in w.github.commits
    ensures w.calls[i].phase.PostRef? ==> w.calls[i].phase.commit in w.github.commits
  {
    hide TrailerKey, ValidArgs;
  }

  /** No run of calls, however it fails, moves master: only pushes from outside do. */
  lemma {:induction false} BaseNeverWritten(w: World, actions: seq<Action>)
    requires Inv(w) && forall k :: 0 <= k < |actions| ==> !actions[k].PushMaster?
    ensures Run(w, actions).github.refs[MASTER] == w.github.refs[MASTER]
    decreases |actions|
  {
    hide Inv, Step;
    if actions != [] {
      var before := Run(w, actions[..|actions| - 1]);
      BaseNeverWritten(w, actions[..|actions| - 1]);
      StepKeepsMaster(before, actions[|actions| - 1]);
    }
  }

  // Creation of branches

  /**
   In any run from a world whose log is empty: each contrib branch is created at most once, it is
   a contrib branch, and to this day it holds the commit that its creating call made.
  */
  lemma BranchesCreatedOnce(w: World, actions: seq<Action>, k: nat)
    requires Inv(w)
    requires var log := Run(w, actions).log; k < |log| && log[k].change.MadeRef?
    ensures var v := Run(w, actions);
            var Entry(call, MadeRef(branch, id)) := v.log[k];
            && call < |v.calls| && v.calls[call].args.branch == branch && ContribBranch(branch)
            && branch in v.github.refs && v.github.refs[branch] == id
            && Entry(call, MadeCommit(id)) in v.log
            && (forall l :: 0 <= l < |v.log| && l != k && v.log[l].change.MadeRef? ==> v.log[l].change.branch != branch)
  {
    hide TrailerKey, IsKey, Message, PhaseOk;
    var v := Run(w, actions);
    assert EntryOk(v, v.log[k]);
  }

  /** The head of a created branch carries its creator's key, unless the title or identity smuggles in another. */
  lemma BranchCarriesKey(w: World, actions: seq<Action>, k: nat)
    requires Inv(w)
    requires var v := Run(w, actions);
             && k < |v.log| && v.log[k].change.MadeRef? && v.log[k].call < |v.calls|
             && '\n' !in v.calls[v.log[k].call].args.identity
    ensures var v := Run(w, actions);
            var args := v.calls[v.log[k].call].args;
            && args.branch in v.github.refs && v.github.refs[args.branch] in v.github.commits
            && (TrailerKey(v.github.commits[v.github.refs[args.branch]].message) == Some(args.key) <==>
                  LineKey(args.title) in {None, Some(args.key)})
  {
    hide TrailerKey, LineKey, IsKey, Message, PhaseOk;
    var v := Run(w, actions);
    assert EntryOk(v, v.log[k]);
    var e := v.log[k];
    var args := v.calls[e.call].args;
    var l :| 0 <= l < |v.log| && v.log[l] == Entry(e.call, MadeCommit(e.change.id));
    assert EntryOk(v, v.log[l]);
    Trailer.RoundTrip(args.title, args.identity, args.key);
  }

  /** A created branch starts from the base commit its caller expected, whatever happened to master meanwhile. */
  lemma ExpectedBaseIsKept(w: World, actions: seq<Action>, k: nat)
    requires Inv(w)
    requires var log := Run(w, actions).log; k < |log| && log[k].change.MadeRef?
    ensures var v := Run(w, actions);
            var Entry(call, MadeRef(_, id)) := v.log[k];
            && call < |v.calls| && id in v.github.commits
            && (v.calls[call].args.expectedBase.Some? ==> v.github.commits[id].parent == v.calls[call].args.expectedBase.value)
  {
    hide TrailerKey, IsKey, Message, PhaseOk;
    var v := Run(w, actions);
    assert EntryOk(v, v.log[k]);
    var e := v.log[k];
    var l :| 0 <= l < |v.log| && v.log[l] == Entry(e.call, MadeCommit(e.change.id));
    assert EntryOk(v, v.log[l]);
  }

  // The base that a call read

  /** After `m` actions of the run the call had just read master and found `base` there. */
  ghost predicate ReadAt(w: World, actions: seq<Action>, i: nat, base: Sha, m: nat)
    requires Inv(w)
  {
    && m <= |actions|
    && var u := Run(w, actions[..m]);
       && i < |u.calls| && u.calls[i].phase == ReadBranch(base)
       && MASTER in u.github.refs && u.github.refs[MASTER] == base
  }

  ghost predicate HasRead(w: World, actions: seq<Action>, i: nat, base: Sha)
    requires Inv(w)
  {
    exists m: nat :: ReadAt(w, actions, i, base, m)
  }

  lemma HasReadStays(w: World, actions: seq<Action>, i: nat, base: Sha)
    requires Inv(w) && actions != [] && HasRead(w, actions[..|actions| - 1], i, base)
    ensures HasRead(w, actions, i, base)
  {
    hide Inv, Run;
    var before := actions[..|actions| - 1];
    var m: nat :| ReadAt(w, before, i, base, m);
    assert before[..m] == actions[..m];
    assert ReadAt(w, actions, i, base, m);
  }

  function BaseOf(p: Phase): Option<Sha> { if p.ReadBase? || p.Failed? then None else Some(p.base) }

  /** One request keeps the call's base, or reads it off master; a commit it makes has it as its parent. */
  lemma StepBase(w: World, a: Action, i: nat)
    requires Inv(w) && i < |w.calls|
    ensures Readable(w)
    ensures var v := Step(w, a);
            && i < |v.calls|
            && (BaseOf(v.calls[i].phase) in {None, BaseOf(w.calls[i].phase)}
                || (v.calls[i].phase.ReadBranch? && MASTER in v.github.refs && v.github.refs[MASTER] == v.calls[i].phase.base))
  {
    hide TrailerKey, IsKey, Message, PhaseOk, EntryOk, OneRefPerBranch, ValidArgs, HasOpenPull;
    InvReadable(w);
    InvStep(w, a);
  }

  /** A commit that a request makes has the call's base as its parent. */
  lemma StepLogs(w: World, a: Action, k: nat)
    requires Inv(w)
    ensures Readable(w)
    ensures var v := Step(w, a);
            |w.log| <= k < |v.log| ==>
              && v.log[k].call < |w.calls|
              && (v.log[k].change.MadeCommit? ==>
                    && v.log[k].change.id in v.github.commits
                    && Some(v.github.commits[v.log[k].change.id].parent) == BaseOf(w.calls[v.log[k].call].phase))
  {
    hide TrailerKey, IsKey, Message, PhaseOk, EntryOk, OneRefPerBranch, ValidArgs, HasOpenPull;
    InvReadable(w);
  }

  /** A call that has a base has started before. */
  lemma BasedHasStarted(w: World, a: Action, i: nat)
    requires Inv(w)
    ensures Readable(w)
    ensures i < |Step(w, a).calls| && BaseOf(Step(w, a).calls[i].phase).Some? ==> i < |w.calls|
  {
    hide Inv, Request, ValidArgs;
    InvReadable(w);
  }

  /** The call has read the base it works on. */
  ghost predicate CallBased(w: World, actions: seq<Action>, i: nat)
    requires Inv(w)
  {
    var v := Run(w, actions);
    i < |v.calls| && BaseOf(v.calls[i].phase).Some? ==> HasRead(w, actions, i, BaseOf(v.calls[i].phase).value)
  }

  /** The commit logged at `k` has the parent that its call read. */
  ghost predicate CommitBased(w: World, actions: seq<Action>, k: nat)
    requires Inv(w)
  {
    var v := Run(w, actions);
    k < |v.log| && v.log[k].change.MadeCommit? ==>
      && v.log[k].change.id in v.github.commits
      && HasRead(w, actions, v.log[k].call, v.github.commits[v.log[k].change.id].parent)
  }

  lemma CallStaysBased(w: World, before: seq<Action>, a: Action, i: nat)
    requires Inv(w) && CallBased(w, before, i)
    ensures CallBased(w, before + [a], i)
  {
    hide Inv, Step, Run, Readable, HasRead, BaseOf;
    var actions := before + [a];
    assert actions[..|actions| - 1] == before && actions[..|actions|] == actions;
    var u, v := Run(w, before), Run(w, actions);
    RunMore(w, before, a);
    BasedHasStarted(u, a, i);
    if i < |v.calls| && BaseOf(v.calls[i].phase).Some? {
      StepBase(u, a, i);
      if BaseOf(v.calls[i].phase) == BaseOf(u.calls[i].phase) {
        HasReadStays(w, actions, i, BaseOf(v.calls[i].phase).value);
      } else {
        BaseIsRead(w, actions, i);
      }
    }
  }

  lemma BaseIsRead(w: World, actions: seq<Action>, i: nat)
    requires Inv(w)
    requires var v := Run(w, actions);
             && i < |v.calls| && v.calls[i].phase.ReadBranch?
             && MASTER in v.github.refs && v.github.refs[MASTER] == v.calls[i].phase.base
    ensures HasRead(w, actions, i, BaseOf(Run(w, actions).calls[i].phase).value)
  {
    hide Inv, Run;
    assert actions[..|actions|] == actions;
    assert ReadAt(w, actions, i, Run(w, actions).calls[i].phase.base, |actions|);
  }

  lemma CommitStaysBased(w: World, before: seq<Action>, a: Action, k: nat)
    requires Inv(w) && CommitBased(w, before, k) && |w.log| <= k
    requires forall i: nat :: |w.calls| <= i ==> CallBased(w, before, i)
    requires k < |Run(w, before + [a]).log| ==> Run(w, before + [a]).log[k].call >= |w.calls|
    ensures CommitBased(w, before + [a], k)
  {
    hide Inv, Step, Run, Readable, HasRead, BaseOf;
    var actions := before + [a];
    assert actions[..|actions| - 1] == before;
    var u, v := Run(w, before), Run(w, actions);
    RunMore(w, before, a);
    InvStep(u, a);
    StepLogs(u, a, k);
    if k < |v.log| && v.log[k].change.MadeCommit? {
      var call := v.log[k].call;
      if k < |u.log| {
        assert v.log[k] == u.log[k];
        HasReadStays(w, actions, call, u.github.commits[u.log[k].change.id].parent);
      } else {
        assert CallBased(w, before, call);
        HasReadStays(w, actions, call, BaseOf(u.calls[call].phase).value);
      }
    }
  }

  /**
   Every base that a call started in the run works on was master's commit when it read it, and every commit
   it makes has that parent, whether or not the caller named an expected base and however the call ends.
  */
  lemma {:induction false} BasesAreRead(w: World, actions: seq<Action>)
    requires Inv(w)
    ensures forall i: nat :: |w.calls| <= i ==> CallBased(w, actions, i)
    ensures forall k: nat :: |w.log| <= k < |Run(w, actions).log| && Run(w, actions).log[k].call >= |w.calls| ==>
              CommitBased(w, actions, k)
    decreases |actions|
  {
    hide Inv, Step, Run, CallBased, CommitBased;
    if actions == [] {
      NothingRun(w);
    } else {
      var before, a := actions[..|actions| - 1], actions[|actions| - 1];
      assert before + [a] == actions;
      BasesAreRead(w, before);
      forall i: nat | |w.calls| <= i ensures CallBased(w, actions, i) {
        CallStaysBased(w, before, a, i);
      }
      forall k: nat | |w.log| <= k < |Run(w, actions).log| && Run(w, actions).log[k].call >= |w.calls|
        ensures CommitBased(w, actions, k)
      {
        EarlierCommit(w, before, a, k);
        CommitStaysBased(w, before, a, k);
      }
    }
  }

  lemma NothingRun(w: World)
    requires Inv(w)
    ensures forall i: nat :: |w.calls| <= i ==> CallBased(w, [], i)
    ensures Run(w, []) == w
  {
    hide Inv;
  }

  /** A commit logged in the run was logged before its last action, or by it. */
  lemma EarlierCommit(w: World, before: seq<Action>, a: Action, k: nat)
    requires Inv(w) && k < |Run(w, before + [a]).log|
    ensures k < |Run(w, before).log| ==> Run(w, before).log[k] == Run(w, before + [a]).log[k]
    ensures k >= |Run(w, before).log| ==> CommitBased(w, before, k)
  {
    hide Inv, Step, Run;
    RunMore(w, before, a);
    InvStep(Run(w, before), a);
  }

  /** Every branch created in the run carries a commit whose parent is the base that its call read off master. */
  lemma CreatedOnBase(w: World, actions: seq<Action>, k: nat)
    requires Inv(w)
    requires var v := Run(w, actions);
             |w.log| <= k < |v.log| && v.log[k].change.MadeRef? && v.log[k].call >= |w.calls|
    ensures var v := Run(w, actions);
            var Entry(call, MadeRef(branch, id)) := v.log[k];
            && branch in v.github.refs && v.github.refs[branch] == id && id in v.github.commits
            && HasRead(w, actions, call, v.github.commits[id].parent)
  {
    hide TrailerKey, IsKey, Message, PhaseOk, HasRead;
    BasesAreRead(w, actions);
    var v := Run(w, actions);
    assert EntryOk(v, v.log[k]);
    var l :| 0 <= l < |v.log| && v.log[l] == Entry(v.log[k].call, MadeCommit(v.log[k].change.id));
    if l < |w.log| { LoggedBefore(w, v, l); } else { assert CommitBased(w, actions, l); }
  }

  lemma LoggedBefore(w: World, v: World, l: nat)
    requires Inv(w) && Extends(w, v) && l < |w.log|
    ensures v.log[l] == w.log[l] && v.log[l].call < |w.calls|
  {
    hide PhaseOk;
    assert EntryOk(w, w.log[l]);
  }

  // Calls made when the branch already exists

  /** Whether call `i` has changed anything but pull requests. */
  ghost predicate OnlyPulls(log: seq<Entry>, i: nat) {
    forall k :: 0 <= k < |log| && log[k].call == i ==> log[k].change.MadePull?
  }

  predicate ReplayPhase(p: Phase) {
    match p
    case ReadBaseTree(_) => false
    case PostTree(_) => false
    case PostCommit(_) => false
    case PostRef(_, _) => false
    case PostPull(_, _, created) => !created
    case FindPull(_, _, created) => !created
    case Opened(_, _, created, _) => !created
    case _ => true
  }

  ghost predicate Replaying(w: World, i: nat) {
    && i < |w.calls| && w.calls[i].args.branch in w.github.refs
    && ReplayPhase(w.calls[i].phase) && OnlyPulls(w.log, i)
  }

  lemma ReplayStep(w: World, a: Action, i: nat)
    requires Inv(w) && Replaying(w, i)
    ensures Readable(w) && Replaying(Step(w, a), i)
  {
    hide TrailerKey, IsKey, Message, PhaseOk, EntryOk, OneRefPerBranch, ValidArgs;
    InvReadable(w);
    InvStep(w, a);
    BranchStays(w, a, w.calls[i].args.branch);
  }

  lemma BranchStays(w: World, a: Action, b: string)
    requires Inv(w) && b in w.github.refs
    ensures Readable(w) && b in Step(w, a).github.refs
  {
    hide Inv, Step;
    InvStep(w, a);
    if b == MASTER { ConsistentMaster(Step(w, a)); }
  }

  lemma ConsistentMaster(w: World)
    requires Inv(w)
    ensures MASTER in w.github.refs
  {
  }

  /** A call that starts when its branch exists never creates a tree, a commit or a ref. */
  lemma {:induction false} RetryCreatesNothing(w: World, args: Args, actions: seq<Action>)
    requires Inv(w) && args.branch in w.github.refs
    ensures Replaying(Run(w, [Start(args)] + actions), |w.calls|)
    decreases |actions|
  {
    hide Inv, Step, Replaying;
    var all := [Start(args)] + actions;
    if actions == [] {
      assert all[..0] == [];
      StartReplays(w, args);
    } else {
      assert all[..|all| - 1] == [Start(args)] + actions[..|actions| - 1];
      RetryCreatesNothing(w, args, actions[..|actions| - 1]);
      ReplayStep(Run(w, all[..|all| - 1]), actions[|actions| - 1], |w.calls|);
    }
  }

  lemma StartReplays(w: World, args: Args)
    requires Inv(w) && args.branch in w.github.refs
    ensures Readable(w) && Replaying(Step(w, Start(args)), |w.calls|)
  {
    hide TrailerKey, IsKey, Message, PhaseOk, OneRefPerBranch;
    InvReadable(w);
    assert forall k :: 0 <= k < |w.log| ==> EntryOk(w, w.log[k]);
  }

  /** A call whose branch holds work under another key: it has changed nothing and cannot open anything. */
  ghost predicate Foreign(w: World, i: nat) {
    && i < |w.calls|
    && var c := w.calls[i];
       && ContribBranch(c.args.branch) && c.args.branch in w.github.refs
       && w.github.refs[c.args.branch] in w.github.commits
       && TrailerKey(w.github.commits[w.github.refs[c.args.branch]].message) != Some(c.args.key)
       && (c.phase.ReadBase? || c.phase.ReadBranch? || c.phase.Failed?
           || (c.phase.ReadHead? && c.phase.head == w.github.refs[c.args.branch]))
       && forall k :: 0 <= k < |w.log| ==> w.log[k].call != i
  }

  lemma ForeignStep(w: World, a: Action, i: nat)
    requires Inv(w) && Foreign(w, i)
    ensures Readable(w) && Foreign(Step(w, a), i)
  {
    hide TrailerKey, IsKey, Message, PhaseOk, EntryOk, OneRefPerBranch, ValidArgs;
    InvReadable(w);
    InvStep(w, a);
    ContribIsNotMaster(w.calls[i].args.branch);
  }

  /** A different key never changes anything: no tree, commit, ref or pull request, and no success. */
  lemma {:induction false} OtherKeyChangesNothing(w: World, args: Args, actions: seq<Action>)
    requires Inv(w) && ContribBranch(args.branch) && args.branch in w.github.refs
    requires w.github.refs[args.branch] in w.github.commits
    requires TrailerKey(w.github.commits[w.github.refs[args.branch]].message) != Some(args.key)
    ensures Foreign(Run(w, [Start(args)] + actions), |w.calls|)
    decreases |actions|
  {
    hide Inv, Step, Foreign, TrailerKey;
    var all := [Start(args)] + actions;
    if actions == [] {
      assert all[..0] == [];
      StartForeign(w, args);
    } else {
      assert all[..|all| - 1] == [Start(args)] + actions[..|actions| - 1];
      OtherKeyChangesNothing(w, args, actions[..|actions| - 1]);
      ForeignStep(Run(w, all[..|all| - 1]), actions[|actions| - 1], |w.calls|);
    }
  }

  lemma StartForeign(w: World, args: Args)
    requires Inv(w) && ContribBranch(args.branch) && args.branch in w.github.refs
    requires w.github.refs[args.branch] in w.github.commits
    requires TrailerKey(w.github.commits[w.github.refs[args.branch]].message) != Some(args.key)
    ensures Readable(w) && Foreign(Step(w, Start(args)), |w.calls|)
  {
    hide TrailerKey, IsKey, Message, PhaseOk, OneRefPerBranch;
    InvReadable(w);
    assert forall k :: 0 <= k < |w.log| ==> EntryOk(w, w.log[k]);
  }

  // Results

  /**
   A call that reports success names the head of its branch and a pull request for that branch. The base it
   names was master's commit when the run's own call read it, and the parent of the head if it created the branch.
  */
  lemma OpenedIsTrue(w: World, actions: seq<Action>, i: nat)
    requires Inv(w)
    requires i < |Run(w, actions).calls| && Run(w, actions).calls[i].phase.Opened?
    ensures var v := Run(w, actions);
            var c := v.calls[i];
            && HeadIs(v, c.args, c.phase.head)
            && c.phase.number in v.github.pulls && v.github.pulls[c.phase.number].branch == c.args.branch
            && (|w.calls| <= i ==> HasRead(w, actions, i, c.phase.base))
            && (c.phase.created ==> Entry(i, MadeRef(c.args.branch, c.phase.head)) in v.log
                                    && v.github.commits[c.phase.head].parent == c.phase.base
                                    && v.github.commits[c.phase.head].message == Message(c.args.title, c.args.identity, c.args.key))
            && (!c.phase.created ==> TrailerKey(v.github.commits[c.phase.head].message) == Some(c.args.key))
  {
    hide TrailerKey, ValidArgs, Run, Inv, HasRead, CommitBased;
    BasesAreRead(w, actions);
    if |w.calls| <= i { assert CallBased(w, actions, i); }
    CallOk(Run(w, actions), i);
  }

  /** When a call ends in success, its pull request is open. */
  lemma OpeningIsOpen(w: World, a: Action, i: nat)
    requires Inv(w) && i < |w.calls| && !w.calls[i].phase.Opened?
    ensures Readable(w)
    ensures var v := Step(w, a);
            i < |v.calls| && (v.calls[i].phase.Opened? ==>
              && v.calls[i].phase.number in v.github.pulls
              && v.github.pulls[v.calls[i].phase.number] == Pull(w.calls[i].args.branch, true))
  {
    hide TrailerKey, IsKey, Message, PhaseOk, EntryOk, OneRefPerBranch, ValidArgs;
    InvReadable(w);
  }

  /**
   A fault ends the call with the refusal's own code, or else as an upstream failure; only a missing branch
   and a rejected pull request do not.
  */
  lemma FaultsEnd(g: GitHub, args: Args, phase: Phase, f: Fault, newId: nat)
    requires MASTER in g.refs && ContribBranch(args.branch) && !phase.Opened? && !phase.Failed? && !f.Success?
    requires phase.ReadHead? ==> phase.head in g.commits
    requires !(phase.ReadBranch? && f == Refusal(Missing)) && !(phase.PostPull? && f.Unprocessable?)
    ensures Request(g, args, phase, f, newId).1 == Failed(match f case Refusal(code) => code case _ => Upstream)
  {
    hide HasOpenPull, TrailerKey, CommitOf;
  }

  lemma CallOk(v: World, i: nat)
    requires Inv(v) && i < |v.calls|
    ensures PhaseOk(v, i, v.calls[i].args, v.calls[i].phase)
  {
    hide PhaseOk, EntryOk;
  }

  /**
   Whatever was lost before, a same-key retry on an existing branch that is left alone and meets no
   fault succeeds, with the head that is there, as a replay.
  */
  lemma RetryCompletes(w: World, args: Args, number: nat)
    requires Inv(w) && ValidArgs(args) && args.branch in w.github.refs
    requires w.github.refs[args.branch] in w.github.commits
    requires TrailerKey(w.github.commits[w.github.refs[args.branch]].message) == Some(args.key)
    requires || (number in w.github.pulls && w.github.pulls[number] == Pull(args.branch, true))
             || (number !in w.github.pulls && NoneOpen(w.github, args.branch))
    ensures var n := |w.calls|;
            var send := Send(n, Success, number);
            var v := Run(w, [Start(args), send, send, send, send, send]);
            && n < |v.calls| && v.calls[n].args == args
            && v.calls[n].phase == Opened(w.github.refs[MASTER], w.github.refs[args.branch], false, number)
  {
    hide TrailerKey, ValidArgs, Inv, Step, HasOpenPull, Run, Enabled, Request, Readable;
    var n := |w.calls|;
    var send := Send(n, Success, number);
    ConsistentMaster(w);
    OpenOrNot(w.github, args.branch, number);
    var base, head := w.github.refs[MASTER], w.github.refs[args.branch];
    StartsReady(w, args);
    var w0 := Step(w, Start(args));
    var w1 := Advance(w0, n, args, ReadBase, number);
    var w2 := Advance(w1, n, args, ReadBranch(base), number);
    var w3 := Advance(w2, n, args, ReadHead(base, head), number);
    var w4 := Advance(w3, n, args, PostPull(base, head, false), number);
    var w5 := Advance(w4, n, args, w4.calls[n].phase, number);
    RunSix(w, Start(args), send);
  }

  lemma OpenOrNot(g: GitHub, branch: string, number: nat)
    ensures number in g.pulls && g.pulls[number] == Pull(branch, true) ==> HasOpenPull(g, branch)
    ensures NoneOpen(g, branch) <==> !HasOpenPull(g, branch)
  {
    if !NoneOpen(g, branch) {
      var n :| n in g.pulls && g.pulls[n].branch == branch && g.pulls[n].open;
      assert g.pulls[n] == Pull(branch, true);
    }
  }

  lemma RunSix(w: World, a: Action, b: Action)
    requires Inv(w)
    ensures Readable(w)
    ensures var v1 := Step(w, a); Inv(v1) && Readable(v1)
    ensures var v1 := Step(w, a);
            var v2 := Step(v1, b);
            && Readable(v2)
            && var v3 := Step(v2, b);
            && Readable(v3)
            && var v4 := Step(v3, b);
            && Readable(v4)
            && var v5 := Step(v4, b);
            && Readable(v5)
            && Run(w, [a, b, b, b, b, b]) == Step(v5, b)
  {
    hide Inv, Step, Run, Readable;
    RunOne(w, a);
    RunMore(w, [a], b);
    RunMore(w, [a, b], b);
    RunMore(w, [a, b, b], b);
    RunMore(w, [a, b, b, b], b);
    RunMore(w, [a, b, b, b, b], b);
    assert [a] + [b] == [a, b];
    assert [a, b] + [b] == [a, b, b];
    assert [a, b, b] + [b] == [a, b, b, b];
    assert [a, b, b, b] + [b] == [a, b, b, b, b];
    assert [a, b, b, b, b] + [b] == [a, b, b, b, b, b];
  }

  lemma StartsReady(w: World, args: Args)
    requires Inv(w) && ValidArgs(args)
    ensures Readable(w)
    ensures var v := Step(w, Start(args));
            Inv(v) && v.github == w.github && |v.calls| == |w.calls| + 1 && v.calls[|w.calls|] == Call(args, ReadBase)
  {
    hide Inv;
    InvStep(w, Start(args));
  }

  lemma RunOne(w: World, a: Action)
    requires Inv(w)
    ensures Readable(w) && Run(w, [a]) == Step(w, a)
  {
    hide Inv, Step;
    InvStep(w, a);
    assert [a][..0] == [];
  }

  lemma RunMore(w: World, actions: seq<Action>, a: Action)
    requires Inv(w)
    ensures Readable(Run(w, actions)) && Run(w, actions + [a]) == Step(Run(w, actions), a)
  {
    hide Inv, Step;
    InvStep(Run(w, actions), a);
    assert (actions + [a])[..|actions|] == actions;
  }

  /** One successful request of a retry whose branch is already there. */
  lemma Advance(w: World, n: nat, args: Args, phase: Phase, number: nat) returns (v: World)
    requires Inv(w) && n < |w.calls| && w.calls[n] == Call(args, phase)
    requires MASTER in w.github.refs && args.branch in w.github.refs
    requires w.github.refs[args.branch] in w.github.commits
    requires TrailerKey(w.github.commits[w.github.refs[args.branch]].message) == Some(args.key)
    requires phase.ReadHead? ==> phase.head == w.github.refs[args.branch]
    requires !(phase.PostCommit? || phase.PostRef? || phase.PostTree? || phase.ReadBaseTree?)
    requires if HasOpenPull(w.github, args.branch)
             then number in w.github.pulls && w.github.pulls[number] == Pull(args.branch, true)
             else phase.PostPull? ==> number !in w.github.pulls
    ensures Readable(w) && v == Step(w, Send(n, Success, number)) && Inv(v)
    ensures v.github.refs == w.github.refs && v.github.commits == w.github.commits
    ensures n < |v.calls| && v.calls[n] == Call(args,
      match phase
      case ReadBase => ReadBranch(w.github.refs[MASTER])
      case ReadBranch(base) => ReadHead(base, w.github.refs[args.branch])
      case ReadHead(base, head) => PostPull(base, head, false)
      case PostPull(base, head, created) =>
        if HasOpenPull(w.github, args.branch) then FindPull(base, head, created) else Opened(base, head, created, number)
      case FindPull(base, head, created) =>
        if HasOpenPull(w.github, args.branch) then Opened(base, head, created, number) else Failed(Upstream)
      case _ => phase)
    ensures !phase.PostPull? ==> v.github == w.github
    ensures phase.PostPull? ==> HasOpenPull(v.github, args.branch)
    ensures phase.PostPull? ==> number in v.github.pulls && v.github.pulls[number] == Pull(args.branch, true)
  {
    hide TrailerKey, ValidArgs, Inv;
    InvStep(w, Send(n, Success, number));
    v := Step(w, Send(n, Success, number));
    if phase.PostPull? && HasOpenPull(w.github, args.branch) {
      assert v.github == w.github;
    } else if phase.PostPull? {
      assert v.github.pulls[number] == Pull(args.branch, true);
    }
  }

  /** Every pull request of the branch, if there is one, is closed. */
  ghost predicate NoneOpen(g: GitHub, branch: string) {
    forall n :: n in g.pulls && g.pulls[n].branch == branch ==> !g.pulls[n].open
  }

  /** Nothing of a call's proposal is there; its ids are unused. Pull requests of an earlier branch may be, closed. */
  ghost predicate Untouched(w: World, args: Args, id: Sha, number: nat) {
    && Inv(w) && ValidArgs(args) && args.branch !in w.github.refs
    && id !in w.github.commits && number !in w.github.pulls && NoneOpen(w.github, args.branch)
  }

  /** The successful reads of a fresh call change nothing. */
  lemma ReadsOn(w: World, n: nat, args: Args, phase: Phase, id: Sha, number: nat) returns (v: World)
    requires Untouched(w, args, id, number) && n < |w.calls| && w.calls[n] == Call(args, phase)
    requires phase.ReadBase? || phase.ReadBaseTree? || phase.PostTree?
             || (phase.ReadBranch? && args.expectedBase in {None, Some(phase.base)})
    ensures Readable(w) && v == Step(w, Send(n, Success, id)) && Untouched(v, args, id, number)
    ensures MASTER in w.github.refs && v.github == w.github
    ensures n < |v.calls| && v.calls[n] == Call(args,
      match phase
      case ReadBase => ReadBranch(w.github.refs[MASTER])
      case ReadBranch(base) => ReadBaseTree(base)
      case ReadBaseTree(base) => PostTree(base)
      case PostTree(base) => PostCommit(base)
      case _ => phase)
  {
    hide TrailerKey, ValidArgs, Inv, HasOpenPull;
    ConsistentMaster(w);
    InvStep(w, Send(n, Success, id));
    v := Step(w, Send(n, Success, id));
  }

  /** Then commit, branch and pull request are made. */
  lemma Writes(w: World, n: nat, args: Args, base: Sha, id: Sha, number: nat) returns (v: World)
    requires Untouched(w, args, id, number) && n < |w.calls| && w.calls[n] == Call(args, PostCommit(base))
    ensures Readable(w)
    ensures var v1 := Step(w, Send(n, Success, id));
            && Inv(v1) && Readable(v1)
            && var v2 := Step(v1, Send(n, Success, id));
            && Inv(v2) && Readable(v2) && v == Step(v2, Send(n, Success, number))
    ensures n < |v.calls| && v.calls[n] == Call(args, Opened(base, id, true, number))
    ensures args.branch in v.github.refs && v.github.refs[args.branch] == id
    ensures id in v.github.commits && v.github.commits[id] == Commit(Message(args.title, args.identity, args.key), base)
    ensures number in v.github.pulls && v.github.pulls[number] == Pull(args.branch, true)
  {
    hide TrailerKey, ValidBranch, ValidTitle, Message, Inv, HasOpenPull;
    InvStep(w, Send(n, Success, id));
    var v1 := Step(w, Send(n, Success, id));
    assert v1.calls[n] == Call(args, PostRef(base, id));
    InvStep(v1, Send(n, Success, id));
    var v2 := Step(v1, Send(n, Success, id));
    assert v2.calls[n] == Call(args, PostPull(base, id, true));
    SamePulls(w.github, v2.github, args.branch);
    InvStep(v2, Send(n, Success, number));
    v := Step(v2, Send(n, Success, number));
  }

  lemma SamePulls(g: GitHub, h: GitHub, branch: string)
    requires g.pulls == h.pulls && NoneOpen(g, branch)
    ensures !HasOpenPull(g, branch) && !HasOpenPull(h, branch)
  {
  }

  /**
   A call on a new branch that meets no fault, and whose expected base, if it names one, is master's commit,
   opens a pull request for a branch whose one commit carries its message on top of master.
  */
  lemma FreshCompletes(w: World, args: Args, id: Sha, number: nat)
    requires Untouched(w, args, id, number) && MASTER in w.github.refs
    requires args.expectedBase in {None, Some(w.github.refs[MASTER])}
    ensures var n, base := |w.calls|, w.github.refs[MASTER];
            var send := Send(n, Success, id);
            var v := Run(w, [Start(args), send, send, send, send, send, send, Send(n, Success, number)]);
            && n < |v.calls| && v.calls[n] == Call(args, Opened(base, id, true, number))
            && args.branch in v.github.refs && v.github.refs[args.branch] == id
            && id in v.github.commits && v.github.commits[id] == Commit(Message(args.title, args.identity, args.key), base)
            && number in v.github.pulls && v.github.pulls[number] == Pull(args.branch, true)
  {
    hide TrailerKey, ValidArgs, Inv, Step, HasOpenPull, Run, Enabled, Request, Readable, Message;
    var n, base := |w.calls|, w.github.refs[MASTER];
    var send, last := Send(n, Success, id), Send(n, Success, number);
    StartsReady(w, args);
    var w0 := Step(w, Start(args));
    var w1 := ReadsOn(w0, n, args, ReadBase, id, number);
    var w2 := ReadsOn(w1, n, args, ReadBranch(base), id, number);
    var w3 := ReadsOn(w2, n, args, ReadBaseTree(base), id, number);
    var w4 := ReadsOn(w3, n, args, PostTree(base), id, number);
    var v := Writes(w4, n, args, base, id, number);
    RunSix(w, Start(args), send);
    RunMore(w, [Start(args), send, send, send, send, send], send);
    RunMore(w, [Start(args), send, send, send, send, send, send], last);
    assert [Start(args), send, send, send, send, send] + [send] == [Start(args), send, send, send, send, send, send];
    assert [Start(args), send, send, send, send, send, send] + [last] == [Start(args), send, send, send, send, send, send, last];
  }
}
