/**
 open_pr as a state machine over its GitHub requests. Any number of calls interleave between
 requests; every request can fail unapplied, be applied with its reply lost, or succeed. Replies to
 reads are taken to be truthful, and contrib refs to be created only by this service.
*/
module OpenPr {
  import opened Basics
  import opened Trailer

  const MASTER: string := "master"
  const BRANCH_PREFIX: string := "contrib/"

  type Sha = nat

  datatype Commit = Commit(message: string, parent: Sha)

  datatype Pull = Pull(branch: string, open: bool)

  /** The repository: refs under refs/heads, commit objects, and every pull request against master. */
  datatype GitHub = GitHub(refs: map<string, Sha>, commits: map<Sha, Commit>, pulls: map<nat, Pull>)

  /** The arguments of one call that the protocol depends on. */
  datatype Args = Args(branch: string, title: string, identity: string, key: string, expectedBase: Option<Sha>)

  datatype Code = BadArgs | CredentialUnavailable | Upstream | Missing | Conflict

  /** Where a call stands: which request it sends next, or how it ended. */
  datatype Phase =
    | ReadBase
    | ReadBranch(base: Sha)
    | ReadHead(base: Sha, head: Sha)
    | ReadBaseTree(base: Sha)
    | PostTree(base: Sha)
    | PostCommit(base: Sha)
    | PostRef(base: Sha, commit: Sha)
    | PostPull(base: Sha, head: Sha, created: bool)
    | FindPull(base: Sha, head: Sha, created: bool)
    | Opened(base: Sha, head: Sha, created: bool, number: nat)
    | Failed(code: Code)

  datatype Call = Call(args: Args, phase: Phase)

  /** A request that changed GitHub, by the call that sent it. */
  datatype Change = MadeTree | MadeCommit(id: Sha) | MadeRef(branch: string, id: Sha) | MadePull(number: nat)

  datatype Entry = Entry(call: nat, change: Change)

  datatype World = World(github: GitHub, calls: seq<Call>, log: seq<Entry>)

  /** What happens to one request: it succeeds, its reply is lost, or an error status comes back. */
  datatype Fault = Success | Lost(applied: bool) | Refusal(code: Code) | Unprocessable

  /** `newId` is the id that GitHub's reply carries. */
  datatype Action =
    | Start(args: Args)
    | Send(call: nat, fault: Fault, newId: nat)
    | PushMaster(sha: Sha, commit: Commit)
    | ClosePull(number: nat)

  predicate ContribBranch(b: string) { BRANCH_PREFIX <= b }

  predicate IsBranchChar(c: char) { 'a' <= c <= 'z' || '0' <= c <= '9' || c == '.' || c == '_' || c == '-' }

  /** _validate_branch: the allowlist pattern and the git ref rules on top of it. */
  predicate ValidBranch(b: string) {
    && ContribBranch(b) && 1 <= |b| - |BRANCH_PREFIX| <= 81
    && (forall i :: |BRANCH_PREFIX| <= i < |b| ==> IsBranchChar(b[i]))
    && b[|BRANCH_PREFIX|] !in {'.', '_', '-'}
    && !(exists i | 0 <= i < |b| - 1 :: b[i] == '.' && b[i + 1] == '.')
    && b[|b| - 5..] != ".lock" && b[|b| - 1] != '.'
  }

  /**
   "contrib/", a lower-case letter or digit, and at most 80 more such or ".", "_", "-"; no two dots in a row,
   and neither ".lock" nor a dot at the end.
  */
  lemma BranchMeans(b: string)
    ensures ValidBranch(b) <==>
              && 9 <= |b| <= 89 && b[..8] == "contrib/" && ('a' <= b[8] <= 'z' || '0' <= b[8] <= '9')
              && (forall i :: 9 <= i < |b| ==> 'a' <= b[i] <= 'z' || '0' <= b[i] <= '9' || b[i] in {'.', '_', '-'})
              && (forall i :: 8 <= i < |b| - 1 && b[i] == '.' ==> b[i + 1] != '.')
              && b[|b| - 1] != '.' && b[|b| - 5..] != ".lock"
  {
    assert |BRANCH_PREFIX| == 8 && BRANCH_PREFIX == "contrib/";
    if 8 <= |b| && b[..8] == "contrib/" {
      assert forall i :: 0 <= i < 8 ==> b[i] == b[..8][i] && b[i] != '.';
    }
  }

  /** What is validated of these arguments before the first request. */
  predicate ValidArgs(a: Args): (valid: bool)
    ensures valid ==> ContribBranch(a.branch) && '\n' !in a.title
  {
    ValidBranch(a.branch) && IsKey(a.key) && ValidTitle(a.title) && (TitleIsOneLine(a.title); true)
  }

  predicate HasOpenPull(g: GitHub, branch: string) {
    exists n :: n in g.pulls && g.pulls[n] == Pull(branch, true)
  }

  predicate Applied(f: Fault) { f.Success? || (f.Lost? && f.applied) }

  function FaultCode(f: Fault): Code {
    if f.Refusal? then f.code else Upstream
  }

  /** An object id is unused or names an identical object. */
  predicate CanName(g: GitHub, id: Sha, c: Commit) { id in g.commits ==> g.commits[id] == c }

  function CommitOf(a: Args, base: Sha): Commit { Commit(Message(a.title, a.identity, a.key), base) }

  /** Actions that can happen: ids that GitHub can assign, and no false "not found" for a branch. */
  predicate Enabled(w: World, a: Action) {
    match a
    case Start(_) => true
    case PushMaster(sha, commit) => CanName(w.github, sha, commit)
    case ClosePull(n) => n in w.github.pulls
    case Send(i, fault, newId) =>
      && i < |w.calls|
      && var args, phase := w.calls[i].args, w.calls[i].phase;
         match phase
         case ReadBranch(_) => fault == Refusal(Missing) ==> args.branch !in w.github.refs
         case PostCommit(base) => Applied(fault) ==> CanName(w.github, newId, CommitOf(args, base))
         case PostPull(_, _, _) =>
           Applied(fault) ==> HasOpenPull(w.github, args.branch) || newId !in w.github.pulls
         case FindPull(_, _, _) =>
           fault.Success? && HasOpenPull(w.github, args.branch) ==>
             newId in w.github.pulls && w.github.pulls[newId] == Pull(args.branch, true)
         case _ => true
  }

  /** The next phase of a call whose request gets no useful reply. */
  function Fail(f: Fault): Phase { Failed(FaultCode(f)) }

  /** Effect of one request: the new repository, the call's next phase, and what it changed. */
  function Request(g: GitHub, args: Args, phase: Phase, f: Fault, newId: nat): (GitHub, Phase, Option<Change>)
    requires MASTER in g.refs
    requires phase.ReadHead? ==> phase.head in g.commits
  {
    match phase
    case ReadBase =>
      (g, if f.Success? then ReadBranch(g.refs[MASTER]) else Fail(f), None)
    case ReadBranch(base) =>
      (g,
       if f.Success? && args.branch in g.refs then ReadHead(base, g.refs[args.branch])
       else if f.Success? || f == Refusal(Missing) then
         if args.expectedBase.Some? && args.expectedBase.value != base then Failed(Conflict) else ReadBaseTree(base)
       else Fail(f),
       None)
    case ReadHead(base, head) =>
      (g,
       if !f.Success? then Fail(f)
       else if TrailerKey(g.commits[head].message) == Some(args.key) then PostPull(base, head, false)
       else Failed(Conflict),
       None)
    case ReadBaseTree(base) =>
      (g, if f.Success? then PostTree(base) else Fail(f), None)
    case PostTree(base) =>
      (g, if f.Success? then PostCommit(base) else Fail(f), if Applied(f) then Some(MadeTree) else None)
    case PostCommit(base) =>
      if Applied(f) then
        (g.(commits := g.commits[newId := CommitOf(args, base)]),
         if f.Success? then PostRef(base, newId) else Fail(f), Some(MadeCommit(newId)))
      else (g, Fail(f), None)
    case PostRef(base, commit) =>
      if !ContribBranch(args.branch) then (g, Failed(BadArgs), None)
      else if args.branch in g.refs then (g, if f.Success? then Failed(Upstream) else Fail(f), None)
      else if Applied(f) then
        (g.(refs := g.refs[args.branch := commit]),
         if f.Success? then PostPull(base, commit, true) else Fail(f), Some(MadeRef(args.branch, commit)))
      else (g, Fail(f), None)
    case PostPull(base, head, created) =>
      if f.Unprocessable? || (f.Success? && HasOpenPull(g, args.branch)) then (g, FindPull(base, head, created), None)
      else if Applied(f) && !HasOpenPull(g, args.branch) then
        (g.(pulls := g.pulls[newId := Pull(args.branch, true)]),
         if f.Success? then Opened(base, head, created, newId) else Fail(f), Some(MadePull(newId)))
      else (g, Fail(f), None)
    case FindPull(base, head, created) =>
      (g,
       if !f.Success? then Fail(f)
       else if HasOpenPull(g, args.branch) then Opened(base, head, created, newId)
       else Failed(Upstream),
       None)
    case Opened(_, _, _, _) => (g, phase, None)
    case Failed(_) => (g, phase, None)
  }

  /** master exists and every ref names a commit object. */
  predicate Consistent(g: GitHub) {
    MASTER in g.refs && forall b :: b in g.refs ==> g.refs[b] in g.commits
  }

  /** A call that has read a head has read one that exists. */
  predicate Readable(w: World) {
    Consistent(w.github) &&
    forall i :: 0 <= i < |w.calls| && w.calls[i].phase.ReadHead? ==> w.calls[i].phase.head in w.github.commits
  }

  function Step(w: World, a: Action): World
    requires Readable(w)
  {
    if !Enabled(w, a) then w
    else match a
      case Start(args) =>
        w.(calls := w.calls + [Call(args, if ValidArgs(args) then ReadBase else Failed(BadArgs))])
      case PushMaster(sha, commit) =>
        w.(github := w.github.(refs := w.github.refs[MASTER := sha], commits := w.github.commits[sha := commit]))
      case ClosePull(n) =>
        w.(github := w.github.(pulls := w.github.pulls[n := w.github.pulls[n].(open := false)]))
      case Send(i, fault, newId) =>
        var (g, phase, change) := Request(w.github, w.calls[i].args, w.calls[i].phase, fault, newId);
        World(g, w.calls[i := w.calls[i].(phase := phase)],
              w.log + if change.Some? then [Entry(i, change.value)] else [])
  }

  // What every step keeps

  /** Commit objects, contrib refs, the arguments of calls, pull request heads and the log only grow. */
  ghost predicate Extends(w: World, v: World) {
    && (forall c :: c in w.github.commits ==> c in v.github.commits && v.github.commits[c] == w.github.commits[c])
    && (forall b :: b in w.github.refs && b != MASTER ==> b in v.github.refs && v.github.refs[b] == w.github.refs[b])
    && (forall n :: n in w.github.pulls ==> n in v.github.pulls && v.github.pulls[n].branch == w.github.pulls[n].branch)
    && |w.calls| <= |v.calls| && (forall i :: 0 <= i < |w.calls| ==> v.calls[i].args == w.calls[i].args)
    && w.log <= v.log
  }

  lemma ContribIsNotMaster(b: string)
    requires ContribBranch(b)
    ensures b != MASTER
  {
    assert b[0] == BRANCH_PREFIX[0];
  }

  /** One request only adds commit objects, pull requests, and the caller's own contrib ref. */
  lemma RequestGrows(g: GitHub, args: Args, phase: Phase, f: Fault, newId: nat)
    requires Consistent(g) && (phase.ReadHead? ==> phase.head in g.commits) && (phase.PostRef? ==> phase.commit in g.commits)
    requires phase.PostCommit? && Applied(f) ==> CanName(g, newId, CommitOf(args, phase.base))
    requires phase.PostPull? && Applied(f) ==> HasOpenPull(g, args.branch) || newId !in g.pulls
    ensures var h := Request(g, args, phase, f, newId).0;
            && Consistent(h)
            && h.refs[MASTER] == g.refs[MASTER]
            && (forall c :: c in g.commits ==> c in h.commits && h.commits[c] == g.commits[c])
            && (forall b :: b in g.refs ==> b in h.refs && h.refs[b] == g.refs[b])
            && (forall b :: b in h.refs && b !in g.refs ==> b == args.branch && ContribBranch(b))
            && (forall n :: n in g.pulls ==> n in h.pulls && h.pulls[n] == g.pulls[n])
  {
    hide CommitOf, HasOpenPull, TrailerKey;
    if ContribBranch(args.branch) { ContribIsNotMaster(args.branch); }
  }

  /** What is known of a call in each phase. */
  ghost predicate PhaseOk(w: World, i: nat, args: Args, phase: Phase) {
    match phase
    case Failed(_) => true
    case ReadBranch(base) => ValidArgs(args) && base in w.github.commits
    case ReadBaseTree(base) => ValidArgs(args) && base in w.github.commits && OnBase(args, base)
    case PostTree(base) => ValidArgs(args) && OnBase(args, base)
    case PostCommit(base) => ValidArgs(args) && OnBase(args, base)
    case ReadHead(_, head) => ValidArgs(args) && HeadIs(w, args, head)
    case PostRef(base, commit) => ValidArgs(args) && Entry(i, MadeCommit(commit)) in w.log && Proposes(w, args, base, commit)
    case PostPull(base, head, created) => ValidArgs(args) && Branched(w, i, args, base, head, created)
    case FindPull(base, head, created) => ValidArgs(args) && Branched(w, i, args, base, head, created)
    case Opened(base, head, created, n) =>
      && ValidArgs(args) && Branched(w, i, args, base, head, created)
      && n in w.github.pulls && w.github.pulls[n].branch == args.branch
    case _ => ValidArgs(args)
  }

  /** The base that the caller expected, if it named one. */
  predicate OnBase(args: Args, base: Sha) { args.expectedBase.Some? ==> args.expectedBase.value == base }

  ghost predicate HeadIs(w: World, args: Args, head: Sha) {
    args.branch in w.github.refs && w.github.refs[args.branch] == head && head in w.github.commits
  }

  /** The commit has the parent `base` and a message with the call's title, identity and key. */
  ghost predicate Proposes(w: World, args: Args, base: Sha, id: Sha) {
    && id in w.github.commits && w.github.commits[id].parent == base
    && w.github.commits[id].message == Message(args.title, args.identity, args.key)
  }

  /** The branch holds `head`: made by this call on `base`, or found there under this call's key. */
  ghost predicate Branched(w: World, i: nat, args: Args, base: Sha, head: Sha, created: bool) {
    && HeadIs(w, args, head)
    && (if created then Entry(i, MadeRef(args.branch, head)) in w.log && Proposes(w, args, base, head)
        else TrailerKey(w.github.commits[head].message) == Some(args.key))
  }

  /** What is known of a logged change. */
  ghost predicate EntryOk(w: World, e: Entry) {
    && e.call < |w.calls|
    && var args := w.calls[e.call].args;
       match e.change
       case MadeCommit(id) =>
         && id in w.github.commits && w.github.commits[id].message == Message(args.title, args.identity, args.key)
         && OnBase(args, w.github.commits[id].parent)
       case MadeRef(branch, id) =>
         && branch == args.branch && ValidArgs(args) && HeadIs(w, args, id)
         && Entry(e.call, MadeCommit(id)) in w.log
       case _ => true
  }

  ghost predicate OneRefPerBranch(log: seq<Entry>) {
    forall k, l :: 0 <= k < l < |log| && log[k].change.MadeRef? && log[l].change.MadeRef? ==>
      log[k].change.branch != log[l].change.branch
  }

  ghost predicate Inv(w: World) {
    && Consistent(w.github)
    && (forall i :: 0 <= i < |w.calls| ==> PhaseOk(w, i, w.calls[i].args, w.calls[i].phase))
    && (forall k :: 0 <= k < |w.log| ==> EntryOk(w, w.log[k]))
    && OneRefPerBranch(w.log)
  }

  lemma InvReadable(w: World)
    requires Inv(w)
    ensures Readable(w)
  {
    hide TrailerKey, ValidArgs;
    forall i | 0 <= i < |w.calls| && w.calls[i].phase.ReadHead?
      ensures w.calls[i].phase.head in w.github.commits
    {
      assert PhaseOk(w, i, w.calls[i].args, w.calls[i].phase);
    }
  }

  lemma PhaseStable(w: World, v: World, i: nat, args: Args, phase: Phase)
    requires PhaseOk(w, i, args, phase) && Extends(w, v)
    ensures PhaseOk(v, i, args, phase)
  {
    hide TrailerKey, IsKey, Message;
    if ValidArgs(args) { ContribIsNotMaster(args.branch); }
  }

  lemma EntryStable(w: World, v: World, e: Entry)
    requires EntryOk(w, e) && Extends(w, v)
    ensures EntryOk(v, e)
  {
    hide TrailerKey, IsKey, Message;
    if ValidArgs(w.calls[e.call].args) { ContribIsNotMaster(w.calls[e.call].args.branch); }
  }

  lemma SendExtends(w: World, i: nat, f: Fault, newId: nat)
    requires Inv(w) && i < |w.calls| && Enabled(w, Send(i, f, newId))
    ensures Readable(w)
    ensures var v := Step(w, Send(i, f, newId)); Extends(w, v) && Consistent(v.github)
  {
    hide TrailerKey, IsKey, Message, Request;
    InvReadable(w);
    var c := w.calls[i];
    assert PhaseOk(w, i, c.args, c.phase);
    RequestGrows(w.github, c.args, c.phase, f, newId);
  }

  /** `v` is `w` after one request of call `i`. */
  ghost predicate Requested(w: World, v: World, i: nat, args: Args, phase: Phase, f: Fault, newId: nat) {
    && Consistent(w.github) && PhaseOk(w, i, args, phase) && Extends(w, v) && Consistent(v.github)
    && (phase.ReadHead? ==> phase.head in w.github.commits)
    && (phase.FindPull? && f.Success? && HasOpenPull(w.github, args.branch) ==>
          newId in w.github.pulls && w.github.pulls[newId] == Pull(args.branch, true))
    && var (g, _, change) := Request(w.github, args, phase, f, newId);
       v.github == g && (change.Some? ==> Entry(i, change.value) in v.log)
  }

  lemma PullPhaseAfter(w: World, v: World, i: nat, args: Args, phase: Phase, f: Fault, newId: nat)
    requires Requested(w, v, i, args, phase, f, newId)
    requires phase.PostPull? || phase.FindPull? || phase.Opened?
    ensures PhaseOk(v, i, args, Request(w.github, args, phase, f, newId).1)
  {
    hide TrailerKey, ValidArgs, Message, HasOpenPull, Extends, Consistent, HeadIs, Branched;
    PhaseStable(w, v, i, args, phase);
  }

  lemma PhaseAfter(w: World, v: World, i: nat, args: Args, phase: Phase, f: Fault, newId: nat)
    requires Requested(w, v, i, args, phase, f, newId)
    requires !phase.PostPull? && !phase.FindPull? && !phase.Opened?
    ensures PhaseOk(v, i, args, Request(w.github, args, phase, f, newId).1)
  {
    hide TrailerKey, ValidArgs, Message, HasOpenPull, Extends;
    PhaseStable(w, v, i, args, phase);
  }

  /** The sending call's next phase is accounted for. */
  lemma NextPhaseOk(w: World, i: nat, f: Fault, newId: nat)
    requires Inv(w) && i < |w.calls| && Enabled(w, Send(i, f, newId))
    ensures Readable(w)
    ensures var v := Step(w, Send(i, f, newId)); PhaseOk(v, i, w.calls[i].args, v.calls[i].phase)
  {
    hide TrailerKey, IsKey, Message, OneRefPerBranch, EntryOk, PhaseOk, Request, Extends;
    SendExtends(w, i, f, newId);
    var c := w.calls[i];
    assert PhaseOk(w, i, c.args, c.phase);
    RequestLogged(w, i, f, newId);
    if c.phase.PostPull? || c.phase.FindPull? || c.phase.Opened? {
      PullPhaseAfter(w, Step(w, Send(i, f, newId)), i, c.args, c.phase, f, newId);
    } else {
      PhaseAfter(w, Step(w, Send(i, f, newId)), i, c.args, c.phase, f, newId);
    }
  }

  /** What the sending call logs is accounted for, and it never creates a branch that exists. */
  lemma LoggedOk(w: World, i: nat, f: Fault, newId: nat)
    requires Inv(w) && i < |w.calls| && Enabled(w, Send(i, f, newId))
    ensures Readable(w)
    ensures var v, c := Step(w, Send(i, f, newId)), w.calls[i];
            var change := Request(w.github, c.args, c.phase, f, newId).2;
            change.Some? ==>
              && EntryOk(v, Entry(i, change.value))
              && (change.value.MadeRef? ==> change.value.branch !in w.github.refs)
  {
    hide TrailerKey, ValidArgs, Message, OneRefPerBranch, HasOpenPull;
    SendExtends(w, i, f, newId);
    var c := w.calls[i];
    assert PhaseOk(w, i, c.args, c.phase);
    RequestLogged(w, i, f, newId);
    var v := Step(w, Send(i, f, newId));
    assert v.calls[i].args == c.args;
  }

  lemma RequestLogged(w: World, i: nat, f: Fault, newId: nat)
    requires Readable(w) && i < |w.calls| && Enabled(w, Send(i, f, newId))
    ensures var v, c := Step(w, Send(i, f, newId)), w.calls[i];
            var change := Request(w.github, c.args, c.phase, f, newId).2;
            change.Some? ==> Entry(i, change.value) in v.log
  {
    hide Request;
    var c := w.calls[i];
    var change := Request(w.github, c.args, c.phase, f, newId).2;
    var v := Step(w, Send(i, f, newId));
    if change.Some? { assert v.log[|w.log|] == Entry(i, change.value); }
  }

  lemma InvStep(w: World, a: Action)
    requires Inv(w)
    ensures Readable(w) && Inv(Step(w, a)) && Extends(w, Step(w, a))
  {
    hide TrailerKey, IsKey, Message, PhaseOk, EntryOk, Request, Enabled;
    InvReadable(w);
    var v := Step(w, a);
    if Enabled(w, a) {
      if a.Send? {
        SendIsBounded(w, a);
        SendExtends(w, a.call, a.fault, a.newId);
        NextPhaseOk(w, a.call, a.fault, a.newId);
        LoggedOk(w, a.call, a.fault, a.newId);
      } else {
        OtherStep(w, a);
      }
      forall i | 0 <= i < |v.calls| ensures PhaseOk(v, i, v.calls[i].args, v.calls[i].phase) {
        if i < |w.calls| && !(a.Send? && a.call == i) {
          PhaseStable(w, v, i, w.calls[i].args, w.calls[i].phase);
        } else if a.Start? {
          FreshCall(v, i, a.args);
        }
      }
      forall k | 0 <= k < |v.log| ensures EntryOk(v, v.log[k]) {
        if k < |w.log| { EntryStable(w, v, w.log[k]); }
      }
      LogStep(w, a);
    }
  }

  lemma SendIsBounded(w: World, a: Action)
    requires a.Send? && Enabled(w, a)
    ensures a.call < |w.calls|
  {
  }

  lemma FreshCall(v: World, i: nat, args: Args)
    ensures PhaseOk(v, i, args, if ValidArgs(args) then ReadBase else Failed(BadArgs))
  {
  }

  lemma OtherStep(w: World, a: Action)
    requires Inv(w) && Readable(w) && Enabled(w, a) && !a.Send?
    ensures Extends(w, Step(w, a)) && Consistent(Step(w, a).github)
  {
    hide PhaseOk, EntryOk, Request, OneRefPerBranch;
  }

  /** A branch that already exists is never created again. */
  lemma LogStep(w: World, a: Action)
    requires Inv(w) && Readable(w) && Enabled(w, a)
    ensures OneRefPerBranch(Step(w, a).log)
  {
    hide TrailerKey, IsKey, Message, PhaseOk, Request, Enabled;
    var v := Step(w, a);
    if a.Send? {
      SendIsBounded(w, a);
      LoggedOk(w, a.call, a.fault, a.newId);
      forall k | 0 <= k < |w.log| && w.log[k].change.MadeRef?
        ensures w.log[k].change.branch in w.github.refs
      {
        assert EntryOk(w, w.log[k]);
      }
    }
  }
}
