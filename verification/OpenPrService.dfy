/** GitHub's side of one request, and open_pr in the order the service runs it, as a run of the state machine. */
module OpenPrService {
  import opened Basics
  import opened Trailer
  import opened OpenPr
  import opened OpenPrRuns

  datatype HttpRequest =
    | GetRef(branch: string)
    | GetCommit(sha: Sha)
    | CreateTree
    | CreateCommit(commit: Commit)
    | CreateRef(ref: string, target: Sha)
    | CreatePull(head: string)
    | ListOpenPulls(of: string)

  datatype Reply = RefAt(sha: Sha) | CommitMessage(message: string) | MadeId(id: nat) | Rejected | OpenPulls(first: Option<nat>)

  /** What GitHub does with a request and what the session makes of the reply. */
  function Serve(g: GitHub, q: HttpRequest, f: Fault, newId: nat): (GitHub, Result<Reply, Code>) {
    match q
    case GetRef(b) =>
      (g, if !f.Success? then Err(FaultCode(f)) else if b in g.refs then Ok(RefAt(g.refs[b])) else Err(Missing))
    case GetCommit(c) =>
      (g,
       if !f.Success? then Err(FaultCode(f))
       else if c in g.commits then Ok(CommitMessage(g.commits[c].message))
       else Err(Missing))
    case CreateTree =>
      (g, if f.Success? then Ok(MadeId(newId)) else Err(FaultCode(f)))
    case CreateCommit(c) =>
      (if Applied(f) then g.(commits := g.commits[newId := c]) else g,
       if f.Success? then Ok(MadeId(newId)) else Err(FaultCode(f)))
    case CreateRef(b, id) =>
      (if Applied(f) && b !in g.refs then g.(refs := g.refs[b := id]) else g,
       if !f.Success? then Err(FaultCode(f)) else if b in g.refs then Err(Upstream) else Ok(MadeId(id)))
    case CreatePull(b) =>
      (if Applied(f) && !HasOpenPull(g, b) then g.(pulls := g.pulls[newId := Pull(b, true)]) else g,
       if f.Unprocessable? || (f.Success? && HasOpenPull(g, b)) then Ok(Rejected)
       else if f.Success? then Ok(MadeId(newId))
       else Err(FaultCode(f)))
    case ListOpenPulls(b) =>
      (g, if f.Success? then Ok(OpenPulls(if HasOpenPull(g, b) then Some(newId) else None)) else Err(FaultCode(f)))
  }

  /** The request a call sends in each phase. */
  function RequestOf(args: Args, phase: Phase): HttpRequest
    requires !phase.Opened? && !phase.Failed?
  {
    match phase
    case ReadBase => GetRef(MASTER)
    case ReadBranch(_) => GetRef(args.branch)
    case ReadHead(_, head) => GetCommit(head)
    case ReadBaseTree(base) => GetCommit(base)
    case PostTree(_) => CreateTree
    case PostCommit(base) => CreateCommit(CommitOf(args, base))
    case PostRef(_, commit) => CreateRef(args.branch, commit)
    case PostPull(_, _, _) => CreatePull(args.branch)
    case FindPull(_, _, _) => ListOpenPulls(args.branch)
  }

  /** How the service goes on from a reply to its request. */
  ghost predicate Decides(args: Args, phase: Phase, reply: Result<Reply, Code>, next: Phase)
    requires !phase.Opened? && !phase.Failed?
  {
    if reply.Err? then
      if phase.ReadBranch? && reply.error == Missing then
        next == if args.expectedBase.Some? && args.expectedBase.value != phase.base
                then Failed(Conflict) else ReadBaseTree(phase.base)
      else next == Failed(reply.error)
    else
      match phase
      case ReadBase => reply.value.RefAt? && next == ReadBranch(reply.value.sha)
      case ReadBranch(base) => reply.value.RefAt? && next == ReadHead(base, reply.value.sha)
      case ReadHead(base, head) =>
        && reply.value.CommitMessage?
        && next == (if TrailerKey(reply.value.message) == Some(args.key)
                    then PostPull(base, head, false) else Failed(Conflict))
      case ReadBaseTree(base) => reply.value.CommitMessage? && next == PostTree(base)
      case PostTree(base) => reply.value.MadeId? && next == PostCommit(base)
      case PostCommit(base) => reply.value.MadeId? && next == PostRef(base, reply.value.id)
      case PostRef(base, commit) => reply.value.MadeId? && next == PostPull(base, commit, true)
      case PostPull(base, head, created) =>
        || (reply.value.Rejected? && next == FindPull(base, head, created))
        || (reply.value.MadeId? && next == Opened(base, head, created, reply.value.id))
      case FindPull(base, head, created) =>
        && reply.value.OpenPulls?
        && next == (if reply.value.first.Some? then Opened(base, head, created, reply.value.first.value)
                    else Failed(Upstream))
  }

  /** A step of the machine is GitHub serving the phase's request, and the reply decides the next phase. */
  lemma RequestIsServed(g: GitHub, args: Args, phase: Phase, f: Fault, newId: nat)
    requires MASTER in g.refs && !phase.Opened? && !phase.Failed? && ContribBranch(args.branch)
    requires phase.ReadHead? ==> phase.head in g.commits
    requires phase.ReadBaseTree? ==> phase.base in g.commits
    ensures var (served, reply) := Serve(g, RequestOf(args, phase), f, newId);
            var (stepped, next, _) := Request(g, args, phase, f, newId);
            served == stepped && Decides(args, phase, reply, next)
  {
    hide TrailerKey, HasOpenPull, CommitOf;
  }

  /** What the rest of the world does before a request, and what happens to the request. */
  datatype Turn = Turn(others: seq<Action>, fault: Fault, newId: nat)

  predicate Foreigners(others: seq<Action>, i: nat) {
    forall k :: 0 <= k < |others| && others[k].Send? ==> others[k].call != i
  }

  /** The others never move this call. */
  lemma {:induction false} OthersKeepCall(w: World, others: seq<Action>, i: nat)
    requires Inv(w) && i < |w.calls| && Foreigners(others, i)
    ensures i < |Run(w, others).calls| && Run(w, others).calls[i] == w.calls[i]
    decreases |others|
  {
    hide Inv, Request, Enabled;
    if others != [] {
      OthersKeepCall(w, others[..|others| - 1], i);
      InvStep(Run(w, others[..|others| - 1]), others[|others| - 1]);
    }
  }

  lemma {:induction false} RunConcat(w: World, a: seq<Action>, b: seq<Action>)
    requires Inv(w)
    ensures Run(w, a + b) == Run(Run(w, a), b)
    decreases |b|
  {
    hide Inv, Step;
    if b == [] {
      assert a + b == a;
    } else {
      RunConcat(w, a, b[..|b| - 1]);
      assert (a + b)[..|a + b| - 1] == a + b[..|b| - 1];
    }
  }

  datatype OpenedPr = OpenedPr(base: Sha, head: Sha, created: bool, number: nat)

  /** The end of a call, as the caller sees it. */
  ghost predicate Reports(r: Result<OpenedPr, Code>, phase: Phase) {
    match r
    case Ok(pr) => phase == Opened(pr.base, pr.head, pr.created, pr.number)
    case Err(code) => phase == Failed(code)
  }

  /** One call of open_pr; `turns` scripts the rest of the world, and a turn that cannot happen is a lost request. */
  class OpenPrCall {
    const args: Args
    const call: nat
    var turns: seq<Turn>
    var world: World
    ghost const origin: World
    ghost var history: seq<Action>

    ghost predicate Valid()
      reads this
    {
      && Inv(origin) && call == |origin.calls|
      && (forall k :: 0 <= k < |turns| ==> Foreigners(turns[k].others, call))
      && world == Run(origin, [Start(args)] + history)
      && call < |world.calls| && world.calls[call].args == args
    }

    ghost function Phase(): OpenPr.Phase
      reads this
      requires Valid()
    {
      world.calls[call].phase
    }

    constructor (world: World, args: Args, turns: seq<Turn>)
      requires Inv(world) && forall k :: 0 <= k < |turns| ==> Foreigners(turns[k].others, |world.calls|)
      ensures Valid() && Phase() == if ValidArgs(args) then ReadBase else Failed(BadArgs)
      ensures this.args == args && this.origin == world && history == []
    {
      RunOne(world, Start(args));
      InvStep(world, Start(args));
      assert [Start(args)] + [] == [Start(args)];
      this.args, this.turns, call := args, turns, |world.calls|;
      this.world := Step(world, Start(args));
      this.origin, history := world, [];
    }

    /** Sends the request that this phase calls for, after whatever the others do first. */
    method Exchange(q: HttpRequest) returns (r: Result<Reply, Code>)
      requires Valid() && !Phase().Opened? && !Phase().Failed? && q == RequestOf(args, Phase())
      modifies this
      ensures Valid() && old(history) <= history
      ensures Decides(args, old(Phase()), r, Phase())
    {
      hide Inv, Step, Run, Extends, Request, Enabled, Serve, Decides, RequestOf, Readable;
      var turn := Turn([], Lost(false), 0);
      if turns != [] { turn, turns := turns[0], turns[1..]; }
      var w := Run(world, turn.others);
      OthersKeepCall(world, turn.others, call);
      var send := Send(call, turn.fault, turn.newId);
      if !Enabled(w, send) { send := Send(call, Lost(false), 0); }
      LostIsEnabled(w, call);
      Served(w, call, send.fault, send.newId);
      r := Serve(w.github, q, send.fault, send.newId).1;
      RunConcat(origin, [Start(args)] + history, turn.others);
      RunMore(origin, [Start(args)] + history + turn.others, send);
      InvStep(w, send);
      assert [Start(args)] + history + turn.others + [send] == [Start(args)] + (history + turn.others + [send]);
      history := history + turn.others + [send];
      world := Step(w, send);
    }

    method BaseCommit() returns (r: Result<Sha, Code>)
      requires Valid() && Phase() == ReadBase
      modifies this
      ensures Valid() && old(history) <= history
      ensures Phase() == if r.Ok? then ReadBranch(r.value) else Failed(r.error)
    {
      var reply := Exchange(GetRef(MASTER));
      r := if reply.Ok? then Ok(reply.value.sha) else Err(reply.error);
    }

    /** A missing branch is not an error. */
    method ExistingBranchHead(ghost base: Sha) returns (r: Result<Option<Sha>, Code>)
      requires Valid() && Phase() == ReadBranch(base)
      modifies this
      ensures Valid() && old(history) <= history
      ensures Phase() == if r.Err? then Failed(r.error)
                         else if r.value.Some? then ReadHead(base, r.value.value)
                         else if args.expectedBase.Some? && args.expectedBase.value != base then Failed(Conflict)
                         else ReadBaseTree(base)
    {
      var reply := Exchange(GetRef(args.branch));
      if reply.Err? {
        return if reply.error == Missing then Ok(None) else Err(reply.error);
      }
      r := Ok(Some(reply.value.sha));
    }

    method HeadIdempotencyKey(ghost base: Sha, head: Sha) returns (r: Result<Option<string>, Code>)
      requires Valid() && Phase() == ReadHead(base, head)
      modifies this
      ensures Valid() && old(history) <= history
      ensures Phase() == if r.Err? then Failed(r.error)
                         else if r.value == Some(args.key) then PostPull(base, head, false)
                         else Failed(Conflict)
    {
      hide TrailerKey;
      var reply := Exchange(GetCommit(head));
      r := if reply.Ok? then Ok(TrailerKey(reply.value.message)) else Err(reply.error);
    }

    /** Reads the base tree, then writes a tree and a commit; the first failure ends it. */
    method CreateCommit(base: Sha) returns (r: Result<Sha, Code>)
      requires Valid() && Phase() == ReadBaseTree(base)
      modifies this
      ensures Valid() && old(history) <= history
      ensures Phase() == if r.Ok? then PostRef(base, r.value) else Failed(r.error)
    {
      hide CommitOf, TrailerKey, Run, Inv;
      var reply := Exchange(GetCommit(base));
      if reply.Err? { return Err(reply.error); }
      reply := Exchange(HttpRequest.CreateTree);
      if reply.Err? { return Err(reply.error); }
      reply := Exchange(HttpRequest.CreateCommit(CommitOf(args, base)));
      r := if reply.Ok? then Ok(reply.value.id) else Err(reply.error);
    }

    method CreateBranch(ghost base: Sha, commit: Sha) returns (error: Option<Code>)
      requires Valid() && Phase() == PostRef(base, commit)
      modifies this
      ensures Valid() && old(history) <= history
      ensures Phase() == if error.Some? then Failed(error.value) else PostPull(base, commit, true)
    {
      var reply := Exchange(CreateRef(args.branch, commit));
      error := if reply.Err? then Some(reply.error) else None;
    }

    /** Opens the pull request, or finds the open one that GitHub's rejection points to. */
    method CreatePullRequest(ghost base: Sha, ghost head: Sha, ghost created: bool) returns (r: Result<nat, Code>)
      requires Valid() && Phase() == PostPull(base, head, created)
      modifies this
      ensures Valid() && old(history) <= history
      ensures Phase() == if r.Ok? then Opened(base, head, created, r.value) else Failed(r.error)
    {
      hide Run, Inv, TrailerKey;
      var reply := Exchange(CreatePull(args.branch));
      if reply.Err? { return Err(reply.error); }
      if reply.value.MadeId? { return Ok(reply.value.id); }
      reply := Exchange(ListOpenPulls(args.branch));
      if reply.Err? { return Err(reply.error); }
      r := if reply.value.first.Some? then Ok(reply.value.first.value) else Err(Upstream);
    }

    /**
     The whole call in the service's order. In any environment it is a run of the machine, and what
     it returns is how the machine's call ended.
    */
    method OpenPr() returns (r: Result<OpenedPr, Code>)
      requires Valid() && Phase() == if ValidArgs(args) then ReadBase else Failed(BadArgs)
      modifies this
      ensures Valid() && old(history) <= history && world == Run(origin, [Start(args)] + history)
      ensures Reports(r, Phase())
    {
      hide ValidArgs, Run, Inv;
      if !ValidArgs(args) { return Err(BadArgs); }
      var base := BaseCommit();
      if base.Err? { return Err(base.error); }
      var existing := ExistingBranchHead(base.value);
      if existing.Err? { return Err(existing.error); }
      var head: Sha;
      if existing.value.Some? {
        head := existing.value.value;
        var key := HeadIdempotencyKey(base.value, head);
        if key.Err? { return Err(key.error); }
        if key.value != Some(args.key) { return Err(Conflict); }
      } else {
        if args.expectedBase.Some? && args.expectedBase.value != base.value { return Err(Conflict); }
        var commit := CreateCommit(base.value);
        if commit.Err? { return Err(commit.error); }
        head := commit.value;
        var error := CreateBranch(base.value, head);
        if error.Some? { return Err(error.value); }
      }
      var created := existing.value.None?;
      var number := CreatePullRequest(base.value, head, created);
      r := if number.Ok? then Ok(OpenedPr(base.value, head, created, number.value)) else Err(number.error);
    }
  }

  lemma LostIsEnabled(w: World, i: nat)
    requires i < |w.calls|
    ensures Enabled(w, Send(i, Lost(false), 0))
  {
  }

  /** In a reachable world a call's step is GitHub serving its request. */
  lemma Served(w: World, i: nat, f: Fault, newId: nat)
    requires Inv(w) && i < |w.calls| && !w.calls[i].phase.Opened? && !w.calls[i].phase.Failed?
    requires Enabled(w, Send(i, f, newId))
    ensures Readable(w)
    ensures var c := w.calls[i];
            var v := Step(w, Send(i, f, newId));
            && |v.calls| == |w.calls| && v.calls[i].args == c.args
            && v.github == Serve(w.github, RequestOf(c.args, c.phase), f, newId).0
            && Decides(c.args, c.phase, Serve(w.github, RequestOf(c.args, c.phase), f, newId).1, v.calls[i].phase)
  {
    hide Serve, Decides, RequestOf, Request, TrailerKey, IsKey, Message;
    InvReadable(w);
    var c := w.calls[i];
    assert PhaseOk(w, i, c.args, c.phase);
    RequestIsServed(w.github, c.args, c.phase, f, newId);
  }
}
