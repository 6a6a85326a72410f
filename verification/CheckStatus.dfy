/** Aggregating the protected CI contexts from one page of workflow runs. */
module CheckStatus {
  import opened Basics
  import opened LexOrder
  import opened GitHubSession

  datatype ContextState = Queued | InProgress | Success | Failure | Neutral | Cancelled | TimedOut | Missing

  datatype Overall = Verdict(state: ContextState) | Blocked(missing: seq<string>)

  datatype Job = Job(name: string, status: Option<string>, conclusion: Option<string>,
                     startedAt: Option<string>, completedAt: Option<string>)

  /** A jobs reply; an item that is no object is None. */
  datatype JobsPage = JobsPage(total: Option<int>, jobs: seq<Option<Job>>)

  datatype Run = Run(id: int, createdAt: string, url: Option<string>, jobs: Result<JobsPage, Code>)

  datatype RunsPage = RunsPage(total: Option<int>, runs: seq<Option<Run>>)

  datatype Context = Context(state: ContextState, run: Option<(int, string)>, startedAt: Option<string>, completedAt: Option<string>)

  type Found = map<string, Context>

  function RequiredContexts(): seq<string> { ["core", "assets"] }

  predicate IsRequired(name: string) { name in RequiredContexts() }

  function ConclusionState(c: string): ContextState {
    match c
    case "success" => Success
    case "failure" => Failure
    case "neutral" => Neutral
    case "cancelled" => Cancelled
    case "timed_out" => TimedOut
    case "skipped" => Neutral
    case "stale" => Cancelled
    case "action_required" => Failure
    case "startup_failure" => Failure
    case _ => Failure
  }

  function StateOf(j: Job): ContextState {
    if j.status in {Some("queued"), Some("waiting"), Some("pending")} then Queued
    else if j.status in {Some("in_progress"), Some("requested")} then InProgress
    else if j.status != Some("completed") then Failure
    else if j.conclusion.None? then Failure
    else ConclusionState(j.conclusion.value)
  }

  function ContextOf(id: int, url: string, j: Job): Context {
    Context(StateOf(j), Some((id, url)), j.startedAt, j.completedAt)
  }

  // The newest runs first

  function Codes(s: string): (c: seq<int>)
    ensures |c| == |s| && forall i :: 0 <= i < |s| ==> c[i] == -(s[i] as int)
  {
    seq(|s|, i requires 0 <= i < |s| => -(s[i] as int))
  }

  /** Sorting by this key puts the later (created_at, id) first. */
  function AgeKey(r: Run): seq<int> { Codes(r.createdAt) + [1, -r.id] }

  function KeyedRuns(runs: seq<Run>): (keyed: seq<Keyed<Run>>)
    ensures |keyed| == |runs| && forall k :: 0 <= k < |runs| ==> keyed[k] == Keyed(AgeKey(runs[k]), runs[k])
  {
    seq(|runs|, k requires 0 <= k < |runs| => Keyed(AgeKey(runs[k]), runs[k]))
  }

  function Values(keyed: seq<Keyed<Run>>): (runs: seq<Run>)
    ensures |runs| == |keyed| && forall k :: 0 <= k < |runs| ==> runs[k] == keyed[k].value
  {
    seq(|keyed|, k requires 0 <= k < |keyed| => keyed[k].value)
  }

  function NewestFirst(runs: seq<Run>): seq<Run> { Values(Sort(KeyedRuns(runs))) }

  /** (created_at, id) as Python compares it: text by code points, then the number. */
  predicate Newer(a: Run, b: Run) {
    TextLess(b.createdAt, a.createdAt) || (a.createdAt == b.createdAt && a.id > b.id)
  }

  ghost predicate DistinctIds(runs: seq<Run>) {
    forall i, j :: 0 <= i < j < |runs| ==> runs[i].id != runs[j].id
  }

  // The scan

  predicate Complete(found: Found) { forall n | n in RequiredContexts() :: n in found }

  function AddJob(found: Found, id: int, url: string, j: Job): Found {
    if !IsRequired(j.name) || j.name in found then found else found[j.name := ContextOf(id, url, j)]
  }

  function ScanJobs(found: Found, id: int, url: string, jobs: seq<Option<Job>>): Result<Found, Code>
    decreases |jobs|
  {
    if jobs == [] then Ok(found)
    else if jobs[0].None? then Err(UpstreamUnavailable)
    else ScanJobs(AddJob(found, id, url, jobs[0].value), id, url, jobs[1..])
  }

  function ScanRun(found: Found, r: Run): Result<Found, Code> {
    if r.url.None? then Err(UpstreamUnavailable)
    else if r.jobs.Err? then Err(r.jobs.error)
    else
      var page := r.jobs.value;
      if page.total.None? || page.total.value < 0 || page.total.value > |page.jobs| then Err(UpstreamUnavailable)
      else ScanJobs(found, r.id, r.url.value, page.jobs)
  }

  /** The loop over the runs; `early` is the break when both contexts are found. */
  function ScanRuns(found: Found, runs: seq<Run>, early: bool): Result<Found, Code>
    decreases |runs|
  {
    if runs == [] then Ok(found)
    else
      var r := ScanRun(found, runs[0]);
      if r.Err? then r
      else if early && Complete(r.value) then r
      else ScanRuns(r.value, runs[1..], early)
  }

  function Missed(): Context { Context(Missing, None, None, None) }

  function WithMissing(found: Found): Found {
    map n | n in RequiredContexts() :: if n in found then found[n] else Missed()
  }

  function Unwrapped(runs: seq<Option<Run>>): (r: Option<seq<Run>>)
    ensures r.Some? <==> forall i :: 0 <= i < |runs| ==> runs[i].Some?
    ensures r.Some? ==> |r.value| == |runs| && forall i :: 0 <= i < |runs| ==> runs[i] == Some(r.value[i])
  {
    if runs == [] then Some([])
    else
      var rest := Unwrapped(runs[1..]);
      if runs[0].None? || rest.None? then None else Some([runs[0].value] + rest.value)
  }

  /** The contexts reported for one page of runs. */
  function Contexts(page: RunsPage): Result<Found, Code> {
    if page.total.None? || page.total.value < 0 then Err(UpstreamUnavailable)
    else
      var runs := Unwrapped(page.runs);
      if runs.None? then Err(UpstreamUnavailable)
      else
        var found := ScanRuns(map[], NewestFirst(runs.value), true);
        if found.Err? then found
        else if !Complete(found.value) && page.total.value > |page.runs| then Err(UpstreamUnavailable)
        else Ok(WithMissing(found.value))
  }

  /** Run `id` gave one of the contexts. */
  ghost predicate Gave(found: Found, id: int) {
    exists n :: n in found && found[n].run.Some? && found[n].run.value.0 == id
  }

  ghost predicate GaveAt(found: Found, id: int, url: string) {
    exists n :: n in found && found[n].run == Some((id, url))
  }

  /** The runs that gave a context, with their pages. */
  ghost predicate RunsOf(found: Found, artifactRuns: map<int, string>) {
    && (forall n :: n in found ==> IsRequired(n))
    && (forall id :: id in artifactRuns <==> Gave(found, id))
    && forall id :: id in artifactRuns ==> GaveAt(found, id, artifactRuns[id])
  }

  lemma RunsOfMore(found: Found, artifactRuns: map<int, string>, id: int, url: string, j: Job)
    requires RunsOf(found, artifactRuns) && IsRequired(j.name) && j.name !in found
    ensures RunsOf(found[j.name := ContextOf(id, url, j)], artifactRuns[id := url])
  {
    hide IsRequired;
    var more := found[j.name := ContextOf(id, url, j)];
    forall i ensures i in artifactRuns[id := url] <==> Gave(more, i) {
      if i == id { assert j.name in more && more[j.name].run.value.0 == i; }
      if n :| n in found && found[n].run.Some? && found[n].run.value.0 == i { assert more[n] == found[n]; }
    }
    var runs := artifactRuns[id := url];
    forall i | i in runs ensures GaveAt(more, i, runs[i]) {
      if i == id {
        assert more[j.name].run == Some((i, runs[i]));
      } else {
        var n :| n in found && found[n].run == Some((i, artifactRuns[i]));
        assert more[n] == found[n];
      }
    }
  }

  lemma RunsOfMissing(found: Found, artifactRuns: map<int, string>)
    requires RunsOf(found, artifactRuns)
    ensures RunsOf(WithMissing(found), artifactRuns)
  {
    hide RequiredContexts;
    var all := WithMissing(found);
    forall i ensures i in artifactRuns <==> Gave(all, i) {
      if n :| n in found && found[n].run.Some? && found[n].run.value.0 == i { assert n in all && all[n] == found[n]; }
    }
    forall i | i in artifactRuns ensures GaveAt(all, i, artifactRuns[i]) {
      var n :| n in found && found[n].run == Some((i, artifactRuns[i]));
      assert n in all && all[n] == found[n];
    }
  }

  /** One run's jobs, added to what newer runs gave. */
  method AddJobs(found: Found, artifactRuns: map<int, string>, r: Run)
    returns (result: Result<Found, Code>, artifacts: map<int, string>)
    requires RunsOf(found, artifactRuns)
    ensures result == ScanRun(found, r)
    ensures result.Ok? ==> RunsOf(result.value, artifacts)
  {
    hide RunsOf, IsRequired;
    artifacts := artifactRuns;
    if r.url.None? { return Err(UpstreamUnavailable), artifacts; }
    if r.jobs.Err? { return Err(r.jobs.error), artifacts; }
    var page := r.jobs.value;
    if page.total.None? || page.total.value < 0 || page.total.value > |page.jobs| {
      return Err(UpstreamUnavailable), artifacts;
    }
    var sofar := found;
    var k := 0;
    while k < |page.jobs|
      invariant k <= |page.jobs|
      invariant ScanJobs(sofar, r.id, r.url.value, page.jobs[k..]) == ScanJobs(found, r.id, r.url.value, page.jobs)
      invariant RunsOf(sofar, artifacts)
    {
      if page.jobs[k].None? { return Err(UpstreamUnavailable), artifacts; }
      var job := page.jobs[k].value;
      assert page.jobs[k..][1..] == page.jobs[k + 1..];
      k := k + 1;
      if !IsRequired(job.name) || job.name in sofar { continue; }
      RunsOfMore(sofar, artifacts, r.id, r.url.value, job);
      sofar := sofar[job.name := ContextOf(r.id, r.url.value, job)];
      artifacts := artifacts[r.id := r.url.value];
    }
    assert page.jobs[k..] == [];
    result := Ok(sofar);
  }

  /** The contexts, newest run first, stopping as soon as both are found, and the runs whose artifacts will be listed. */
  method ContextsAndArtifactRuns(page: RunsPage) returns (result: Result<Found, Code>, artifactRuns: map<int, string>)
    ensures result == Contexts(page)
    ensures result.Ok? ==> RunsOf(result.value, artifactRuns)
  {
    hide Sort, AgeKey, NewestFirst, ScanRun, RunsOf;
    artifactRuns := map[];
    NoRuns();
    if page.total.None? || page.total.value < 0 { return Err(UpstreamUnavailable), artifactRuns; }
    var unwrapped := Unwrapped(page.runs);
    if unwrapped.None? { return Err(UpstreamUnavailable), artifactRuns; }
    var runs := NewestFirst(unwrapped.value);
    var found: Found := map[];
    var k := 0;
    while k < |runs|
      invariant k <= |runs|
      invariant ScanRuns(map[], runs, true) == ScanRuns(found, runs[k..], true)
      invariant RunsOf(found, artifactRuns)
      decreases |runs| - k
    {
      var r: Result<Found, Code>;
      r, artifactRuns := AddJobs(found, artifactRuns, runs[k]);
      assert runs[k..][0] == runs[k] && runs[k..][1..] == runs[k + 1..];
      if r.Err? { return Err(r.error), artifactRuns; }
      found := r.value;
      k := k + 1;
      if Complete(found) { break; }
    }
    if !Complete(found) && page.total.value > |page.runs| { return Err(UpstreamUnavailable), artifactRuns; }
    RunsOfMissing(found, artifactRuns);
    result := Ok(WithMissing(found));
  }

  lemma NoRuns()
    ensures RunsOf(map[], map[])
  {
  }

  // The verdict

  function Order(): seq<ContextState> { [Failure, TimedOut, Cancelled, InProgress, Queued, Neutral] }

  function FirstOf(order: seq<ContextState>, states: set<ContextState>): ContextState {
    if order == [] then Failure else if order[0] in states then order[0] else FirstOf(order[1..], states)
  }

  function MissingNames(contexts: Found, names: seq<string>): seq<string>
    requires forall i :: 0 <= i < |names| ==> names[i] in contexts
  {
    if names == [] then []
    else (if contexts[names[0]].state == Missing then [names[0]] else []) + MissingNames(contexts, names[1..])
  }

  function OverallOf(contexts: Found): Overall
    requires Complete(contexts)
  {
    var missing := MissingNames(contexts, RequiredContexts());
    var states := set n | n in contexts :: contexts[n].state;
    if missing != [] then Blocked(missing)
    else if states == {Success} then Verdict(Success)
    else Verdict(FirstOf(Order(), states))
  }
}

/** What the reported contexts mean. */
module CheckStatusFacts {
  import opened Basics
  import opened GitHubSession
  import opened LexOrder
  import opened CheckStatus

  // The order of the runs

  lemma {:induction false} TextOrder(s: string, t: string, x: seq<int>, y: seq<int>)
    requires x != [] && y != [] && x[0] == y[0] == 1
    ensures s != t ==> (LexLess(Codes(s) + x, Codes(t) + y) <==> TextLess(t, s))
    ensures s == t ==> (LexLess(Codes(s) + x, Codes(t) + y) <==> LexLess(x, y)) && !TextLess(t, s)
  {
    var a, b := Codes(s) + x, Codes(t) + y;
    if s == "" || t == "" {
      assert s == "" ==> a == x;
      assert t == "" ==> b == y;
    } else {
      assert Codes(s)[1..] == Codes(s[1..]) && Codes(t)[1..] == Codes(t[1..]);
      assert a[1..] == Codes(s[1..]) + x && b[1..] == Codes(t[1..]) + y;
      assert s == [s[0]] + s[1..] && t == [t[0]] + t[1..];
      TextOrder(s[1..], t[1..], x, y);
    }
  }

  lemma AgeKeyOrder(a: Run, b: Run)
    ensures LexLess(AgeKey(a), AgeKey(b)) <==> Newer(a, b)
  {
    hide TextLess, Codes;
    TextOrder(a.createdAt, b.createdAt, [1, -a.id], [1, -b.id]);
    PairOrder(-a.id, -b.id);
  }

  lemma PairOrder(x: int, y: int)
    ensures LexLess([1, x], [1, y]) <==> x < y
  {
    assert [1, x][1..] == [x] && [1, y][1..] == [y];
    assert [x][1..] == [] && [y][1..] == [];
    assert LexLess([x], [y]) <==> x < y;
  }

  lemma AgeKeyInjective(a: Run, b: Run)
    requires AgeKey(a) == AgeKey(b)
    ensures a.id == b.id
  {
    assert AgeKey(a)[|AgeKey(a)| - 1] == -a.id && AgeKey(b)[|AgeKey(b)| - 1] == -b.id;
  }

  /** The page sorted: the same runs, each newer than all that follow. */
  lemma NewestFirstSorts(runs: seq<Run>)
    requires DistinctIds(runs)
    ensures var sorted := NewestFirst(runs);
            && (forall r :: r in sorted <==> r in runs)
            && (forall i, j :: 0 <= i < j < |sorted| ==> Newer(sorted[i], sorted[j]))
  {
    hide AgeKey, Newer, Sort, LexLess;
    var keyed := KeyedRuns(runs);
    forall i, j | 0 <= i < j < |keyed| ensures keyed[i].key != keyed[j].key {
      if AgeKey(runs[i]) == AgeKey(runs[j]) { AgeKeyInjective(runs[i], runs[j]); }
    }
    SortOrders(keyed);
    var s := Sort(keyed);
    var sorted := NewestFirst(runs);
    forall i | 0 <= i < |s| ensures s[i].key == AgeKey(s[i].value) && s[i].value in runs {
      assert s[i] in s;
      var k :| 0 <= k < |keyed| && keyed[k] == s[i];
      assert runs[k] in runs;
    }
    forall r | r in runs ensures r in sorted {
      var k :| 0 <= k < |runs| && runs[k] == r;
      assert keyed[k] in s;
      var i :| 0 <= i < |s| && s[i] == keyed[k];
      assert sorted[i] == r;
    }
    forall i, j | 0 <= i < j < |sorted| ensures Newer(sorted[i], sorted[j]) {
      AgeKeyOrder(sorted[i], sorted[j]);
    }
  }

  /** The order in which GitHub lists the runs of a page does not matter. */
  lemma PageOrderIsIrrelevant(a: seq<Run>, b: seq<Run>)
    requires DistinctIds(a) && DistinctIds(b) && forall r :: r in a <==> r in b
    ensures NewestFirst(a) == NewestFirst(b)
  {
    hide AgeKey, Newer, Sort, LexLess;
    SortedKeys(a);
    SortedKeys(b);
    var s, t := Sort(KeyedRuns(a)), Sort(KeyedRuns(b));
    forall x ensures x in s <==> x in t {
      KeyedMembers(a, x);
      KeyedMembers(b, x);
    }
    OneOrder(s, t);
  }

  lemma SortedKeys(runs: seq<Run>)
    requires DistinctIds(runs)
    ensures StrictlySorted(Sort(KeyedRuns(runs))) && forall x :: x in Sort(KeyedRuns(runs)) <==> x in KeyedRuns(runs)
  {
    hide AgeKey, Sort, LexLess;
    var keyed := KeyedRuns(runs);
    forall i, j | 0 <= i < j < |keyed| ensures keyed[i].key != keyed[j].key {
      if AgeKey(runs[i]) == AgeKey(runs[j]) { AgeKeyInjective(runs[i], runs[j]); }
    }
    SortOrders(keyed);
  }

  lemma KeyedMembers(runs: seq<Run>, x: Keyed<Run>)
    ensures x in KeyedRuns(runs) <==> x.value in runs && x.key == AgeKey(x.value)
  {
    hide AgeKey;
    if x.value in runs && x.key == AgeKey(x.value) {
      var k :| 0 <= k < |runs| && runs[k] == x.value;
      assert KeyedRuns(runs)[k] == x;
    }
  }

  // What a scan finds

  /** A run whose replies are all in order. */
  predicate WellFormedRun(r: Run) {
    && r.url.Some? && r.jobs.Ok? && r.jobs.value.total.Some?
    && 0 <= r.jobs.value.total.value <= |r.jobs.value.jobs|
    && forall k :: 0 <= k < |r.jobs.value.jobs| ==> r.jobs.value.jobs[k].Some?
  }

  /** The first job of a name. */
  function FirstJob(jobs: seq<Option<Job>>, name: string): Option<Job> {
    if jobs == [] then None
    else if jobs[0].Some? && jobs[0].value.name == name then jobs[0]
    else FirstJob(jobs[1..], name)
  }

  function JobOf(r: Run, name: string): Option<Job> {
    if r.jobs.Ok? then FirstJob(r.jobs.value.jobs, name) else None
  }

  /** What the newest run with a job of that name says. */
  function Newest(runs: seq<Run>, name: string): Option<Context> {
    if runs == [] then None
    else if JobOf(runs[0], name).Some? && runs[0].url.Some? then
      Some(ContextOf(runs[0].id, runs[0].url.value, JobOf(runs[0], name).value))
    else Newest(runs[1..], name)
  }

  lemma {:induction false} ScanJobsFinds(found: Found, id: int, url: string, jobs: seq<Option<Job>>, name: string)
    requires forall k :: 0 <= k < |jobs| ==> jobs[k].Some?
    requires IsRequired(name)
    ensures var r := ScanJobs(found, id, url, jobs);
            && r.Ok?
            && (name in r.value <==> name in found || FirstJob(jobs, name).Some?)
            && (name in found ==> r.value[name] == found[name])
            && (name !in found && FirstJob(jobs, name).Some? ==> r.value[name] == ContextOf(id, url, FirstJob(jobs, name).value))
    decreases |jobs|
  {
    hide IsRequired, StateOf;
    if jobs != [] {
      ScanJobsFinds(AddJob(found, id, url, jobs[0].value), id, url, jobs[1..], name);
    }
  }

  lemma {:induction false} ScanRunsFinds(found: Found, runs: seq<Run>, name: string)
    requires forall k :: 0 <= k < |runs| ==> WellFormedRun(runs[k])
    requires IsRequired(name)
    ensures var r := ScanRuns(found, runs, false);
            && r.Ok?
            && (name in r.value <==> name in found || Newest(runs, name).Some?)
            && (name in found ==> r.value[name] == found[name])
            && (name !in found && Newest(runs, name).Some? ==> r.value[name] == Newest(runs, name).value)
    decreases |runs|
  {
    hide IsRequired, StateOf, ScanJobs, FirstJob;
    if runs != [] {
      assert WellFormedRun(runs[0]);
      ScanJobsFinds(found, runs[0].id, runs[0].url.value, runs[0].jobs.value.jobs, name);
      ScanRunsFinds(ScanRun(found, runs[0]).value, runs[1..], name);
    }
  }

  /** Once both contexts are found the remaining runs change nothing, so stopping early is a full scan. */
  lemma {:induction false} EarlyExitIsFullScan(found: Found, runs: seq<Run>)
    requires forall k :: 0 <= k < |runs| ==> WellFormedRun(runs[k])
    requires forall n :: n in found ==> IsRequired(n)
    ensures ScanRuns(found, runs, true) == ScanRuns(found, runs, false)
    decreases |runs|
  {
    hide IsRequired, ScanJobs;
    if runs != [] {
      assert WellFormedRun(runs[0]);
      var r := runs[0];
      ScanJobsRequired(found, r.id, r.url.value, r.jobs.value.jobs);
      var next := ScanRun(found, r).value;
      if Complete(next) {
        CompleteStays(next, runs[1..]);
      } else {
        EarlyExitIsFullScan(next, runs[1..]);
      }
    }
  }

  lemma {:induction false} ScanJobsRequired(found: Found, id: int, url: string, jobs: seq<Option<Job>>)
    requires forall k :: 0 <= k < |jobs| ==> jobs[k].Some?
    requires forall n :: n in found ==> IsRequired(n)
    ensures var r := ScanJobs(found, id, url, jobs); r.Ok? && forall n :: n in r.value ==> IsRequired(n)
    decreases |jobs|
  {
    hide IsRequired, ContextOf;
    if jobs != [] { ScanJobsRequired(AddJob(found, id, url, jobs[0].value), id, url, jobs[1..]); }
  }

  lemma {:induction false} CompleteStays(found: Found, runs: seq<Run>)
    requires forall k :: 0 <= k < |runs| ==> WellFormedRun(runs[k])
    requires Complete(found)
    ensures ScanRuns(found, runs, false) == Ok(found)
    decreases |runs|
  {
    hide ContextOf;
    if runs != [] {
      assert WellFormedRun(runs[0]);
      CompleteJobs(found, runs[0].id, runs[0].url.value, runs[0].jobs.value.jobs);
      CompleteStays(found, runs[1..]);
    }
  }

  lemma {:induction false} CompleteJobs(found: Found, id: int, url: string, jobs: seq<Option<Job>>)
    requires forall k :: 0 <= k < |jobs| ==> jobs[k].Some?
    requires Complete(found)
    ensures ScanJobs(found, id, url, jobs) == Ok(found)
    decreases |jobs|
  {
    if jobs != [] { CompleteJobs(found, id, url, jobs[1..]); }
  }

  // What is reported

  function AllSome(runs: seq<Run>): seq<Option<Run>> {
    seq(|runs|, k requires 0 <= k < |runs| => Some(runs[k]))
  }

  lemma {:induction false} UnwrapsAllSome(runs: seq<Run>)
    ensures Unwrapped(AllSome(runs)) == Some(runs)
  {
    var u := Unwrapped(AllSome(runs));
    assert u.Some?;
    forall i | 0 <= i < |runs| ensures u.value[i] == runs[i] {
      assert AllSome(runs)[i] == Some(u.value[i]);
    }
    assert u.value == runs;
  }

  /** The newest run with a job of that name, and what its first such job says. */
  ghost predicate IsNewest(runs: seq<Run>, name: string, c: Context) {
    exists r :: r in runs && Chosen(runs, name, c, r)
  }

  ghost predicate Chosen(runs: seq<Run>, name: string, c: Context, r: Run) {
    && JobOf(r, name).Some? && r.url.Some? && Tells(c, r, JobOf(r, name).value)
    && forall q :: q in runs && JobOf(q, name).Some? ==> q == r || Newer(r, q)
  }

  /** The context gives the run, the job's own times and, as its state, what the job's own fields say. */
  predicate Tells(c: Context, r: Run, j: Job) {
    && r.url.Some? && c.run == Some((r.id, r.url.value))
    && c.startedAt == j.startedAt && c.completedAt == j.completedAt
    && Says(j, c.state)
  }

  predicate Concluded(j: Job, conclusions: set<string>) {
    j.status == Some("completed") && j.conclusion.Some? && j.conclusion.value in conclusions
  }

  /** What GitHub's two words for a job say; whatever is not listed, or absent, is a failure. */
  predicate Says(j: Job, s: ContextState) {
    match s
    case Queued => j.status in {Some("queued"), Some("waiting"), Some("pending")}
    case InProgress => j.status in {Some("in_progress"), Some("requested")}
    case Success => Concluded(j, {"success"})
    case Neutral => Concluded(j, {"neutral", "skipped"})
    case Cancelled => Concluded(j, {"cancelled", "stale"})
    case TimedOut => Concluded(j, {"timed_out"})
    case Failure =>
      && j.status !in {Some("queued"), Some("waiting"), Some("pending"), Some("in_progress"), Some("requested")}
      && !Concluded(j, {"success", "neutral", "skipped", "cancelled", "stale", "timed_out"})
    case Missing => false
  }

  /** A job says exactly one thing, and that is the state reported for it. */
  lemma StateSays(j: Job, s: ContextState)
    ensures Says(j, s) <==> StateOf(j) == s
  {
    if j.status == Some("completed") {
      assert j.status.value[0] == 'c';
      assert "queued"[0] == 'q' && "waiting"[0] == 'w' && "pending"[0] == 'p' && "in_progress"[0] == 'i' && "requested"[0] == 'r';
    }
  }

  lemma ContextTells(r: Run, j: Job)
    requires r.url.Some?
    ensures Tells(ContextOf(r.id, r.url.value, j), r, j)
  {
    hide Says, StateOf;
    StateSays(j, StateOf(j));
  }

  lemma {:induction false} NewestIsNewest(sorted: seq<Run>, name: string)
    requires forall k :: 0 <= k < |sorted| ==> WellFormedRun(sorted[k])
    requires forall i, j :: 0 <= i < j < |sorted| ==> Newer(sorted[i], sorted[j])
    ensures Newest(sorted, name).Some? ==> IsNewest(sorted, name, Newest(sorted, name).value)
    ensures Newest(sorted, name).None? ==> forall r :: r in sorted ==> JobOf(r, name).None?
  {
    hide Newer, FirstJob, StateOf, Tells;
    if sorted != [] {
      var r, rest := sorted[0], sorted[1..];
      assert WellFormedRun(r);
      assert sorted == [r] + rest;
      NewestIsNewest(rest, name);
      forall q | q in rest ensures Newer(r, q) {
        var k :| 0 <= k < |rest| && rest[k] == q;
        assert sorted[k + 1] == q;
      }
      if JobOf(r, name).Some? {
        ContextTells(r, JobOf(r, name).value);
        assert Chosen(sorted, name, Newest(sorted, name).value, r);
      } else if Newest(rest, name).Some? {
        var q :| q in rest && Chosen(rest, name, Newest(rest, name).value, q);
        assert Chosen(sorted, name, Newest(sorted, name).value, q);
      }
    }
  }

  /**
   For a page of runs in order, whatever their listing order: each context is the first job of that
   name in the newest run that has one, and "missing" is reported only for a page that holds every run.
  */
  lemma ContextsAreNewest(runs: seq<Run>, total: nat, name: string)
    requires DistinctIds(runs) && IsRequired(name)
    requires forall k :: 0 <= k < |runs| ==> WellFormedRun(runs[k])
    ensures var result := Contexts(RunsPage(Some(total), AllSome(runs)));
            var absent := forall r :: r in runs ==> JobOf(r, name).None?;
            && (result.Err? ==> result.error == UpstreamUnavailable && total > |runs|)
            && (result.Ok? ==>
                  && name in result.value
                  && (absent ==> result.value[name] == Context(Missing, None, None, None) && total <= |runs|)
                  && (!absent ==> IsNewest(runs, name, result.value[name])))
  {
    hide AgeKey, Sort, Newer, FirstJob, StateOf, IsNewest, NewestFirst, ScanRuns, RequiredContexts;
    UnwrapsAllSome(runs);
    NewestFirstSorts(runs);
    var sorted := NewestFirst(runs);
    assert forall k :: 0 <= k < |sorted| ==> sorted[k] in runs;
    EarlyExitIsFullScan(map[], sorted);
    ScanRunsFinds(map[], sorted, name);
    NewestIsNewest(sorted, name);
    if Newest(sorted, name).Some? { IsNewestOf(sorted, runs, name, Newest(sorted, name).value); }
  }

  lemma IsNewestOf(a: seq<Run>, b: seq<Run>, name: string, c: Context)
    requires IsNewest(a, name, c) && forall r :: r in a <==> r in b
    ensures IsNewest(b, name, c) && exists r :: r in b && JobOf(r, name).Some?
  {
    hide Newer, FirstJob, StateOf, Tells;
    var r :| r in a && Chosen(a, name, c, r);
    assert Chosen(b, name, c, r);
  }

  /** A scan of a page in order finds the names for which some run has a job. */
  lemma FindsReported(runs: seq<Run>, name: string)
    requires DistinctIds(runs) && IsRequired(name)
    requires forall k :: 0 <= k < |runs| ==> WellFormedRun(runs[k])
    ensures var found := ScanRuns(map[], NewestFirst(runs), true);
            found.Ok? && (name in found.value <==> exists r :: r in runs && JobOf(r, name).Some?)
  {
    hide AgeKey, Sort, Newer, FirstJob, StateOf, IsNewest, NewestFirst, ScanRuns, IsRequired;
    NewestFirstSorts(runs);
    var sorted := NewestFirst(runs);
    assert forall k :: 0 <= k < |sorted| ==> sorted[k] in runs;
    EarlyExitIsFullScan(map[], sorted);
    ScanRunsFinds(map[], sorted, name);
    NewestIsNewest(sorted, name);
    if Newest(sorted, name).Some? { IsNewestOf(sorted, runs, name, Newest(sorted, name).value); }
  }

  /** The page is refused exactly when some context was not found on it and GitHub has more runs. */
  lemma RefusedWhenIncomplete(runs: seq<Run>, total: nat)
    requires DistinctIds(runs)
    requires forall k :: 0 <= k < |runs| ==> WellFormedRun(runs[k])
    ensures Contexts(RunsPage(Some(total), AllSome(runs))).Err? <==>
              total > |runs| && exists n :: IsRequired(n) && forall r :: r in runs ==> JobOf(r, n).None?
  {
    hide NewestFirst, ScanRuns, JobOf, WellFormedRun, DistinctIds;
    UnwrapsAllSome(runs);
    forall n | IsRequired(n)
      ensures var found := ScanRuns(map[], NewestFirst(runs), true);
              found.Ok? && (n in found.value <==> !forall r :: r in runs ==> JobOf(r, n).None?)
    {
      FindsReported(runs, n);
    }
    assert IsRequired(RequiredContexts()[0]);
    var found := ScanRuns(map[], NewestFirst(runs), true).value;
    if !Complete(found) {
      var n :| n in RequiredContexts() && n !in found;
      assert IsRequired(n);
    }
  }

  // The verdict

  lemma StatesOfBoth(contexts: Found)
    requires contexts.Keys == {"core", "assets"}
    ensures Complete(contexts) && RequiredContexts() == ["core", "assets"]
    ensures (set n | n in contexts :: contexts[n].state) == {contexts["core"].state, contexts["assets"].state}
  {
    assert "core" in contexts && "assets" in contexts;
  }

  lemma {:induction false} MissingNamesAre(contexts: Found, names: seq<string>)
    requires forall i :: 0 <= i < |names| ==> names[i] in contexts
    ensures forall n :: n in MissingNames(contexts, names) <==> n in names && n in contexts && contexts[n].state == Missing
  {
    if names != [] {
      MissingNamesAre(contexts, names[1..]);
      assert names == [names[0]] + names[1..];
    }
  }

  /** Blocked means some context is missing, and exactly the missing ones are named. */
  lemma BlockedMeans(contexts: Found)
    requires contexts.Keys == {"core", "assets"}
    ensures Complete(contexts)
    ensures OverallOf(contexts).Blocked? <==> contexts["core"].state == Missing || contexts["assets"].state == Missing
    ensures OverallOf(contexts).Blocked? ==>
              forall n :: n in OverallOf(contexts).missing <==> n in contexts && contexts[n].state == Missing
  {
    hide MissingNames, FirstOf, Order;
    StatesOfBoth(contexts);
    var names := RequiredContexts();
    MissingNamesAre(contexts, names);
    assert names[0] == "core" && names[1] == "assets";
    var missing := MissingNames(contexts, names);
    if missing != [] { assert missing[0] in missing; }
    assert forall n :: n in contexts ==> n in names;
  }

  /** With nothing missing: success means both succeeded, and otherwise it is the worse of the two states. */
  lemma VerdictMeans(contexts: Found)
    requires contexts.Keys == {"core", "assets"}
    requires contexts["core"].state != Missing && contexts["assets"].state != Missing
    ensures Complete(contexts)
    ensures var core, assets := contexts["core"].state, contexts["assets"].state;
            OverallOf(contexts) == Verdict(if Rank(core) <= Rank(assets) then core else assets)
  {
    hide MissingNames;
    StatesOfBoth(contexts);
    BlockedMeans(contexts);
    var core, assets := contexts["core"].state, contexts["assets"].state;
    if core != Success || assets != Success { FirstOfPair(core, assets); }
  }

  /** How bad a state is; the worst is first. */
  function Rank(s: ContextState): nat {
    match s
    case Failure => 0
    case TimedOut => 1
    case Cancelled => 2
    case InProgress => 3
    case Queued => 4
    case Neutral => 5
    case Success => 6
    case Missing => 7
  }

  lemma FirstOfPair(a: ContextState, b: ContextState)
    requires a != Missing && b != Missing && (a != Success || b != Success)
    ensures FirstOf(Order(), {a, b}) == if Rank(a) <= Rank(b) then a else b
  {
    FirstOfOrder({a, b});
  }

  lemma FirstOfOrder(states: set<ContextState>)
    ensures FirstOf(Order(), states) ==
              if Failure in states then Failure
              else if TimedOut in states then TimedOut
              else if Cancelled in states then Cancelled
              else if InProgress in states then InProgress
              else if Queued in states then Queued
              else if Neutral in states then Neutral
              else Failure
  {
    FirstOfRest(Failure, [TimedOut, Cancelled, InProgress, Queued, Neutral], states);
    FirstOfRest(TimedOut, [Cancelled, InProgress, Queued, Neutral], states);
    FirstOfRest(Cancelled, [InProgress, Queued, Neutral], states);
    FirstOfRest(InProgress, [Queued, Neutral], states);
    FirstOfRest(Queued, [Neutral], states);
    FirstOfRest(Neutral, [], states);
    assert Order() == [Failure] + [TimedOut, Cancelled, InProgress, Queued, Neutral];
    assert [TimedOut, Cancelled, InProgress, Queued, Neutral] == [TimedOut] + [Cancelled, InProgress, Queued, Neutral];
    assert [Cancelled, InProgress, Queued, Neutral] == [Cancelled] + [InProgress, Queued, Neutral];
    assert [InProgress, Queued, Neutral] == [InProgress] + [Queued, Neutral];
    assert [Queued, Neutral] == [Queued] + [Neutral];
    assert [Neutral] == [Neutral] + [];
  }

  lemma FirstOfRest(s: ContextState, rest: seq<ContextState>, states: set<ContextState>)
    ensures FirstOf([s] + rest, states) == if s in states then s else FirstOf(rest, states)
  {
    assert ([s] + rest)[1..] == rest;
  }

  // Green

  /** Nothing newer than `r` has a job of that name, and every such run was read in full. */
  ghost predicate NewestWith(runs: seq<Run>, name: string, r: Run) {
    && r in runs && WellFormedRun(r) && JobOf(r, name).Some?
    && forall q :: q in runs && Newer(q, r) ==> WellFormedRun(q) && JobOf(q, name).None?
  }

  /** The first job of that name in the newest run with one is completed with conclusion "success". */
  ghost predicate Green(runs: seq<Run>, name: string) {
    exists r :: NewestWith(runs, name, r)
      && JobOf(r, name).value.status == Some("completed") && JobOf(r, name).value.conclusion == Some("success")
  }

  /** Position `k` is the first whose run has a job of that name; the runs up to it are in order. */
  ghost predicate FirstAt(runs: seq<Run>, name: string, k: nat) {
    && k < |runs| && JobOf(runs[k], name).Some? && runs[k].url.Some?
    && (forall i :: 0 <= i <= k ==> WellFormedRun(runs[i]))
    && forall i :: 0 <= i < k ==> JobOf(runs[i], name).None?
  }

  lemma ScanRunReads(found: Found, r: Run, name: string)
    requires IsRequired(name)
    ensures ScanRun(found, r).Ok? <==> WellFormedRun(r)
    ensures var next := ScanRun(found, r);
            next.Ok? ==>
              && (name in next.value <==> name in found || JobOf(r, name).Some?)
              && r.url.Some?
              && (name in found ==> next.value[name] == found[name])
              && (name !in found && name in next.value ==> next.value[name] == ContextOf(r.id, r.url.value, JobOf(r, name).value))
  {
    hide IsRequired, ContextOf, ScanJobs, FirstJob;
    if r.url.Some? && r.jobs.Ok? {
      var jobs := r.jobs.value.jobs;
      if forall k :: 0 <= k < |jobs| ==> jobs[k].Some? {
        ScanJobsFinds(found, r.id, r.url.value, jobs, name);
      } else {
        ScanJobsRefuses(found, r.id, r.url.value, jobs);
      }
    }
  }

  lemma {:induction false} ScanJobsRefuses(found: Found, id: int, url: string, jobs: seq<Option<Job>>)
    requires !forall k :: 0 <= k < |jobs| ==> jobs[k].Some?
    ensures ScanJobs(found, id, url, jobs).Err?
    decreases |jobs|
  {
    hide AddJob;
    if jobs[0].Some? {
      var k :| 0 <= k < |jobs| && jobs[k].None?;
      assert jobs[1..][k - 1].None?;
      ScanJobsRefuses(AddJob(found, id, url, jobs[0].value), id, url, jobs[1..]);
    }
  }

  /** What the scan holds for a name comes from the first position with such a job. */
  lemma {:induction false} ScanReads(found: Found, runs: seq<Run>, name: string)
    requires IsRequired(name) && ScanRuns(found, runs, true).Ok?
    ensures var all := ScanRuns(found, runs, true).value;
            && (name in found ==> name in all && all[name] == found[name])
            && (name !in found && name in all ==>
                  exists k: nat ::
                    FirstAt(runs, name, k) && all[name] == ContextOf(runs[k].id, runs[k].url.value, JobOf(runs[k], name).value))
    decreases |runs|
  {
    hide IsRequired, ContextOf, ScanRun, JobOf, WellFormedRun, Complete;
    if runs != [] {
      var r, rest := runs[0], runs[1..];
      ScanRunReads(found, r, name);
      var next := ScanRun(found, r).value;
      var all := ScanRuns(found, runs, true).value;
      if !Complete(next) { ScanReads(next, rest, name); }
      if name !in found && name in next {
        assert FirstAt(runs, name, 0);
      } else if name !in found && name in all {
        var k: nat :| FirstAt(rest, name, k) && all[name] == ContextOf(rest[k].id, rest[k].url.value, JobOf(rest[k], name).value);
        assert forall i :: 0 < i <= k + 1 ==> runs[i] == rest[i - 1];
        assert FirstAt(runs, name, k + 1);
      }
    }
  }

  /** When runs in order hold a job of each name, the scan stops among them with both contexts. */
  lemma {:induction false} ScanCompletes(found: Found, runs: seq<Run>, k: nat)
    requires k < |runs| && forall i :: 0 <= i <= k ==> WellFormedRun(runs[i])
    requires forall n :: IsRequired(n) ==> n in found || exists i :: 0 <= i <= k && JobOf(runs[i], n).Some?
    ensures ScanRuns(found, runs, true).Ok? && Complete(ScanRuns(found, runs, true).value)
    decreases |runs|
  {
    hide RequiredContexts, ContextOf, ScanRun, JobOf, WellFormedRun;
    var r, rest := runs[0], runs[1..];
    forall n | IsRequired(n)
      ensures ScanRun(found, r).Ok? && (n in ScanRun(found, r).value <==> n in found || JobOf(r, n).Some?)
    {
      ScanRunReads(found, r, n);
    }
    SomeRequired();
    var next := ScanRun(found, r).value;
    if !Complete(next) {
      var n :| n in RequiredContexts() && n !in next;
      assert IsRequired(n);
      assert k > 0;
      forall n | IsRequired(n) && n !in next ensures exists i :: 0 <= i <= k - 1 && JobOf(rest[i], n).Some? {
        var i :| 0 <= i <= k && JobOf(runs[i], n).Some?;
        assert rest[i - 1] == runs[i];
      }
      ScanCompletes(next, rest, k - 1);
    }
  }

  lemma SomeRequired()
    ensures IsRequired("core") && IsRequired("assets") && forall n :: IsRequired(n) ==> n == "core" || n == "assets"
  {
    assert RequiredContexts()[0] == "core" && RequiredContexts()[1] == "assets";
  }

  lemma FirstIsNewest(runs: seq<Run>, sorted: seq<Run>, name: string, k: nat)
    requires forall r :: r in sorted <==> r in runs
    requires forall i, j :: 0 <= i < j < |sorted| ==> Newer(sorted[i], sorted[j])
    requires FirstAt(sorted, name, k)
    ensures NewestWith(runs, name, sorted[k])
    ensures forall r :: NewestWith(runs, name, r) ==> r == sorted[k]
  {
    hide JobOf, WellFormedRun, Newer;
    forall q | q in runs && Newer(q, sorted[k]) ensures WellFormedRun(q) && JobOf(q, name).None? {
      var i :| 0 <= i < |sorted| && sorted[i] == q;
      if i >= k { NewerIsStrict(sorted[k], q); }
    }
    forall r | NewestWith(runs, name, r) ensures r == sorted[k] {
      var i :| 0 <= i < |sorted| && sorted[i] == r;
      if i != k { NewerIsStrict(sorted[k], r); }
    }
  }

  lemma NewerIsStrict(a: Run, b: Run)
    ensures !(Newer(a, b) && Newer(b, a)) && !Newer(a, a)
  {
    hide AgeKey, LexLess;
    AgeKeyOrder(a, b);
    AgeKeyOrder(b, a);
    AgeKeyOrder(a, a);
    if LexLess(AgeKey(a), AgeKey(b)) { Asymmetric(AgeKey(a), AgeKey(b)); }
    if LexLess(AgeKey(a), AgeKey(a)) { Asymmetric(AgeKey(a), AgeKey(a)); }
  }

  /** The other way: the newest run with such a job, all newer ones in order, is the first in sorted order. */
  lemma NewestIsFirst(runs: seq<Run>, sorted: seq<Run>, name: string, r: Run) returns (k: nat)
    requires forall q :: q in sorted <==> q in runs
    requires forall i, j :: 0 <= i < j < |sorted| ==> Newer(sorted[i], sorted[j])
    requires NewestWith(runs, name, r)
    ensures FirstAt(sorted, name, k) && sorted[k] == r
  {
    hide JobOf, Newer;
    assert r in sorted;
    k :| 0 <= k < |sorted| && sorted[k] == r;
    forall i | 0 <= i < k ensures WellFormedRun(sorted[i]) && JobOf(sorted[i], name).None? {
      assert sorted[i] in runs && Newer(sorted[i], r);
    }
  }

  /**
   The overall state is success if and only if both required contexts are green: for each, the first job
   of that name in the newest run with one is completed with conclusion "success", and that run and
   every newer one were read in full. No malformed, truncated or failed reply among those is passed over.
  */
  lemma SuccessExactly(runs: seq<Run>, total: Option<int>)
    requires DistinctIds(runs)
    ensures var result := Contexts(RunsPage(total, AllSome(runs)));
            (result.Ok? && Complete(result.value) && OverallOf(result.value) == Verdict(Success))
              <==> total.Some? && total.value >= 0 && Green(runs, "core") && Green(runs, "assets")
  {
    hide DistinctIds, JobOf, NewestFirst, ScanRuns, OverallOf, Green, AllSome;
    UnwrapsAllSome(runs);
    SomeRequired();
    var scan := ScanRuns(map[], NewestFirst(runs), true);
    if total.Some? && total.value >= 0 && Green(runs, "core") && Green(runs, "assets") {
      GreenCompletes(runs);
    }
    if scan.Ok? {
      WithMissingKeys(scan.value);
      ReportedStates(WithMissing(scan.value));
      GreenIsSuccess(runs, "core");
      GreenIsSuccess(runs, "assets");
    }
  }

  /** Two green contexts are both found. */
  lemma GreenCompletes(runs: seq<Run>)
    requires DistinctIds(runs) && Green(runs, "core") && Green(runs, "assets")
    ensures var scan := ScanRuns(map[], NewestFirst(runs), true); scan.Ok? && Complete(scan.value)
  {
    hide DistinctIds, JobOf, NewestFirst, ScanRuns, NewestWith, Newer, WellFormedRun, RequiredContexts;
    NewestFirstSorts(runs);
    SomeRequired();
    var sorted := NewestFirst(runs);
    var core :| NewestWith(runs, "core", core);
    var assets :| NewestWith(runs, "assets", assets);
    var i := NewestIsFirst(runs, sorted, "core", core);
    var j := NewestIsFirst(runs, sorted, "assets", assets);
    ScanCompletes(map[], sorted, if i < j then j else i);
  }

  /** A context that was found is reported as a success exactly when it is green. */
  lemma GreenIsSuccess(runs: seq<Run>, name: string)
    requires DistinctIds(runs) && IsRequired(name)
    requires ScanRuns(map[], NewestFirst(runs), true).Ok?
    ensures var found := ScanRuns(map[], NewestFirst(runs), true).value;
            name in found ==> (found[name].state == Success <==> Green(runs, name))
  {
    hide DistinctIds, IsRequired, JobOf, NewestFirst, ScanRuns, NewestWith, Newer, WellFormedRun, StateOf;
    NewestFirstSorts(runs);
    var sorted := NewestFirst(runs);
    var found := ScanRuns(map[], sorted, true).value;
    ScanReads(map[], sorted, name);
    if name in found {
      var k: nat :|
        FirstAt(sorted, name, k) && found[name] == ContextOf(sorted[k].id, sorted[k].url.value, JobOf(sorted[k], name).value);
      FirstIsNewest(runs, sorted, name, k);
      StateSays(JobOf(sorted[k], name).value, Success);
    }
  }

  lemma WithMissingKeys(found: Found)
    ensures WithMissing(found).Keys == {"core", "assets"}
  {
    SomeRequired();
  }

  /** Success overall means that both states are success. */
  lemma ReportedStates(contexts: Found)
    requires contexts.Keys == {"core", "assets"}
    ensures Complete(contexts)
    ensures OverallOf(contexts) == Verdict(Success) <==> contexts["core"].state == Success && contexts["assets"].state == Success
  {
    hide OverallOf;
    BlockedMeans(contexts);
    if contexts["core"].state != Missing && contexts["assets"].state != Missing { VerdictMeans(contexts); }
  }
}
