// The polling operations of omp/omp.c: the wait_for_task_* loops, which
// poll the manager until a task reaches a state they are waiting for, and
// omp_until_up, which repeats a call while it answers 503. Each poll is one
// scripted exchange; when the script runs out the loop is still polling.

module OmpWait {
  import opened Options
  import opened Xml
  import opened XmlRead
  import opened OmpStatus
  import opened OmpRequests
  import opened OmpOps

  // ---------------------------------------------------------------------
  // strcasecmp

  /** tolower in the C locale. */
  function Lower(c: char): (l: char)
    ensures 'A' <= c <= 'Z' ==> l as int == c as int + 32
    ensures !('A' <= c <= 'Z') ==> l == c
  {
    if 'A' <= c <= 'Z' then (c as int + 32) as char else c
  }

  /** strcasecmp (a, b) == 0 */
  predicate EqualsIgnoringCase(a: string, b: string)
  {
    |a| == |b| && forall i :: 0 <= i < |a| ==> Lower(a[i]) == Lower(b[i])
  }

  /** Equality ignoring case is an equivalence that identical strings satisfy, and it tells letters from other characters. */
  lemma EqualsIgnoringCaseEquivalence(a: string, b: string, c: string)
    ensures EqualsIgnoringCase(a, a)
    ensures EqualsIgnoringCase(a, b) ==> EqualsIgnoringCase(b, a)
    ensures EqualsIgnoringCase(a, b) && EqualsIgnoringCase(b, c) ==> EqualsIgnoringCase(a, c)
    ensures EqualsIgnoringCase("TASK", "task") && !EqualsIgnoringCase("task", "tusk")
  {
    assert "task"[1] == 'a' && "tusk"[1] == 'u' && Lower('a') != Lower('u');
  }

  // ---------------------------------------------------------------------
  // The task scan of the wait loops (DO_CHILDREN)

  /** A child named "task" in any case. */
  predicate IsTask(c: Entity)
  {
    EqualsIgnoringCase(c.name, "task")
  }

  /** A child the scan passes over: not a task, or a task whose id is another one. */
  predicate PassedOver(c: Entity, id: string)
  {
    !IsTask(c) || (EntityAttribute(c, "id").Some? && !EqualsIgnoringCase(EntityAttribute(c, "id").value, id))
  }

  /** How the scan ends: at index `at`, or after the last child. */
  datatype TaskSearch =
    | MissingId(at: nat)
    | MissingStatus(at: nat)
    | Found(at: nat, state: string)
    | NotFound

  /**
   * The scan from child k on: the first task without an id ends it with
   * MissingId; the first task whose id equals `id` ignoring case ends it,
   * with the text of its status child as the state, or MissingStatus
   * without one.
   */
  function FindTaskFrom(cs: seq<Entity>, k: nat, id: string): (r: TaskSearch)
    requires k <= |cs|
    ensures r.NotFound? <==> forall j :: k <= j < |cs| ==> PassedOver(cs[j], id)
    ensures !r.NotFound? ==> k <= r.at < |cs| && IsTask(cs[r.at])
                              && forall j :: k <= j < r.at ==> PassedOver(cs[j], id)
    ensures r.MissingId? ==> EntityAttribute(cs[r.at], "id").None?
    ensures r.MissingStatus? || r.Found? ==>
              EntityAttribute(cs[r.at], "id").Some? && EqualsIgnoringCase(EntityAttribute(cs[r.at], "id").value, id)
    ensures r.MissingStatus? ==> EntityChild(cs[r.at], "status").None?
    ensures r.Found? ==> EntityChild(cs[r.at], "status").Some? && EntityChild(cs[r.at], "status").value.text == r.state
    decreases |cs| - k
  {
    if k == |cs| then NotFound
    else if !IsTask(cs[k]) then FindTaskFrom(cs, k + 1, id)
    else match EntityAttribute(cs[k], "id")
      case None => MissingId(k)
      case Some(taskId) =>
        if !EqualsIgnoringCase(taskId, id) then FindTaskFrom(cs, k + 1, id)
        else match EntityChild(cs[k], "status")
          case None => MissingStatus(k)
          case Some(status) => Found(k, status.text)
  }

  function FindTask(cs: seq<Entity>, id: string): (r: TaskSearch)
  {
    FindTaskFrom(cs, 0, id)
  }

  /** The scan is decided by the first child it does not pass over. */
  lemma FindTaskFirst(cs: seq<Entity>, id: string, k: nat)
    requires k < |cs| && !PassedOver(cs[k], id)
    requires forall j :: 0 <= j < k ==> PassedOver(cs[j], id)
    ensures FindTask(cs, id).at == k
  {
  }

  /** DO_CHILDREN over the response's children, with its early exits. */
  method ScanTasks(cs: seq<Entity>, id: string) returns (r: TaskSearch)
    ensures r == FindTask(cs, id)
  {
    var k := 0;
    while k < |cs|
      invariant k <= |cs|
      invariant FindTaskFrom(cs, k, id) == FindTask(cs, id)
    {
      var child := cs[k];
      if IsTask(child) {
        var taskId := EntityAttribute(child, "id");
        if taskId.None? {
          return MissingId(k);
        }
        if EqualsIgnoringCase(taskId.value, id) {
          var status := EntityChild(child, "status");
          if status.None? {
            return MissingStatus(k);
          }
          return Found(k, status.value.text);
        }
      }
      k := k + 1;
    }
    return NotFound;
  }

  // ---------------------------------------------------------------------
  // The waiters

  datatype Waiter = Start | End | Stop | Delete

  /** The request each poll sends. */
  function PollRequest(w: Waiter, id: string): string
  {
    if w == Delete then TaskStatusRequest(id) else GetStatusRequest
  }

  /** The run states a waiter returns 0 for. */
  function Reached(w: Waiter): set<string>
  {
    match w
    case Start => {"Running", "Done"}
    case End => {"Done"}
    case Stop => {"Stopped", "Done"}
    case Delete => {}
  }

  /** The run states a waiter returns 1 for. */
  function Failed(w: Waiter): set<string>
  {
    match w
    case Start => {"Internal Error"}
    case End => {"Internal Error", "Stopped"}
    case Stop => {"Internal Error"}
    case Delete => {}
  }

  /** The run-state table of each waiter: 0, 1, or None for polling again. */
  function RunStateResult(w: Waiter, state: string): (r: Option<int>)
    ensures r == Some(0) <==> state in Reached(w)
    ensures r == Some(1) <==> state in Failed(w)
    ensures r.None? <==> state !in Reached(w) + Failed(w)
  {
    match w
    case Start =>
      if state == "Running" || state == "Done" then Some(0)
      else if state == "Internal Error" then Some(1)
      else None
    case End =>
      if state == "Done" then Some(0)
      else if state == "Internal Error" then Some(1)
      else if state == "Stopped" then Some(1)
      else None
    case Stop =>
      if state == "Stopped" then Some(0)
      else if state == "Done" then Some(0)
      else if state == "Internal Error" then Some(1)
      else None
    case Delete => None
  }

  /** What a scan of a successful response means to a waiter. */
  function Verdict(w: Waiter, search: TaskSearch): (r: Option<int>)
    ensures search.MissingId? || search.MissingStatus? ==> r == Some(-1)
    ensures search.NotFound? ==> r == Some(if w == Stop then -2 else -1)
    ensures search.Found? ==> r == RunStateResult(w, search.state)
  {
    match search
    case MissingId(_) => Some(-1)
    case MissingStatus(_) => Some(-1)
    case NotFound => if w == Stop then Some(-2) else Some(-1)
    case Found(_, state) => RunStateResult(w, state)
  }

  /** task_status: the status text of the first child named exactly "task". */
  function TaskStatus(e: Entity): (r: Option<string>)
    ensures r.Some? <==> EntityChild(e, "task").Some? && EntityChild(EntityChild(e, "task").value, "status").Some?
    ensures r.Some? ==> r.value == EntityChild(EntityChild(e, "task").value, "status").value.text
  {
    match EntityChild(e, "task")
    case None => None
    case Some(task) =>
      match EntityChild(task, "status")
      case None => None
      case Some(status) => Some(status.text)
  }

  /**
   * task_status matches the name exactly and ignores the id, unlike the
   * scan of the other waiters: a "TASK" child is invisible to it.
   */
  lemma TaskStatusExactName(id: string)
    ensures var task := Entity("TASK", "", Some(map["id" := id]), [Leaf("status", "Running")]);
      var response := Element("get_status_response", [task]);
      TaskStatus(response).None? && FindTask(response.children, id) == Found(0, "Running")
  {
    var task := Entity("TASK", "", Some(map["id" := id]), [Leaf("status", "Running")]);
    var response := Element("get_status_response", [task]);
    assert task.name[0] != "task"[0];
    assert EntityChild(response, "task").None?;
    assert EqualsIgnoringCase(task.name, "task");
    assert EntityAttribute(task, "id") == Some(id);
    assert EntityChild(task, "status") == Some(Leaf("status", "Running"));
  }

  /**
   * One poll: -1 when the send or the read fails; for Delete, 0 once the
   * response has no task status; for the others -1 without a usable status,
   * another poll for a status not starting with '2', else the verdict on
   * the scan.
   */
  function PollStep(w: Waiter, id: string, x: Exchange): (r: Option<int>)
    ensures r.Some? ==> r.value in {-2, -1, 0, 1}
    ensures r == Some(-2) ==> w == Stop
  {
    match Response(x, FailsOnMinusOne)
    case None => Some(-1)
    case Some(e) =>
      if w == Delete then
        if TaskStatus(e).None? then Some(0) else None
      else
        match Classify(e)
        case Missing => Some(-1)
        case Failure(_) => None
        case Success => Verdict(w, FindTask(e.children, id))
  }

  /** The result of every poll of a script, as if each exchange were polled. */
  function Polls(w: Waiter, id: string, script: seq<Exchange>): (ps: seq<Option<int>>)
    ensures |ps| == |script|
    ensures forall j :: 0 <= j < |script| ==> ps[j] == PollStep(w, id, script[j])
  {
    seq(|script|, j requires 0 <= j < |script| => PollStep(w, id, script[j]))
  }

  /**
   * Polling from step i on: the first step with a result ends the loop,
   * after as many steps as the second component says; every step before it
   * asked to poll again.
   */
  function FirstResult(steps: seq<Option<int>>, i: nat): (res: (Option<int>, nat))
    requires i <= |steps|
    ensures i <= res.1 <= |steps|
    ensures res.0.Some? ==> i < res.1 && steps[res.1 - 1] == res.0
    ensures res.0.None? ==> res.1 == |steps|
    ensures forall j :: i <= j < res.1 && (res.0.None? || j < res.1 - 1) ==> steps[j].None?
    decreases |steps| - i
  {
    if i == |steps| then (None, i)
    else match steps[i]
      case Some(v) => (Some(v), i + 1)
      case None => FirstResult(steps, i + 1)
  }

  /** One step of the polling. */
  lemma FirstResultStep(steps: seq<Option<int>>, i: nat)
    requires i < |steps|
    ensures steps[i].Some? ==> FirstResult(steps, i) == (steps[i], i + 1)
    ensures steps[i].None? ==> FirstResult(steps, i) == FirstResult(steps, i + 1)
  {
  }

  /** The whole wait over a script of exchanges: its result and the number of polls. */
  function WaitSpec(w: Waiter, id: string, script: seq<Exchange>): (res: (Option<int>, nat))
  {
    FirstResult(Polls(w, id, script), 0)
  }

  /**
   * The wait ends at the first poll with a result, and every earlier poll
   * (every poll, when none has a result) asked to poll again.
   */
  lemma WaitSpecFirst(w: Waiter, id: string, script: seq<Exchange>)
    ensures var res := WaitSpec(w, id, script);
      res.1 <= |script|
      && (res.0.Some? ==> 0 < res.1 && PollStep(w, id, script[res.1 - 1]) == res.0)
      && (res.0.None? ==> res.1 == |script|)
      && forall j :: 0 <= j < res.1 && (res.0.None? || j < res.1 - 1) ==> PollStep(w, id, script[j]).None?
  {
    var ps := Polls(w, id, script);
    var res := FirstResult(ps, 0);
    forall j | 0 <= j < res.1 && (res.0.None? || j < res.1 - 1) ensures PollStep(w, id, script[j]).None? {
      assert ps[j].None?;
    }
  }

  /** One poll as the loop body does it, scanning the children in place. */
  method Poll(w: Waiter, id: string, x: Exchange) returns (r: Option<int>)
    ensures r == PollStep(w, id, x)
  {
    var response := Response(x, FailsOnMinusOne);
    if response.None? {
      return Some(-1);
    }
    var e := response.value;
    if w == Delete {
      if TaskStatus(e).None? {
        return Some(0);
      }
      return None;
    }
    var status := Classify(e);
    if status.Missing? {
      return Some(-1);
    }
    if status.Failure? {
      return None;
    }
    var search := ScanTasks(e.children, id);
    r := Verdict(w, search);
  }

  /** The same request sent n times. */
  function Repeat(request: string, n: nat): (r: seq<string>)
    ensures |r| == n && forall j :: 0 <= j < n ==> r[j] == request
  {
    if n == 0 then [] else Repeat(request, n - 1) + [request]
  }

  /** One more poll sends one more request. */
  lemma RepeatOnce(request: string, n: nat)
    ensures Repeat(request, n + 1) == Repeat(request, n) + [request]
  {
  }

  /**
   * wait_for_task_start, wait_for_task_end, wait_for_task_stop and
   * wait_for_task_delete: poll until a poll has a result. Also gives the
   * requests sent, one per poll.
   */
  method WaitForTask(w: Waiter, id: string, script: seq<Exchange>) returns (r: Option<int>, polls: nat, sent: seq<string>)
    ensures (r, polls) == WaitSpec(w, id, script)
    ensures sent == Repeat(PollRequest(w, id), polls)
  {
    ghost var steps := Polls(w, id, script);
    var request := PollRequest(w, id);
    r := None;
    polls := 0;
    sent := [];
    while r.None? && polls < |script|
      invariant polls <= |script|
      invariant r.None? ==> FirstResult(steps, polls) == FirstResult(steps, 0)
      invariant r.Some? ==> (r, polls) == FirstResult(steps, 0)
      invariant sent == Repeat(request, polls)
    {
      RepeatOnce(request, polls);
      sent := sent + [request];
      r := Poll(w, id, script[polls]);
      FirstResultStep(steps, polls);
      polls := polls + 1;
    }
  }

  /** A waiter never returns 0 for a task it did not find among the children. */
  lemma WaitSuccessFindsTask(w: Waiter, id: string, script: seq<Exchange>)
    requires w != Delete
    requires WaitSpec(w, id, script).0 == Some(0)
    ensures 0 < WaitSpec(w, id, script).1 <= |script|
    ensures var x := script[WaitSpec(w, id, script).1 - 1];
      x.reply.Read? && Classify(x.reply.entity).Success?
      && FindTask(x.reply.entity.children, id).Found?
      && FindTask(x.reply.entity.children, id).state in Reached(w)
  {
    WaitSpecFirst(w, id, script);
    var x := script[WaitSpec(w, id, script).1 - 1];
    PollStepZero(w, id, x);
  }

  /** A poll other than wait_for_task_delete's gives 0 only on a '2' response whose matching task is in a reached state. */
  lemma PollStepZero(w: Waiter, id: string, x: Exchange)
    requires w != Delete && PollStep(w, id, x) == Some(0)
    ensures x.reply.Read? && Classify(x.reply.entity).Success?
    ensures FindTask(x.reply.entity.children, id).Found? && FindTask(x.reply.entity.children, id).state in Reached(w)
  {
    assert Response(x, FailsOnMinusOne).Some?;
    var search := FindTask(x.reply.entity.children, id);
    assert Classify(x.reply.entity).Success?;
    assert Verdict(w, search) == Some(0);
  }

  // ---------------------------------------------------------------------
  // omp_until_up

  /**
   * omp_until_up: call the polled function until it returns something
   * other than 503, and return that. `results` are its successive results;
   * None when they are all 503.
   */
  method OmpUntilUp(results: seq<int>) returns (r: Option<int>, calls: nat)
    ensures calls <= |results|
    ensures r.Some? ==> 0 < calls && r.value == results[calls - 1] && r.value != 503
    ensures r.None? ==> calls == |results|
    ensures forall j :: 0 <= j < |results| && (r.None? || j < calls - 1) ==> results[j] == 503
  {
    calls := 0;
    while calls < |results|
      invariant calls <= |results|
      invariant forall j :: 0 <= j < calls ==> results[j] == 503
    {
      var ret := results[calls];
      calls := calls + 1;
      if ret != 503 {
        return Some(ret), calls;
      }
    }
    return None, calls;
  }
}
