// The single-exchange OMP operations of omp/omp.c: send one request, read
// one response with read_entity, and turn the response into a result code
// (and, for some operations, an output parameter).

module OmpOps {
  import opened Options
  import opened Xml
  import opened XmlRead
  import opened Base64
  import opened OmpStatus
  import opened OmpRequests

  /** One round trip: what the send returned, then what read_entity produced. */
  datatype Exchange = Exchange(sent: int, reply: ReadOutcome)

  /**
   * The two ways the operations test the result of a send: some give up only
   * on -1 (openvas_server_sendf (...) == -1), others on any nonzero result.
   */
  datatype SendTest = FailsOnMinusOne | FailsOnNonzero

  predicate SendFails(test: SendTest, sent: int)
  {
    match test
    case FailsOnMinusOne => sent == -1
    case FailsOnNonzero => sent != 0
  }

  /** What an operation did: the requests it sent, in order, its result, and its output parameter. */
  datatype Call<T> = Call(sent: seq<string>, code: int, output: Option<T>)

  /** The response entity, when the send passed the test and the read succeeded. */
  function Response(x: Exchange, test: SendTest): (r: Option<Entity>)
    ensures r.Some? <==> !SendFails(test, x.sent) && x.reply.Read?
    ensures r.Some? ==> r.value == x.reply.entity
  {
    if SendFails(test, x.sent) then None
    else match x.reply
      case ReadFailed(_) => None
      case Read(e, _) => Some(e)
  }

  /**
   * The operations that check the first character of the status: 0 exactly
   * when the response arrived with a status starting with '2', -1 otherwise.
   */
  function Checked(request: string, test: SendTest, x: Exchange): (r: Call<()>)
    ensures r.sent == [request] && r.output == None
    ensures r.code == 0 <==> Response(x, test).Some? && Classify(Response(x, test).value).Success?
    ensures r.code != 0 ==> r.code == -1
  {
    match Response(x, test)
    case None => Call([request], -1, None)
    case Some(e) => Call([request], FirstCharCheck(e, -1), None)
  }

  /**
   * The operations that do not check the status: 0 exactly when the
   * response arrived, which is then the output when `keep` is set.
   */
  function Unchecked(request: string, test: SendTest, x: Exchange, keep: bool): (r: Call<Entity>)
    ensures r.sent == [request]
    ensures r.code == 0 <==> Response(x, test).Some?
    ensures r.code != 0 ==> r.code == -1
    ensures r.output.Some? <==> keep && r.code == 0
    ensures r.output.Some? ==> r.output.value == x.reply.entity
  {
    match Response(x, test)
    case None => Call([request], -1, None)
    case Some(e) => Call([request], 0, if keep then Some(e) else None)
  }

  // ---------------------------------------------------------------------
  // Authentication

  /**
   * authenticate: a nonzero send result is returned as it is; a failed read
   * gives -1; then 0 for a '2' status, 2 for another status, -1 for none.
   */
  function Authenticate(username: string, password: string, x: Exchange): (r: Call<()>)
    ensures r.sent == [AuthenticateRequest(username, password)]
    ensures x.sent != 0 ==> r.code == x.sent
    ensures x.sent == 0 ==>
              (r.code == 0 <==> x.reply.Read? && Classify(x.reply.entity).Success?)
              && (r.code == 2 <==> x.reply.Read? && Classify(x.reply.entity).Failure?)
              && (r.code == -1 <==> x.reply.ReadFailed? || Classify(x.reply.entity).Missing?)
  {
    var request := AuthenticateRequest(username, password);
    if x.sent != 0 then Call([request], x.sent, None)
    else match x.reply
      case ReadFailed(_) => Call([request], -1, None)
      case Read(e, _) => Call([request], FirstCharCheck(e, 2), None)
  }

  /**
   * The credentials env_authenticate takes from the environment: the user
   * from OPENVAS_TEST_USER, else from USER; the password from
   * OPENVAS_TEST_PASSWORD.
   */
  function EnvCredentials(env: map<string, string>): (r: Option<(string, string)>)
    ensures r.Some? <==> ("OPENVAS_TEST_USER" in env || "USER" in env) && "OPENVAS_TEST_PASSWORD" in env
    ensures r.Some? ==> r.value.1 == env["OPENVAS_TEST_PASSWORD"]
    ensures r.Some? && "OPENVAS_TEST_USER" in env ==> r.value.0 == env["OPENVAS_TEST_USER"]
    ensures r.Some? && "OPENVAS_TEST_USER" !in env ==> r.value.0 == env["USER"]
  {
    var user := if "OPENVAS_TEST_USER" in env then Some(env["OPENVAS_TEST_USER"])
                else if "USER" in env then Some(env["USER"]) else None;
    if user.None? || "OPENVAS_TEST_PASSWORD" !in env then None
    else Some((user.value, env["OPENVAS_TEST_PASSWORD"]))
  }

  /** env_authenticate: -1 without sending anything when a variable is missing, otherwise authenticate. */
  function EnvAuthenticate(env: map<string, string>, x: Exchange): (r: Call<()>)
    ensures EnvCredentials(env).None? ==> r == Call([], -1, None)
    ensures EnvCredentials(env).Some? ==> r == Authenticate(EnvCredentials(env).value.0, EnvCredentials(env).value.1, x)
  {
    match EnvCredentials(env)
    case None => Call([], -1, None)
    case Some((user, password)) => Authenticate(user, password, x)
  }

  // ---------------------------------------------------------------------
  // Creating tasks

  /**
   * The result of omp_create_task and create_task: 0 with the text of the
   * response's first task_id child as the new id, -1 otherwise.
   */
  function Created(request: string, x: Exchange): (r: Call<string>)
    ensures r.sent == [request]
    ensures r.code == 0 <==> r.output.Some?
    ensures r.code != 0 ==> r.code == -1
    ensures r.output.Some? <==>
              x.sent == 0 && x.reply.Read? && EntityChild(x.reply.entity, "task_id").Some?
    ensures r.output.Some? ==> r.output.value == EntityChild(x.reply.entity, "task_id").value.text
  {
    match Response(x, FailsOnNonzero)
    case None => Call([request], -1, None)
    case Some(e) =>
      match EntityChild(e, "task_id")
      case None => Call([request], -1, None)
      case Some(child) => Call([request], 0, Some(child.text))
  }

  /** omp_create_task */
  function OmpCreateTask(name: string, config: string, target: string, comment: string, x: Exchange): (r: Call<string>)
    ensures r.sent == [OmpCreateTaskRequest(config, target, name, comment)]
    ensures r.code == 0 <==> x.sent == 0 && x.reply.Read? && EntityChild(x.reply.entity, "task_id").Some?
  {
    Created(OmpCreateTaskRequest(config, target, name, comment), x)
  }

  /** create_task as written: the rcfile field is empty whenever strlen of the buffer is 0. */
  function CreateTask(config: seq<Byte>, name: string, comment: string, x: Exchange): (r: Call<string>)
    ensures r.sent == [CreateTaskRequest(PayloadFieldAsWritten(config), name, comment)]
    ensures r.code == 0 <==> x.sent == 0 && x.reply.Read? && EntityChild(x.reply.entity, "task_id").Some?
  {
    Created(CreateTaskRequest(PayloadFieldAsWritten(config), name, comment), x)
  }

  /** create_task with the rcfile field as intended: empty only for an empty buffer. */
  function CreateTaskCorrected(config: seq<Byte>, name: string, comment: string, x: Exchange): (r: Call<string>)
    ensures r.sent == [CreateTaskRequest(PayloadField(config), name, comment)]
    ensures r.code == 0 <==> x.sent == 0 && x.reply.Read? && EntityChild(x.reply.entity, "task_id").Some?
  {
    Created(CreateTaskRequest(PayloadField(config), name, comment), x)
  }

  /** As written, a buffer whose first octet is NUL is sent as an empty rcfile element. */
  lemma CreateTaskLosesPayload(name: string, comment: string, x: Exchange)
    ensures var config: seq<Byte> := [0, 65];
      CreateTask(config, name, comment, x).sent == [CreateTaskRequest("", name, comment)]
      && CreateTaskCorrected(config, name, comment, x).sent == [CreateTaskRequest(Encode(config), name, comment)]
  {
    PayloadFieldAsWrittenLoses();
  }

  /** Both agree on every buffer that does not start with a NUL octet. */
  lemma CreateTaskAgrees(config: seq<Byte>, name: string, comment: string, x: Exchange)
    requires config == [] || config[0] != 0
    ensures CreateTask(config, name, comment, x) == CreateTaskCorrected(config, name, comment, x)
  {
    PayloadFieldAgrees(config);
  }

  /** create_task_from_rc_file: -1 without sending when the file cannot be read. */
  function CreateTaskFromRcFile(file: Option<seq<Byte>>, name: string, comment: string, x: Exchange): (r: Call<string>)
    ensures file.None? ==> r == Call([], -1, None)
    ensures file.Some? ==> r == CreateTask(file.value, name, comment, x)
  {
    match file
    case None => Call([], -1, None)
    case Some(config) => CreateTask(config, name, comment, x)
  }

  /** create_task_from_rc_file over the corrected create_task. */
  function CreateTaskFromRcFileCorrected(file: Option<seq<Byte>>, name: string, comment: string, x: Exchange): (r: Call<string>)
    ensures file.None? ==> r == Call([], -1, None)
    ensures file.Some? ==> r == CreateTaskCorrected(file.value, name, comment, x)
  {
    match file
    case None => Call([], -1, None)
    case Some(config) => CreateTaskCorrected(config, name, comment, x)
  }

  /** The status of the response plays no part in creating a task: only the task_id child does. */
  lemma CreatedIgnoresStatus(request: string, sent: int, e: Entity, attributes: Option<map<string, string>>)
    ensures Created(request, Exchange(sent, Read(e, None))).code
            == Created(request, Exchange(sent, Read(e.(attributes := attributes), None))).code
  {
    var e' := e.(attributes := attributes);
    assert EntityChild(e, "task_id") == EntityChild(e', "task_id");
  }

  // ---------------------------------------------------------------------
  // Operations that check the first character of the status

  /** start_task */
  function StartTask(id: string, x: Exchange): (r: Call<()>)
    ensures r.sent == [StartTaskRequest(id)]
    ensures r.code == 0 <==> x.sent != -1 && x.reply.Read? && Classify(x.reply.entity).Success?
    ensures r.code != 0 ==> r.code == -1
  {
    Checked(StartTaskRequest(id), FailsOnMinusOne, x)
  }

  /** delete_task */
  function DeleteTask(id: string, x: Exchange): (r: Call<()>)
    ensures r.sent == [DeleteTaskRequest(id)]
    ensures r.code == 0 <==> x.sent != -1 && x.reply.Read? && Classify(x.reply.entity).Success?
    ensures r.code != 0 ==> r.code == -1
  {
    Checked(DeleteTaskRequest(id), FailsOnMinusOne, x)
  }

  /** omp_create_target */
  function OmpCreateTarget(name: string, hosts: string, comment: Option<string>, x: Exchange): (r: Call<()>)
    ensures r.sent == [CreateTargetRequest(name, hosts, comment)]
    ensures r.code == 0 <==> x.sent == 0 && x.reply.Read? && Classify(x.reply.entity).Success?
    ensures r.code != 0 ==> r.code == -1
  {
    Checked(CreateTargetRequest(name, hosts, comment), FailsOnNonzero, x)
  }

  /** omp_delete_target */
  function OmpDeleteTarget(name: string, x: Exchange): (r: Call<()>)
    ensures r.sent == [DeleteTargetRequest(name)]
    ensures r.code == 0 <==> x.sent == 0 && x.reply.Read? && Classify(x.reply.entity).Success?
    ensures r.code != 0 ==> r.code == -1
  {
    Checked(DeleteTargetRequest(name), FailsOnNonzero, x)
  }

  /** omp_create_config as written: the rcfile field is empty whenever strlen of the buffer is 0. */
  function OmpCreateConfig(name: string, comment: Option<string>, config: seq<Byte>, x: Exchange): (r: Call<()>)
    ensures r.sent == [CreateConfigRequest(name, comment, PayloadFieldAsWritten(config))]
    ensures r.code == 0 <==> x.sent == 0 && x.reply.Read? && Classify(x.reply.entity).Success?
    ensures r.code != 0 ==> r.code == -1
  {
    Checked(CreateConfigRequest(name, comment, PayloadFieldAsWritten(config)), FailsOnNonzero, x)
  }

  /** omp_create_config with the rcfile field as intended: empty only for an empty buffer. */
  function OmpCreateConfigCorrected(name: string, comment: Option<string>, config: seq<Byte>, x: Exchange): (r: Call<()>)
    ensures r.sent == [CreateConfigRequest(name, comment, PayloadField(config))]
    ensures r.code == 0 <==> x.sent == 0 && x.reply.Read? && Classify(x.reply.entity).Success?
    ensures r.code != 0 ==> r.code == -1
  {
    Checked(CreateConfigRequest(name, comment, PayloadField(config)), FailsOnNonzero, x)
  }

  /** As written, a buffer whose first octet is NUL is sent as an empty rcfile element. */
  lemma OmpCreateConfigLosesPayload(name: string, comment: Option<string>, x: Exchange)
    ensures var config: seq<Byte> := [0, 65];
      OmpCreateConfig(name, comment, config, x).sent == [CreateConfigRequest(name, comment, "")]
      && OmpCreateConfigCorrected(name, comment, config, x).sent == [CreateConfigRequest(name, comment, Encode(config))]
  {
    PayloadFieldAsWrittenLoses();
  }

  /** Both agree on every buffer that does not start with a NUL octet. */
  lemma OmpCreateConfigAgrees(name: string, comment: Option<string>, config: seq<Byte>, x: Exchange)
    requires config == [] || config[0] != 0
    ensures OmpCreateConfig(name, comment, config, x) == OmpCreateConfigCorrected(name, comment, config, x)
  {
    PayloadFieldAgrees(config);
  }

  /** omp_create_config_from_rc_file: -1 without sending when the file cannot be read. */
  function OmpCreateConfigFromRcFile(name: string, comment: Option<string>, file: Option<seq<Byte>>, x: Exchange): (r: Call<()>)
    ensures file.None? ==> r == Call([], -1, None)
    ensures file.Some? ==> r == OmpCreateConfig(name, comment, file.value, x)
  {
    match file
    case None => Call([], -1, None)
    case Some(config) => OmpCreateConfig(name, comment, config, x)
  }

  /** omp_create_config_from_rc_file over the corrected omp_create_config. */
  function OmpCreateConfigFromRcFileCorrected(name: string, comment: Option<string>, file: Option<seq<Byte>>, x: Exchange): (r: Call<()>)
    ensures file.None? ==> r == Call([], -1, None)
    ensures file.Some? ==> r == OmpCreateConfigCorrected(name, comment, file.value, x)
  {
    match file
    case None => Call([], -1, None)
    case Some(config) => OmpCreateConfigCorrected(name, comment, config, x)
  }

  /** omp_delete_config */
  function OmpDeleteConfig(name: string, x: Exchange): (r: Call<()>)
    ensures r.sent == [DeleteConfigRequest(name)]
    ensures r.code == 0 <==> x.sent == 0 && x.reply.Read? && Classify(x.reply.entity).Success?
    ensures r.code != 0 ==> r.code == -1
  {
    Checked(DeleteConfigRequest(name), FailsOnNonzero, x)
  }

  /**
   * delete_task and omp_delete_task send the same request but test the send
   * differently: a send result of 1 stops only omp_delete_task.
   */
  lemma DeleteTaskSendTests(id: string, e: Entity)
    requires Classify(e).Success?
    ensures DeleteTask(id, Exchange(1, Read(e, None))).code == 0
    ensures OmpDeleteTask(id, Exchange(1, Read(e, None))).code == -1
  {
  }

  // ---------------------------------------------------------------------
  // Operations that do not check the status

  /** omp_get_report: the response is the output, whatever its status. */
  function OmpGetReport(id: string, x: Exchange): (r: Call<Entity>)
    ensures r.sent == [GetReportRequest(id)]
    ensures r.code == 0 <==> x.sent == 0 && x.reply.Read?
    ensures r.code != 0 ==> r.code == -1
    ensures r.output.Some? <==> r.code == 0
  {
    Unchecked(GetReportRequest(id), FailsOnNonzero, x, true)
  }

  /** omp_delete_report */
  function OmpDeleteReport(id: string, x: Exchange): (r: Call<Entity>)
    ensures r.sent == [DeleteReportRequest(id)]
    ensures r.code == 0 <==> x.sent == 0 && x.reply.Read?
    ensures r.code != 0 ==> r.code == -1
    ensures r.output.None?
  {
    Unchecked(DeleteReportRequest(id), FailsOnNonzero, x, false)
  }

  /** omp_delete_task */
  function OmpDeleteTask(id: string, x: Exchange): (r: Call<Entity>)
    ensures r.sent == [DeleteTaskRequest(id)]
    ensures r.code == 0 <==> x.sent == 0 && x.reply.Read?
    ensures r.code != 0 ==> r.code == -1
    ensures r.output.None?
  {
    Unchecked(DeleteTaskRequest(id), FailsOnNonzero, x, false)
  }

  /** omp_get_preferences: the response is the output, whatever its status. */
  function OmpGetPreferences(x: Exchange): (r: Call<Entity>)
    ensures r.sent == [GetPreferencesRequest]
    ensures r.code == 0 <==> x.sent == 0 && x.reply.Read?
    ensures r.code != 0 ==> r.code == -1
    ensures r.output.Some? <==> r.code == 0
  {
    Unchecked(GetPreferencesRequest, FailsOnNonzero, x, true)
  }

  /** A response with a failing status counts as success for the operations that do not check it. */
  lemma UncheckedIgnoresStatus(request: string, test: SendTest, sent: int, e: Entity, keep: bool)
    requires !SendFails(test, sent)
    requires Classify(e).Failure?
    ensures Unchecked(request, test, Exchange(sent, Read(e, None)), keep).code == 0
    ensures Checked(request, test, Exchange(sent, Read(e, None))).code == -1
  {
  }

  /**
   * omp_modify_task: each piece is a send of its own, tested for nonzero;
   * the first failing send (`failAt`, counted from 0) ends the operation
   * with -1. After the last piece the response is read and its status not
   * checked.
   */
  function OmpModifyTask(id: string, rcfile: Option<seq<Byte>>, name: Option<string>, comment: Option<string>,
                         failAt: Option<nat>, reply: ReadOutcome): (r: Call<()>)
    ensures var pieces := ModifyTaskPieces(id, rcfile, name, comment);
      if failAt.Some? && failAt.value < |pieces| then r.sent == pieces[..failAt.value + 1] && r.code == -1
      else r.sent == pieces && (r.code == 0 <==> reply.Read?) && (r.code != 0 ==> r.code == -1)
  {
    var pieces := ModifyTaskPieces(id, rcfile, name, comment);
    if failAt.Some? && failAt.value < |pieces| then Call(pieces[..failAt.value + 1], -1, None)
    else if reply.Read? then Call(pieces, 0, None)
    else Call(pieces, -1, None)
  }

  // ---------------------------------------------------------------------
  // Operations that return the numeric status

  /** omp_get_status as written: a status without a leading number other than '2...' gives 0. */
  function OmpGetStatusAsWritten(id: Option<string>, includeRcfile: int, x: Exchange): (r: Call<Entity>)
    ensures r.sent == [OmpGetStatusRequest(id, includeRcfile)]
    ensures Response(x, FailsOnMinusOne).None? ==> r.code == -1
    ensures Response(x, FailsOnMinusOne).Some? ==> r.code == StatusCodeAsWritten(x.reply.entity)
    ensures r.output.Some? <==> Response(x, FailsOnMinusOne).Some? && Classify(x.reply.entity).Success?
  {
    var request := OmpGetStatusRequest(id, includeRcfile);
    match Response(x, FailsOnMinusOne)
    case None => Call([request], -1, None)
    case Some(e) => Call([request], StatusCodeAsWritten(e), if Classify(e).Success? then Some(e) else None)
  }

  /**
   * omp_get_status as documented: 0 with the response as output exactly on
   * a '2' status, otherwise -1 or the status number.
   */
  function OmpGetStatus(id: Option<string>, includeRcfile: int, x: Exchange): (r: Call<Entity>)
    ensures r.sent == [OmpGetStatusRequest(id, includeRcfile)]
    ensures r.code == 0 <==> x.sent != -1 && x.reply.Read? && Classify(x.reply.entity).Success?
    ensures r.output.Some? <==> r.code == 0
    ensures r.output.Some? ==> r.output.value == x.reply.entity
    ensures Response(x, FailsOnMinusOne).Some? ==> r.code == StatusCode(x.reply.entity)
  {
    var request := OmpGetStatusRequest(id, includeRcfile);
    match Response(x, FailsOnMinusOne)
    case None => Call([request], -1, None)
    case Some(e) => Call([request], StatusCode(e), if Classify(e).Success? then Some(e) else None)
  }

  /** omp_get_certificates as written: the preferences request, and the numeric status as written. */
  function OmpGetCertificatesAsWritten(x: Exchange): (r: Call<Entity>)
    ensures r.sent == [GetPreferencesRequest]
    ensures Response(x, FailsOnNonzero).None? ==> r.code == -1
    ensures Response(x, FailsOnNonzero).Some? ==> r.code == StatusCodeAsWritten(x.reply.entity)
    ensures r.output.Some? <==> Response(x, FailsOnNonzero).Some? && Classify(x.reply.entity).Success?
  {
    GetCertificatesAsksForPreferences();
    match Response(x, FailsOnNonzero)
    case None => Call([GetCertificatesRequestAsWritten], -1, None)
    case Some(e) => Call([GetCertificatesRequestAsWritten], StatusCodeAsWritten(e), if Classify(e).Success? then Some(e) else None)
  }

  /** omp_get_certificates as documented: it asks for the certificates. */
  function OmpGetCertificates(x: Exchange): (r: Call<Entity>)
    ensures r.sent == [GetCertificatesRequest]
    ensures r.code == 0 <==> x.sent == 0 && x.reply.Read? && Classify(x.reply.entity).Success?
    ensures r.output.Some? <==> r.code == 0
    ensures r.output.Some? ==> r.output.value == x.reply.entity
    ensures Response(x, FailsOnNonzero).Some? ==> r.code == StatusCode(x.reply.entity)
  {
    match Response(x, FailsOnNonzero)
    case None => Call([GetCertificatesRequest], -1, None)
    case Some(e) => Call([GetCertificatesRequest], StatusCode(e), if Classify(e).Success? then Some(e) else None)
  }

  /** A 400 response to omp_get_status is "abc" away from being reported as success by the code as written. */
  lemma OmpGetStatusAsWrittenNonNumeric(id: Option<string>, includeRcfile: int)
    ensures var e := Entity("get_status_response", "", Some(map["status" := "abc"]), []);
      var x := Exchange(0, Read(e, None));
      OmpGetStatusAsWritten(id, includeRcfile, x).code == 0
      && OmpGetStatusAsWritten(id, includeRcfile, x).output.None?
      && OmpGetStatus(id, includeRcfile, x).code == -1
  {
    StatusCodeAsWrittenNonNumeric();
  }

  /** Both readings agree whenever the failing status is a number other than 0. */
  lemma OmpGetStatusAgrees(id: Option<string>, includeRcfile: int, x: Exchange)
    requires x.reply.Read? && Classify(x.reply.entity).Failure? ==> Strtol(Classify(x.reply.entity).status) != 0
    ensures OmpGetStatus(id, includeRcfile, x) == OmpGetStatusAsWritten(id, includeRcfile, x)
  {
    if x.reply.Read? {
      StatusCodeAgrees(x.reply.entity);
    }
  }
}
