# OMP client core, modelled in Dafny

This project models the client side of the OpenVAS Management Protocol (OMP)
in the openvas-libraries repository, in three parts.

- **The XML entity tree (`omp/xml.c`).**
  - An entity has a name, an accumulated text, an attribute table that may be
    absent (`None`, distinct from an empty table) and an ordered list of
    children.
  - The value `Xml.Entity` is the tree that callers of `read_entity` receive.
  - While a response is parsed, the entities are objects changed in place:
    `XmlHeap.EntityHeap` is an arena of entity records. A handle is an index
    into the arena and stands for an `entity_t` pointer.
  - The three GMarkup callbacks act on `XmlBuild.Context`, which holds the
    `current`/`first`/`done` of `context_data_t`.
  - The builder is proved to agree with `XmlBuild.Reading`, a value-level
    reading of the same events. The invariant is `XmlBuild.Corresponds`.
  - `read_entity_and_text` is `XmlRead.ReadEntityAndText`, a nested loop over
    a script of receive results. It is proved equal to the recursive
    specification `XmlRead.ReadSpec`, and the result codes are proved about
    that specification.
- **The OMP operations (`omp/omp.c`).**
  - Status classification is in `OmpStatus`, including the `strtol` reading of
    numeric codes.
  - The request strings are in `OmpRequests`. Every request that is sent
    whole and carries only elements (authenticate, both create_task
    requests, create_target, delete_target, create_config, delete_config) is
    proved to be exactly how `print_entity` prints the corresponding element
    tree. The requests that carry attributes are proved to be empty-element
    tags whose attributes are written as `print_entity` writes them.
  - The base64 encoding of configuration payloads is in `Base64`, with a
    decoder and a round-trip proof.
  - The single-exchange operations are functions in `OmpOps`, over the send
    result and what `read_entity` produced.
  - The polling loops are methods in `OmpWait`, over a script of exchanges:
    the four `wait_for_task_*` loops, the `DO_CHILDREN` task scan and
    `omp_until_up`.
- **The credentials record (`base/credentials.c`).** It is the class
  `Credentials.Credentials`, whose methods reset or extend its fields in place.

Values are inserted into requests verbatim, without XML escaping, as the C
format strings do.

## Model

| member | source | states |
|---|---|---|
| Xml.MakeEntity | omp/xml.c:73-82 | a missing name or text becomes "", and a new entity has no children and no attribute table |
| Xml.Lookup | omp/xml.c:251-256 | the value is found exactly when a table exists and has the name; otherwise the result is NULL |
| Xml.EntityAttribute | omp/xml.c:251-256 | NULL when the table is absent or lacks the name, otherwise the stored value |
| Xml.Upsert | omp/xml.c:146-152 | afterwards the table exists, the name maps to the newest value, and every other name keeps its old value |
| Xml.AddAttributes | omp/xml.c:281-298 | without a single pair the table is left as it was, absent included; with at least one pair a table exists |
| Xml.InsertPairsLookup | omp/xml.c:288-296 | after the pairs are inserted in order, a name has the value of the last pair naming it; names in no pair keep their earlier value |
| Xml.FirstNamed | omp/xml.c:216-240 | the index of the first child whose name is byte-equal; no earlier child has that name; none when no child has it |
| Xml.EntityChild | omp/xml.c:230-240 | the first direct child with that exact name; NULL exactly when no direct child has it |
| Xml.CompareEntities | omp/xml.c:625-669 | the result is 0 or 1, as written: an absent table short-circuits the comparison (see Findings) |
| Xml.CompareEntitiesMeansMatches | omp/xml.c:625-669 | the comparison returns 0 exactly when the declarative one-directional match `Matches` holds (same names and texts, first table contained in the second, children matched pairwise with equal counts) |
| Xml.CompareChildrenMeansMatches | omp/xml.c:651-668 | the walk over both child lists returns 0 exactly when the counts are equal and the children match pairwise |
| Xml.CompareEntitiesReflexive | omp/xml.c:625-669 | every entity compares equal to itself |
| Xml.CompareEntitiesNotSymmetric | omp/xml.c:608-614 | the attribute check is one-directional: an empty table against a non-empty one gives 0 one way and 1 the other |
| Xml.CompareEntitiesIgnoresPlainEntities | omp/xml.c:629 | two entities without tables but with different names, texts and children compare equal in both orders |
| Xml.CompareEntitiesCorrected | omp/xml.c:625-669 | the comparison with the absent-table short-circuit removed; the result is 0 or 1 |
| Xml.CompareEntitiesCorrectedBothWays | omp/xml.c:625-669 | with the correction, two entities compare equal in both orders exactly when they are the same tree |
| Xml.CompareEntitiesCorrectedReflexive | omp/xml.c:625-669 | the corrected comparison is reflexive |
| Xml.CompareEntitiesCorrectedAgrees | omp/xml.c:625-669 | on trees whose every entity has a table, the corrected and the written comparison give the same result |
| Xml.PrintPlain | omp/xml.c:572-584 | an entity with no table or an empty one prints as its open tag, text, children in order and close tag |
| Xml.PrintSingleAttribute | omp/xml.c:560-584 | an entity with one attribute prints it as ` name="value"` inside the open tag, whatever the hash-table order |
| Xml.AbsentAndEmptyTables | omp/xml.c:574-629 | an absent and an empty table print the same, yet compare_entities tells them apart in both orders |
| XmlHeap.AppendChild | omp/xml.c:126-132 | the parent's child list gains the child at its end; every other record is unchanged |
| XmlHeap.ForestAppend | omp/xml.c:126-132 | appending a handle to a child list appends its tree to the children read back, after the earlier ones in order |
| XmlHeap.TreeFrame | omp/xml.c:126-132 | a tree depends only on the records it reaches, so allocating or changing other entities leaves it alone |
| XmlHeap.EntityHeap.constructor | omp/xml.c:437-439 | the heap starts with no entities |
| XmlHeap.EntityHeap.AddEntity | omp/xml.c:126-132 | allocates a record made by make_entity; with a parent it becomes the parent's last child and nothing else changes; without one it stays detached |
| XmlHeap.EntityHeap.AddAttribute | omp/xml.c:146-152 | only the given entity's table changes, by an upsert of the pair |
| XmlHeap.EntityHeap.AddAttributes | omp/xml.c:281-298 | the loop leaves the entity's table equal to `Xml.AddAttributes` of the old table; no other entity changes |
| XmlBuild.Opened | omp/xml.c:311-328 | a start event makes an entity with the element name, empty text, no children and the attributes add_attributes gives |
| XmlBuild.StartNodes | omp/xml.c:318-326 | a start event allocates exactly one new record, the new entity's |
| XmlBuild.TextNodes | omp/xml.c:375-386 | a text event appends the chunk to the innermost open entity's text and never replaces it |
| XmlBuild.Context.constructor | omp/xml.c:437-439 | nothing is open, no first entity, done unset |
| XmlBuild.Context.HandleStart | omp/xml.c:311-335 | the new entity is the last child of the stack top, or detached on an empty stack; the first entity is remembered once; the entity is pushed; done is unchanged |
| XmlBuild.Context.HandleText | omp/xml.c:375-386 | only the innermost open entity's text changes, by concatenation |
| XmlBuild.Context.HandleEnd | omp/xml.c:346-363 | pops the stack; done becomes set exactly when the first entity is popped; the heap is unchanged |
| XmlBuild.ApplyAllStuck | omp/xml.c:495-507 | once an event cannot be delivered, no longer event list can be |
| XmlBuild.ApplyAllKeepsRoot | omp/xml.c:508-520 | once the first top-level entity has closed, later events never change it |
| XmlBuild.InitialCorresponds | omp/xml.c:437-439 | the empty builder agrees with the empty reading |
| XmlBuild.TextCorresponds | omp/xml.c:375-386 | a text event keeps the heap builder and the reading in agreement |
| XmlBuild.StartCorresponds | omp/xml.c:311-335 | a start event keeps the heap builder and the reading in agreement |
| XmlBuild.EndCorresponds | omp/xml.c:346-363 | a deliverable end event keeps them in agreement; when the root is popped its name equals the closing name, and its tree is the reading's root |
| XmlRead.ReadFrom | omp/xml.c:449-523 | the loop consumes at least one receive result whenever it returns, and never reads past the script |
| XmlRead.ReadSpec | omp/xml.c:416-524 | the whole read consumes at most the script |
| XmlRead.DispatchStart | omp/xml.c:311-335 | a start event is always handled, and the builder then agrees with the reading after it |
| XmlRead.DispatchText | omp/xml.c:375-386 | text is handled exactly when an entity is open, and the builder then agrees with the reading after it |
| XmlRead.DispatchEnd | omp/xml.c:346-363 | an end event is handled exactly when it closes the innermost open entity, and the builder then agrees with the reading after it |
| XmlRead.Dispatch | omp/xml.c:311-386 | the handler for an event runs exactly when the tokenizer can deliver it, and then the builder agrees with the reading after that event |
| XmlRead.FeedEvents | omp/xml.c:495-498 | a chunk's events are accepted exactly when all of them can be delivered in order, and the builder then agrees with the reading after them |
| XmlRead.ChunkStep | omp/xml.c:493-520 | a chunk leaves the read going only while the first entity is still open; any failure on a chunk is a parse error (-2); success carries the text of everything received when asked for |
| XmlRead.FeedChunk | omp/xml.c:493-520 | handling one chunk in the heap builder gives exactly ChunkStep's outcome, and keeps the builder in agreement with the reading when the read goes on |
| XmlRead.ReadEntityAndText | omp/xml.c:416-524 | the nested read loop produces exactly the outcome and the number of receive results of `ReadSpec`; on success the entity is the first top-level entity's tree read from the heap |
| XmlRead.ReadEntity | omp/xml.c:535-538 | read_entity is the read without the text |
| XmlRead.ReadFromOutcomes | omp/xml.c:449-523 | interrupted and rehandshake results retry; -1 exactly for a receive error; -3 exactly for end of file; every other failure is -2; success ends on a chunk, with the text of every chunk received when asked for |
| XmlRead.ReadOutcomes | omp/xml.c:416-524 | the outcome codes of a whole read, as in ReadFromOutcomes |
| XmlRead.ReadFromTextIndependent | omp/xml.c:493-520 | asking for the text changes neither the code, nor the entity, nor the results consumed |
| XmlRead.ReadEntityAgrees | omp/xml.c:535-538 | read_entity and read_entity_and_text agree on everything but the text |
| XmlRead.ReadFromPrefix | omp/xml.c:449-523 | the outcome depends only on the receive results consumed |
| XmlRead.ReadPrefix | omp/xml.c:416-524 | a whole read depends only on the receive results it consumed |
| Base64.Value | omp/omp.c:282-284 | a character that decodes gives a 6-bit value whose symbol is that character |
| Base64.ValueOfSymbol | omp/omp.c:282-284 | every 6-bit value's symbol decodes to that value and is never the padding '=' |
| Base64.Encode | omp/omp.c:282-284 | the encoding has four characters for every started group of three octets |
| Base64.RoundTrip | omp/omp.c:282-284 | decoding the encoding of any buffer gives the buffer back |
| Base64.EncodeAlphabet | omp/omp.c:282-284 | the encoding uses only the 64-character alphabet, with '=' only in the last two places |
| OmpStatus.Status | omp/omp.c:158 | the status is found exactly when the table exists and has a status attribute |
| OmpStatus.Classify | omp/omp.c:158-172 | absent or empty status is Missing; a first character '2' is Success; anything else is a Failure that carries the status |
| OmpStatus.FirstCharCheck | omp/omp.c:158-172 | -1 for a missing status, 0 for success, and the operation's own code otherwise (2 in authenticate, -1 elsewhere) |
| OmpStatus.SkipSpace | omp/omp.c:858 | strtol skips the leading white space and stops at the first other character |
| OmpStatus.DigitPrefix | omp/omp.c:858 | the digits strtol reads: the longest all-digit prefix |
| OmpStatus.Strtol | omp/omp.c:858 | strtol gives a negative number only after a minus sign, and 0 for a string of white space only |
| OmpStatus.IntDecimal | omp/omp.c:824-834 | %i writes a minus sign exactly for a negative number, followed by decimal digits only |
| OmpStatus.StrtolIntDecimal | omp/omp.c:858 | strtol reads back every int that %i writes |
| OmpStatus.StrtolNoDigits | omp/omp.c:858 | with no digit after the white space and sign, strtol gives 0 |
| OmpStatus.StatusCodeAsWritten | omp/omp.c:846-861 | as written: -1 for a missing status, 0 for a '2', otherwise strtol of the status |
| OmpStatus.StatusCodeAsWrittenNonNumeric | omp/omp.c:855-861 | as written, a failing status "abc" gives 0, the success code |
| OmpStatus.StatusCode | omp/omp.c:846-861 | the documented code: 0 exactly for a '2' status; -1 for a missing status; otherwise the status number, or -1 when it is not a nonzero number |
| OmpStatus.StatusCodeAgrees | omp/omp.c:846-861 | both readings agree whenever a failing status reads as a nonzero number |
| OmpStatus.StatusCodeOfNumber | omp/omp.c:858-861 | a failing status written as a nonzero number comes back as that number under both readings |
| OmpRequests.PrintFieldElement | omp/xml.c:572-584 | an element made of text-only children prints as its tags around each child's tags in order |
| OmpRequests.CString | omp/omp.c:282 | the octets strlen counts: the prefix before the first NUL, containing no NUL |
| OmpRequests.PayloadFieldAsWritten | omp/omp.c:282-284 | as written: an empty field when strlen is 0, otherwise the encoding of all config_len octets |
| OmpRequests.PayloadFieldAsWrittenLoses | omp/omp.c:282-284 | as written, the two-octet buffer 0, 65 is sent as an empty field and cannot be decoded back |
| OmpRequests.PayloadField | omp/omp.c:282-284 | the corrected field is empty exactly for an empty buffer, and always decodes back to the buffer |
| OmpRequests.PayloadFieldAgrees | omp/omp.c:282-284 | both fields agree unless the buffer starts with a NUL octet |
| OmpRequests.RcfileText | omp/omp.c:961-974 | omp_modify_task's rcfile text decodes back to the C string of the rcfile |
| OmpRequests.AuthenticateRequestTree | omp/omp.c:141-145 | the authenticate request prints the credentials element, holding the username and password elements, inside an authenticate element |
| OmpRequests.OmpCreateTaskRequestTree | omp/omp.c:225-235 | the request of omp_create_task prints a create_task element with config, target, name and comment in that order |
| OmpRequests.CreateTaskRequestTree | omp/omp.c:289-296 | for any rcfile field text, the request of create_task prints a create_task element with rcfile, name and comment in that order |
| OmpRequests.StartTaskRequest | omp/omp.c:378 | start_task is an empty element whose only attribute is the task_id |
| OmpRequests.TaskStatusRequest | omp/omp.c:745 | the poll of wait_for_task_delete is an empty get_status element whose only attribute is the task_id |
| OmpRequests.DeleteTaskRequest | omp/omp.c:774 | delete_task is an empty element whose only attribute is the task_id |
| OmpRequests.DeleteReportRequest | omp/omp.c:902 | delete_report is an empty element whose only attribute is the report_id |
| OmpRequests.RequestsIdentifyTheirId | omp/omp.c:378-927 | the start_task, delete_task, get_status, get_report (nbe format) and delete_report requests each name one id: different ids give different requests |
| OmpRequests.OmpGetStatusRequest | omp/omp.c:821-836 | the task_id attribute appears only when an id is given; rcfile is always the decimal flag |
| OmpRequests.ModifyTaskFields | omp/omp.c:959-983 | one field per given value among rcfile, name and comment, in that order |
| OmpRequests.ModifyTaskPieces | omp/omp.c:956-985 | two sends more than there are given fields |
| OmpRequests.ModifyTaskSends | omp/omp.c:956-985 | everything sent is the opening tag with the task id, each given field, nothing for an absent one, and the closing tag |
| OmpRequests.GetCertificatesAsksForPreferences | omp/omp.c:1033 | omp_get_certificates sends the preferences request, not a certificates request |
| OmpRequests.CreateTargetRequestTree | omp/omp.c:1103-1118 | the create_target element holds name and hosts, and a comment element only when a comment is given |
| OmpRequests.DeleteTargetRequestTree | omp/omp.c:1169-1172 | the delete_target request prints a delete_target element holding the name element |
| OmpRequests.CreateConfigRequestTree | omp/omp.c:1231-1246 | for any rcfile field text, the create_config element holds name, a comment only when given, then the rcfile |
| OmpRequests.DeleteConfigRequestTree | omp/omp.c:1340-1343 | the delete_config request prints a delete_config element holding the name element |
| OmpOps.Response | omp/omp.c:376-384 | there is a response exactly when the send passes the operation's test and the read succeeds |
| OmpOps.Checked | omp/omp.c:375-405 | first-character operations return 0 exactly when a response with a '2' status arrived, otherwise -1 |
| OmpOps.Unchecked | omp/omp.c:874-887 | the unchecked operations return 0 exactly when a response arrived, whatever its status |
| OmpOps.Authenticate | omp/omp.c:130-173 | a nonzero send result is returned as is; otherwise 0 for a '2' status, 2 for another status, -1 for a failed read or no status |
| OmpOps.EnvCredentials | omp/omp.c:186-199 | the user comes from OPENVAS_TEST_USER, else from USER; the password from OPENVAS_TEST_PASSWORD; none unless both are found |
| OmpOps.EnvAuthenticate | omp/omp.c:186-199 | -1 without sending anything when a variable is missing, otherwise authenticate with the environment's credentials |
| OmpOps.Created | omp/omp.c:238-256 | 0 with an id exactly when the response has a direct task_id child, whose text is the id; -1 and no id otherwise |
| OmpOps.OmpCreateTask | omp/omp.c:215-257 | sends the create_task request; succeeds exactly when the response has a task_id child |
| OmpOps.CreateTask | omp/omp.c:273-320 | as written: sends create_task with the rcfile field empty whenever strlen of the buffer is 0, otherwise its base64 encoding; succeeds exactly when the response has a task_id child |
| OmpOps.CreateTaskCorrected | omp/omp.c:273-320 | the same with the rcfile field empty only for an empty buffer, so the field always decodes back to the buffer |
| OmpOps.CreateTaskLosesPayload | omp/omp.c:282-284 | as written, the buffer 0, 65 is sent as an empty rcfile element; the corrected operation sends its encoding |
| OmpOps.CreateTaskAgrees | omp/omp.c:282-284 | both operations agree on every buffer that does not start with a NUL octet |
| OmpOps.CreateTaskFromRcFile | omp/omp.c:334-364 | -1 without sending when the file cannot be read, otherwise create_task as written on its contents |
| OmpOps.CreateTaskFromRcFileCorrected | omp/omp.c:334-364 | the same over the corrected create_task |
| OmpOps.CreatedIgnoresStatus | omp/omp.c:249-256 | the status attribute plays no part in creating a task |
| OmpOps.StartTask | omp/omp.c:375-405 | 0 exactly when the send is not -1, the read succeeds and the status starts with '2'; otherwise -1 |
| OmpOps.DeleteTask | omp/omp.c:771-801 | 0 exactly when the send is not -1, the read succeeds and the status starts with '2'; otherwise -1 |
| OmpOps.OmpCreateTarget | omp/omp.c:1091-1148 | 0 exactly when the send returns 0, the read succeeds and the status starts with '2'; otherwise -1 |
| OmpOps.OmpDeleteTarget | omp/omp.c:1159-1202 | 0 exactly when the send returns 0, the read succeeds and the status starts with '2'; otherwise -1 |
| OmpOps.OmpCreateConfig | omp/omp.c:1216-1277 | as written: sends create_config with the rcfile field empty whenever strlen of the buffer is 0; 0 exactly when the send returns 0, the read succeeds and the status starts with '2'; otherwise -1 |
| OmpOps.OmpCreateConfigCorrected | omp/omp.c:1216-1277 | the same with the rcfile field empty only for an empty buffer |
| OmpOps.OmpCreateConfigLosesPayload | omp/omp.c:1224-1226 | as written, the buffer 0, 65 is sent as an empty rcfile element; the corrected operation sends its encoding |
| OmpOps.OmpCreateConfigAgrees | omp/omp.c:1224-1226 | both operations agree on every buffer that does not start with a NUL octet |
| OmpOps.OmpCreateConfigFromRcFile | omp/omp.c:1290-1319 | -1 without sending when the file cannot be read, otherwise omp_create_config as written on its contents |
| OmpOps.OmpCreateConfigFromRcFileCorrected | omp/omp.c:1290-1319 | the same over the corrected omp_create_config |
| OmpOps.OmpDeleteConfig | omp/omp.c:1330-1373 | 0 exactly when the send returns 0, the read succeeds and the status starts with '2'; otherwise -1 |
| OmpOps.DeleteTaskSendTests | omp/omp.c:773-927 | a send result of 1 stops omp_delete_task but not delete_task |
| OmpOps.OmpGetReport | omp/omp.c:874-887 | 0 with the response as output exactly when the send returns 0 and the read succeeds; the status is not checked |
| OmpOps.OmpDeleteReport | omp/omp.c:898-912 | 0 exactly when the send returns 0 and the read succeeds; the status is not checked |
| OmpOps.OmpDeleteTask | omp/omp.c:923-937 | 0 exactly when the send returns 0 and the read succeeds; the status is not checked |
| OmpOps.OmpGetPreferences | omp/omp.c:1006-1017 | 0 with the response as output exactly when the send returns 0 and the read succeeds; the status is not checked |
| OmpOps.UncheckedIgnoresStatus | omp/omp.c:884 | a response with a failing status gives 0 to the unchecked operations and -1 to the checked ones |
| OmpOps.OmpModifyTask | omp/omp.c:951-995 | the first failing send ends the operation with -1 after the pieces up to it; otherwise all pieces are sent and the result is 0 exactly when the read succeeds |
| OmpOps.OmpGetStatusAsWritten | omp/omp.c:815-862 | as written: -1 without a response, otherwise the status code as written; the response is the output only on a '2' status |
| OmpOps.OmpGetStatus | omp/omp.c:815-862 | 0 with the response as output exactly when a response with a '2' status arrived; otherwise -1 or the status number |
| OmpOps.OmpGetCertificatesAsWritten | omp/omp.c:1028-1057 | as written: sends the preferences request and returns the status code as written |
| OmpOps.OmpGetCertificates | omp/omp.c:1028-1057 | sends the certificates request; 0 with the response exactly on a '2' status; otherwise -1 or the status number |
| OmpOps.OmpGetStatusAsWrittenNonNumeric | omp/omp.c:855-861 | as written, a response with status "abc" gives 0 with no output; the corrected operation gives -1 |
| OmpOps.OmpGetStatusAgrees | omp/omp.c:815-862 | both readings of omp_get_status agree whenever a failing status is a nonzero number |
| OmpWait.Lower | omp/omp.c:466 | tolower changes exactly the upper-case ASCII letters |
| OmpWait.EqualsIgnoringCaseEquivalence | omp/omp.c:466-474 | the strcasecmp test is reflexive, symmetric and transitive; it matches "TASK" with "task" and tells "task" from "tusk" |
| OmpWait.FindTaskFrom | omp/omp.c:465-485 | the scan passes over non-task children and tasks with another id; the first task without an id gives MissingId; the first task whose id matches ignoring case gives its status text, or MissingStatus without a status child; otherwise NotFound |
| OmpWait.FindTaskFirst | omp/omp.c:465-485 | the scan is decided by the first child it does not pass over |
| OmpWait.ScanTasks | omp/omp.c:465-485 | the DO_CHILDREN loop with its early exits gives exactly the first-match result |
| OmpWait.RunStateResult | omp/omp.c:487-508 | 0 exactly for the waiter's reached states, 1 exactly for its failed states, another poll otherwise |
| OmpWait.Verdict | omp/omp.c:487-508 | -1 for a task without an id or status; -1 when no task matches (-2 for wait_for_task_stop); otherwise the run-state table |
| OmpWait.TaskStatus | omp/omp.c:108-117 | the status text of the first child named exactly "task", if it has a status child |
| OmpWait.TaskStatusExactName | omp/omp.c:108-117 | task_status does not see a "TASK" child that the wait loops' case-insensitive scan finds |
| OmpWait.PollStep | omp/omp.c:416-510 | a poll ends the wait with -2, -1, 0 or 1, and with -2 only in wait_for_task_stop |
| OmpWait.Polls | omp/omp.c:416-510 | one poll result per exchange of the script, each the result of polling that exchange |
| OmpWait.FirstResult | omp/omp.c:416-510 | the loop stops at the first poll with a result, which is the loop's result; every earlier poll asked to poll again; with no result every poll is used |
| OmpWait.WaitSpecFirst | omp/omp.c:416-510 | the wait ends at the first poll with a result, and every earlier poll (every poll, when none has a result) asked to poll again |
| OmpWait.PollStepZero | omp/omp.c:487-498 | a poll gives 0 only for a '2' response whose first matching task is in one of the waiter's reached states |
| OmpWait.Poll | omp/omp.c:416-510 | one loop iteration, with the scan done in place, gives the poll's result |
| OmpWait.Repeat | omp/omp.c:419-421 | the requests of n polls: n copies of the waiter's request |
| OmpWait.WaitForTask | omp/omp.c:416-760 | the polling loop gives exactly WaitSpec's result and number of polls, and sends the waiter's request once per poll and nothing else |
| OmpWait.WaitSuccessFindsTask | omp/omp.c:487-498 | a wait returns 0 only after a '2' response whose matching task is in a reached state |
| OmpWait.OmpUntilUp | omp/omp.c:1071-1078 | returns the first result that is not 503, after 503 from every earlier call |
| Credentials.Cleared | base/credentials.c:40-60 | all strings but the uuid become NULL, the dynamic severity becomes 0, and the uuid is kept |
| Credentials.ClearedIdempotent | base/credentials.c:40-60 | clearing twice is clearing once |
| Credentials.AppendText | base/credentials.c:70-74 | a NULL string becomes the text; otherwise the old string is followed by the text |
| Credentials.AppendTextChunks | base/credentials.c:70-88 | appending two chunks one after the other is appending them at once |
| Credentials.Credentials.Free | base/credentials.c:40-60 | the record becomes its cleared values; the uuid is untouched |
| Credentials.Credentials.AppendToUsername | base/credentials.c:70-74 | only the username changes, by the append |
| Credentials.Credentials.AppendToPassword | base/credentials.c:84-88 | only the password changes, by the append |
| Credentials.FreeTwice | base/credentials.c:40-60 | a second free_credentials leaves the record as the first left it |

## Left out

- The GMarkup tokenizer is a parameter of the read: `tok` gives the events of a chunk after what was already fed, and `finish` says whether `g_markup_parse_context_end_parse` reports an error. Its independence from chunk boundaries is GLib's property and is not modelled.
- Events that break nesting are treated as the tokenizer's parse error (-2). These are text or an end event with nothing open, or an end event whose name is not the innermost open element's. GMarkup reports these itself before calling a handler.
- XmlBuild.Context.HandleText: requires an open entity; the C handler dereferences `current` without a check.
- XmlBuild.Context.HandleEnd: requires an open entity and, at the root, the matching name. These are the two `assert`s of the C handler.
- The TLS session is a script of receive results. When the script runs out, the read or the wait loop would still be blocked or polling, and the result is None.
- The receive buffer holds 1048576 octets (omp/xml.c:49), and a receive never returns more than that. Scripted chunks are not bounded by it, since nothing in the read depends on the bound.
- The process-wide receive buffer is not modelled; each chunk is a value.
- The end-of-file error of `end_parse` is only logged in the source, and is not modelled.
- Deallocation is not modelled: `free_entity`, `g_free`, the leaks on some success paths, and the freed entity left in the output of `omp_get_status` and `omp_get_certificates` on failure, which is modelled as no output.
- The accessors `entity_text`, `entity_name`, `next_entities` and `first_entity` are field reads or sequence steps on the value.
- `print_entities` is `Xml.PrintEntities`.
- `handle_error` and all `g_message`, `fprintf` and `gnutls_perror` output are logging and are left out.
- `sleep (1)` in the wait loops is left out.
- `print_entity` writes to a `FILE` stream; it is modelled as the string written.
- The attribute order of `print_entity` comes from hash-table iteration and is unspecified. `Xml.PrintAttributes` picks one order, and only attribute-less entities are printed in lemmas.
- OmpStatus.StatusCodeAsWritten: does not model the `errno == ERANGE` check or the cast of `long` to `int`. errno is never reset before strtol, so the check reads whatever an earlier call left.
- OmpStatus.StatusCode: does not model the `errno == ERANGE` check or the cast to int, for the same reason.
- A NULL `%s` argument for the non-optional fields (such as a NULL name) is not modelled; these fields are strings.
- `getenv` is a map from variable names to values.
- Reading the RC file in `create_task_from_rc_file` and `omp_create_config_from_rc_file` is a parameter holding the file's contents, or None when it cannot be read.
- `omp_until_up` calls a function pointer, which is modelled as the script of its successive results.
- Credentials.AppendText: `gvm_append_text` lives in strings.c, which is not part of this model. It is taken to copy the text when the string is NULL and to append it otherwise; its `length` argument is left out.
- `nasl/nasl_wmi.c` is not part of this model: it only passes NASL values to an external WMI library.
- The `uuid` field of the credentials record is kept by `free_credentials`, as the source does. Whether it should be freed is left open by the source's own todo note.

## Findings

| source | as written | input that shows it | evidently intended | confidence | as-written member | corrected member |
|---|---|---|---|---|---|---|
| omp/omp.c:1033 | omp_get_certificates sends `<get_preferences/>` | any call | send a certificates request, as the function's name and documentation say | high, not executed | OmpOps.OmpGetCertificatesAsWritten, OmpRequests.GetCertificatesAsksForPreferences | OmpOps.OmpGetCertificates |
| omp/omp.c:855-861 | a status that does not start with '2' is returned as strtol's value | a response with status "abc" gives 0, the success code (the same happens at lines 1050-1056) | 0 only for a '2' status; -1 when the status is not a nonzero number | medium, not executed | OmpStatus.StatusCodeAsWritten, OmpStatus.StatusCodeAsWrittenNonNumeric, OmpOps.OmpGetStatusAsWrittenNonNumeric | OmpStatus.StatusCode, OmpOps.OmpGetStatus |
| omp/xml.c:629 | an entity without an attribute table equals any other entity without one | `<a>x</a>` and `<b>y<c/></b>`, neither with attributes, compare equal | compare names, texts and children of attribute-less entities too | medium, not executed | Xml.CompareEntities, Xml.CompareEntitiesIgnoresPlainEntities | Xml.CompareEntitiesCorrected, Xml.CompareEntitiesCorrectedBothWays |
| omp/omp.c:282-284 | the empty-payload test uses strlen (config) while config_len octets are encoded | the two-octet buffer 0, 65 (the same test is at lines 1224-1226) | test config_len, so only an empty buffer gives an empty field | low, not executed | OmpRequests.PayloadFieldAsWritten, OmpRequests.PayloadFieldAsWrittenLoses, OmpOps.CreateTask, OmpOps.OmpCreateConfig, OmpOps.CreateTaskLosesPayload, OmpOps.OmpCreateConfigLosesPayload | OmpRequests.PayloadField, OmpOps.CreateTaskCorrected, OmpOps.OmpCreateConfigCorrected |
