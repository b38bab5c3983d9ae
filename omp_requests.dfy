// The OMP requests omp/omp.c sends, as the strings its format strings
// produce. Values are inserted as they are, without XML escaping.

module OmpRequests {
  import opened Options
  import opened Xml
  import opened Base64
  import opened OmpStatus

  // ---------------------------------------------------------------------
  // Requests as element trees

  /** An element holding only text. */
  function Leaf(name: string, text: string): (e: Entity)
    ensures e.attributes.None? && e.children == []
  {
    Entity(name, text, None, [])
  }

  /** An element holding only child elements. */
  function Element(name: string, children: seq<Entity>): (e: Entity)
    ensures e.attributes.None? && e.text == ""
  {
    Entity(name, "", None, children)
  }

  /** A field element per (name, value) pair, in order. */
  function Leaves(fields: seq<(string, string)>): (es: seq<Entity>)
    ensures |es| == |fields|
    ensures forall i :: 0 <= i < |fields| ==> es[i] == Leaf(fields[i].0, fields[i].1)
  {
    if fields == [] then [] else [Leaf(fields[0].0, fields[0].1)] + Leaves(fields[1..])
  }

  /** `<name>content</name>` */
  function Tags(name: string, content: string): string
  {
    "<" + name + ">" + content + "</" + name + ">"
  }

  /** The fields written out one after the other. */
  function Fields(fields: seq<(string, string)>): string
  {
    if fields == [] then "" else Tags(fields[0].0, fields[0].1) + Fields(fields[1..])
  }

  lemma FieldsCons(f: (string, string), rest: seq<(string, string)>)
    ensures Fields([f] + rest) == Tags(f.0, f.1) + Fields(rest)
  {
    assert ([f] + rest)[1..] == rest;
  }

  lemma FieldsTwo(a: (string, string), b: (string, string))
    ensures Fields([a, b]) == Tags(a.0, a.1) + Tags(b.0, b.1)
  {
    FieldsCons(b, []);
    assert [a, b] == [a] + [b];
    FieldsCons(a, [b]);
  }

  lemma FieldsThree(a: (string, string), b: (string, string), c: (string, string))
    ensures Fields([a, b, c]) == Tags(a.0, a.1) + Tags(b.0, b.1) + Tags(c.0, c.1)
  {
    FieldsTwo(b, c);
    assert [a, b, c] == [a] + [b, c];
    FieldsCons(a, [b, c]);
  }

  lemma FieldsFour(a: (string, string), b: (string, string), c: (string, string), d: (string, string))
    ensures Fields([a, b, c, d]) == Tags(a.0, a.1) + Tags(b.0, b.1) + Tags(c.0, c.1) + Tags(d.0, d.1)
  {
    FieldsThree(b, c, d);
    assert [a, b, c, d] == [a] + [b, c, d];
    FieldsCons(a, [b, c, d]);
  }

  /** print_entity writes an element made of field elements as its tags around the fields. */
  lemma {:induction false} PrintFieldElement(name: string, fields: seq<(string, string)>)
    ensures PrintEntity(Element(name, Leaves(fields))) == Tags(name, Fields(fields))
  {
    var e := Element(name, Leaves(fields));
    PrintFieldList(e, Leaves(fields), fields);
  }

  lemma {:induction false} PrintFieldList(parent: Entity, es: seq<Entity>, fields: seq<(string, string)>)
    requires es == Leaves(fields)
    requires forall i :: 0 <= i < |es| ==> es[i] < parent
    ensures PrintEntities(parent, es) == Fields(fields)
    decreases |fields|
  {
    if fields != [] {
      assert es[1..] == Leaves(fields[1..]);
      PrintFieldList(parent, es[1..], fields[1..]);
      assert PrintEntity(es[0]) == Tags(fields[0].0, fields[0].1);
    }
  }

  /** Attributes written in order, each as print_entity writes one. */
  function AttributesText(attributes: seq<(string, string)>): string
  {
    if attributes == [] then "" else AttributeText(attributes[0].0, attributes[0].1) + AttributesText(attributes[1..])
  }

  /** An element with attributes and no content, in the empty-element form `<name a="v"/>`. */
  function EmptyElement(name: string, attributes: seq<(string, string)>): string
  {
    "<" + name + AttributesText(attributes) + "/>"
  }

  lemma AttributesOne(a: (string, string))
    ensures AttributesText([a]) == AttributeText(a.0, a.1)
  {
    assert [a][1..] == [];
  }

  /** A request that writes a value between a fixed prefix and suffix gives the value back. */
  lemma Unwrap(prefix: string, a: string, b: string, suffix: string)
    requires prefix + a + suffix == prefix + b + suffix
    ensures a == b
  {
    assert |a| == |b|;
    assert a == (prefix + a + suffix)[|prefix|..|prefix| + |a|];
    assert b == (prefix + b + suffix)[|prefix|..|prefix| + |b|];
  }

  // ---------------------------------------------------------------------
  // Payloads

  /** The C string at the start of a buffer: the octets before the first NUL. */
  function CString(bs: seq<Byte>): (s: seq<Byte>)
    ensures |s| <= |bs| && s == bs[..|s|]
    ensures forall i :: 0 <= i < |s| ==> s[i] != 0
    ensures |s| < |bs| ==> bs[|s|] == 0
  {
    if bs == [] || bs[0] == 0 then [] else [bs[0]] + CString(bs[1..])
  }

  /**
   * The rcfile field of create_task and omp_create_config as written: empty
   * when strlen of the buffer is 0, otherwise the base64 encoding of all
   * `config_len` octets. A buffer that starts with a NUL octet is sent as an
   * empty field, whatever follows.
   */
  function PayloadFieldAsWritten(config: seq<Byte>): (r: string)
    ensures |CString(config)| == 0 ==> r == ""
    ensures |CString(config)| > 0 ==> r == Encode(config)
  {
    if |CString(config)| == 0 then "" else Encode(config)
  }

  /** A non-empty buffer starting with NUL is lost. */
  lemma PayloadFieldAsWrittenLoses()
    ensures var config: seq<Byte> := [0, 65];
      PayloadFieldAsWritten(config) == "" && Decode(PayloadFieldAsWritten(config)) != Some(config)
  {
  }

  /** The rcfile field as intended: empty exactly for an empty buffer, otherwise its base64 encoding. */
  function PayloadField(config: seq<Byte>): (r: string)
    ensures r == "" <==> config == []
    ensures Decode(r) == Some(config)
  {
    RoundTrip(config);
    if config == [] then "" else Encode(config)
  }

  /** The two agree unless the buffer starts with a NUL octet. */
  lemma PayloadFieldAgrees(config: seq<Byte>)
    requires config == [] || config[0] != 0
    ensures PayloadFieldAsWritten(config) == PayloadField(config)
  {
  }

  /**
   * The rcfile text of omp_modify_task: empty for an empty C string,
   * otherwise the base64 encoding of the C string.
   */
  function RcfileText(rcfile: seq<Byte>): (r: string)
    ensures Decode(r) == Some(CString(rcfile))
  {
    RoundTrip(CString(rcfile));
    if |CString(rcfile)| == 0 then "" else Encode(CString(rcfile))
  }

  // ---------------------------------------------------------------------
  // The requests

  /** authenticate */
  function AuthenticateRequest(username: string, password: string): string
  {
    Tags("authenticate", Tags("credentials", Tags("username", username) + Tags("password", password)))
  }

  /** The authenticate request is the credentials element inside an authenticate element. */
  lemma AuthenticateRequestTree(username: string, password: string)
    ensures AuthenticateRequest(username, password)
            == PrintEntity(Element("authenticate", [Element("credentials", Leaves([("username", username), ("password", password)]))]))
  {
    var fields := [("username", username), ("password", password)];
    var credentials := Element("credentials", Leaves(fields));
    var auth := Element("authenticate", [credentials]);
    PrintFieldElement("credentials", fields);
    FieldsTwo(fields[0], fields[1]);
    assert PrintEntities(auth, [credentials]) == PrintEntity(credentials) + PrintEntities(auth, []);
  }

  /** omp_create_task: the fields in the order config, target, name, comment. */
  function OmpCreateTaskRequest(config: string, target: string, name: string, comment: string): string
  {
    Tags("create_task", Tags("config", config) + Tags("target", target) + Tags("name", name) + Tags("comment", comment))
  }

  lemma OmpCreateTaskRequestTree(config: string, target: string, name: string, comment: string)
    ensures OmpCreateTaskRequest(config, target, name, comment)
            == PrintEntity(Element("create_task", Leaves([("config", config), ("target", target), ("name", name), ("comment", comment)])))
  {
    var fields := [("config", config), ("target", target), ("name", name), ("comment", comment)];
    PrintFieldElement("create_task", fields);
    FieldsFour(fields[0], fields[1], fields[2], fields[3]);
  }

  /** create_task: the rcfile field text (the base64 payload), then name and comment. */
  function CreateTaskRequest(rcfile: string, name: string, comment: string): string
  {
    Tags("create_task", Tags("rcfile", rcfile) + Tags("name", name) + Tags("comment", comment))
  }

  lemma CreateTaskRequestTree(rcfile: string, name: string, comment: string)
    ensures CreateTaskRequest(rcfile, name, comment)
            == PrintEntity(Element("create_task", Leaves([("rcfile", rcfile), ("name", name), ("comment", comment)])))
  {
    var fields := [("rcfile", rcfile), ("name", name), ("comment", comment)];
    PrintFieldElement("create_task", fields);
    FieldsThree(fields[0], fields[1], fields[2]);
  }

  /** start_task */
  function StartTaskRequest(id: string): (r: string)
    ensures r == EmptyElement("start_task", [("task_id", id)])
  {
    AttributesOne(("task_id", id));
    "<start_task task_id=\"" + id + "\"/>"
  }

  /** The poll of wait_for_task_start, wait_for_task_end and wait_for_task_stop. */
  const GetStatusRequest: string := "<get_status/>"

  /** The poll of wait_for_task_delete. */
  function TaskStatusRequest(id: string): (r: string)
    ensures r == EmptyElement("get_status", [("task_id", id)])
  {
    AttributesOne(("task_id", id));
    "<get_status task_id=\"" + id + "\"/>"
  }

  /** delete_task and omp_delete_task */
  function DeleteTaskRequest(id: string): (r: string)
    ensures r == EmptyElement("delete_task", [("task_id", id)])
  {
    AttributesOne(("task_id", id));
    "<delete_task task_id=\"" + id + "\"/>"
  }

  /** omp_get_status: the task_id attribute only with an id; the rcfile flag as a decimal. */
  function OmpGetStatusRequest(id: Option<string>, includeRcfile: int): (r: string)
    ensures id.None? ==> r == "<get_status rcfile=\"" + IntDecimal(includeRcfile) + "\"/>"
    ensures id.Some? ==> r == "<get_status task_id=\"" + id.value + "\" rcfile=\"" + IntDecimal(includeRcfile) + "\"/>"
  {
    match id
    case None => "<get_status rcfile=\"" + IntDecimal(includeRcfile) + "\"/>"
    case Some(i) => "<get_status task_id=\"" + i + "\" rcfile=\"" + IntDecimal(includeRcfile) + "\"/>"
  }

  /** omp_get_report: always in the nbe format. */
  function GetReportRequest(id: string): string
  {
    "<get_report format=\"nbe\" report_id=\"" + id + "\"/>"
  }

  /** omp_delete_report */
  function DeleteReportRequest(id: string): (r: string)
    ensures r == EmptyElement("delete_report", [("report_id", id)])
  {
    AttributesOne(("report_id", id));
    "<delete_report report_id=\"" + id + "\"/>"
  }

  /** Each of these requests names exactly one task or report: different ids give different requests. */
  lemma RequestsIdentifyTheirId(a: string, b: string)
    ensures StartTaskRequest(a) == StartTaskRequest(b) ==> a == b
    ensures DeleteTaskRequest(a) == DeleteTaskRequest(b) ==> a == b
    ensures TaskStatusRequest(a) == TaskStatusRequest(b) ==> a == b
    ensures GetReportRequest(a) == GetReportRequest(b) ==> a == b
    ensures DeleteReportRequest(a) == DeleteReportRequest(b) ==> a == b
  {
    if StartTaskRequest(a) == StartTaskRequest(b) {
      Unwrap("<start_task task_id=\"", a, b, "\"/>");
    }
    if DeleteTaskRequest(a) == DeleteTaskRequest(b) {
      Unwrap("<delete_task task_id=\"", a, b, "\"/>");
    }
    if TaskStatusRequest(a) == TaskStatusRequest(b) {
      Unwrap("<get_status task_id=\"", a, b, "\"/>");
    }
    if GetReportRequest(a) == GetReportRequest(b) {
      Unwrap("<get_report format=\"nbe\" report_id=\"", a, b, "\"/>");
    }
    if DeleteReportRequest(a) == DeleteReportRequest(b) {
      Unwrap("<delete_report report_id=\"", a, b, "\"/>");
    }
  }

  /** The field elements of omp_modify_task, in order, each present only when given. */
  function ModifyTaskFields(rcfile: Option<seq<Byte>>, name: Option<string>, comment: Option<string>): (fs: seq<(string, string)>)
    ensures |fs| == (if rcfile.Some? then 1 else 0) + (if name.Some? then 1 else 0) + (if comment.Some? then 1 else 0)
  {
    (if rcfile.Some? then [("rcfile", RcfileText(rcfile.value))] else [])
    + (if name.Some? then [("name", name.value)] else [])
    + (if comment.Some? then [("comment", comment.value)] else [])
  }

  /** One send per field element. */
  function Sends(fields: seq<(string, string)>): (ps: seq<string>)
    ensures |ps| == |fields|
    ensures forall i :: 0 <= i < |fields| ==> ps[i] == Tags(fields[i].0, fields[i].1)
  {
    seq(|fields|, i requires 0 <= i < |fields| => Tags(fields[i].0, fields[i].1))
  }

  /**
   * omp_modify_task: the separate sends, in order: the opening tag with the
   * task_id, the given field elements, then the closing tag.
   */
  function ModifyTaskPieces(id: string, rcfile: Option<seq<Byte>>, name: Option<string>, comment: Option<string>): (ps: seq<string>)
    ensures |ps| == 2 + (if rcfile.Some? then 1 else 0) + (if name.Some? then 1 else 0) + (if comment.Some? then 1 else 0)
  {
    ["<modify_task task_id=\"" + id + "\">"] + Sends(ModifyTaskFields(rcfile, name, comment)) + ["</modify_task>"]
  }

  /** The pieces joined. */
  function Concat(ps: seq<string>): string
  {
    if ps == [] then "" else ps[0] + Concat(ps[1..])
  }

  lemma {:induction false} ConcatAppend(a: seq<string>, b: seq<string>)
    ensures Concat(a + b) == Concat(a) + Concat(b)
    decreases |a|
  {
    if a != [] {
      assert (a + b)[1..] == a[1..] + b;
      ConcatAppend(a[1..], b);
      calc {
        Concat(a + b);
        a[0] + Concat(a[1..] + b);
        a[0] + (Concat(a[1..]) + Concat(b));
        (a[0] + Concat(a[1..])) + Concat(b);
      }
    } else {
      assert a + b == b;
    }
  }

  /** Sending the field elements one by one sends the fields. */
  lemma {:induction false} ConcatSends(fields: seq<(string, string)>)
    ensures Concat(Sends(fields)) == Fields(fields)
    decreases |fields|
  {
    if fields != [] {
      assert Sends(fields)[1..] == Sends(fields[1..]);
      ConcatSends(fields[1..]);
    }
  }

  /**
   * Everything omp_modify_task sends is its opening tag with the task_id,
   * the given fields and nothing for an absent one, and the closing tag.
   */
  lemma ModifyTaskSends(id: string, rcfile: Option<seq<Byte>>, name: Option<string>, comment: Option<string>)
    ensures Concat(ModifyTaskPieces(id, rcfile, name, comment))
            == "<modify_task task_id=\"" + id + "\">" + Fields(ModifyTaskFields(rcfile, name, comment)) + "</modify_task>"
  {
    var open := ["<modify_task task_id=\"" + id + "\">"];
    var middle := Sends(ModifyTaskFields(rcfile, name, comment));
    var close := ["</modify_task>"];
    ConcatAppend(open + middle, close);
    ConcatAppend(open, middle);
    ConcatSends(ModifyTaskFields(rcfile, name, comment));
    assert Concat(open) == open[0] + Concat([]);
    assert Concat(close) == close[0] + Concat([]);
  }

  /** omp_get_preferences */
  const GetPreferencesRequest: string := "<get_preferences/>"

  /** omp_get_certificates as written: it sends the preferences request. */
  const GetCertificatesRequestAsWritten: string := "<get_preferences/>"

  /** omp_get_certificates as its name and documentation intend. */
  const GetCertificatesRequest: string := "<get_certificates/>"

  /** omp_get_certificates asks for the preferences, not the certificates. */
  lemma GetCertificatesAsksForPreferences()
    ensures GetCertificatesRequestAsWritten == GetPreferencesRequest
    ensures GetCertificatesRequestAsWritten != GetCertificatesRequest
  {
    assert GetCertificatesRequestAsWritten[5] != GetCertificatesRequest[5];
  }

  /** omp_create_target: comment element only when a comment is given. */
  function CreateTargetRequest(name: string, hosts: string, comment: Option<string>): string
  {
    if comment.Some? then
      Tags("create_target", Tags("name", name) + Tags("hosts", hosts) + Tags("comment", comment.value))
    else
      Tags("create_target", Tags("name", name) + Tags("hosts", hosts))
  }

  lemma CreateTargetRequestTree(name: string, hosts: string, comment: Option<string>)
    ensures CreateTargetRequest(name, hosts, comment)
            == PrintEntity(Element("create_target", Leaves([("name", name), ("hosts", hosts)]
                                                         + (if comment.Some? then [("comment", comment.value)] else []))))
  {
    var fields := [("name", name), ("hosts", hosts)] + (if comment.Some? then [("comment", comment.value)] else []);
    PrintFieldElement("create_target", fields);
    if comment.Some? {
      assert fields == [fields[0], fields[1], fields[2]];
      FieldsThree(fields[0], fields[1], fields[2]);
    } else {
      assert fields == [fields[0], fields[1]];
      FieldsTwo(fields[0], fields[1]);
    }
  }

  /** omp_delete_target */
  function DeleteTargetRequest(name: string): string
  {
    Tags("delete_target", Tags("name", name))
  }

  lemma DeleteTargetRequestTree(name: string)
    ensures DeleteTargetRequest(name) == PrintEntity(Element("delete_target", Leaves([("name", name)])))
  {
    PrintFieldElement("delete_target", [("name", name)]);
    FieldsCons(("name", name), []);
    assert [("name", name)] + [] == [("name", name)];
  }

  /** omp_create_config: name, comment only when given, then the rcfile field text (the base64 payload). */
  function CreateConfigRequest(name: string, comment: Option<string>, rcfile: string): string
  {
    if comment.Some? then
      Tags("create_config", Tags("name", name) + Tags("comment", comment.value) + Tags("rcfile", rcfile))
    else
      Tags("create_config", Tags("name", name) + Tags("rcfile", rcfile))
  }

  lemma CreateConfigRequestTree(name: string, comment: Option<string>, rcfile: string)
    ensures CreateConfigRequest(name, comment, rcfile)
            == PrintEntity(Element("create_config", Leaves([("name", name)]
                                                         + (if comment.Some? then [("comment", comment.value)] else [])
                                                         + [("rcfile", rcfile)])))
  {
    var fields := [("name", name)] + (if comment.Some? then [("comment", comment.value)] else []) + [("rcfile", rcfile)];
    PrintFieldElement("create_config", fields);
    if comment.Some? {
      assert fields == [fields[0], fields[1], fields[2]];
      FieldsThree(fields[0], fields[1], fields[2]);
    } else {
      assert fields == [fields[0], fields[1]];
      FieldsTwo(fields[0], fields[1]);
    }
  }

  /** omp_delete_config */
  function DeleteConfigRequest(name: string): string
  {
    Tags("delete_config", Tags("name", name))
  }

  lemma DeleteConfigRequestTree(name: string)
    ensures DeleteConfigRequest(name) == PrintEntity(Element("delete_config", Leaves([("name", name)])))
  {
    PrintFieldElement("delete_config", [("name", name)]);
    FieldsCons(("name", name), []);
    assert [("name", name)] + [] == [("name", name)];
  }
}
