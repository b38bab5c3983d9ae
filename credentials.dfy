// The credentials record of base/credentials.c: a user's session data,
// reset in place by free_credentials and extended chunk by chunk by the
// append functions. A NULL string is None.

module Credentials {
  import opened Options

  /** The values of all fields of a credentials record. */
  datatype Record = Record(
    username: Option<string>,
    password: Option<string>,
    uuid: Option<string>,
    timezone: Option<string>,
    role: Option<string>,
    severityClass: Option<string>,
    dynamicSeverity: int)

  /** The fields free_credentials resets: all strings but the uuid to NULL, the dynamic severity to 0. */
  function Cleared(r: Record): (c: Record)
    ensures c.username.None? && c.password.None? && c.timezone.None? && c.role.None? && c.severityClass.None?
    ensures c.dynamicSeverity == 0
    ensures c.uuid == r.uuid
  {
    r.(username := None, password := None, timezone := None, role := None, severityClass := None, dynamicSeverity := 0)
  }

  /** Clearing twice is clearing once. */
  lemma ClearedIdempotent(r: Record)
    ensures Cleared(Cleared(r)) == Cleared(r)
  {
  }

  /**
   * Appending to a string that may be NULL: a NULL string becomes the text,
   * otherwise the text is added at its end.
   */
  function AppendText(s: Option<string>, text: string): (r: Option<string>)
    ensures r.Some?
    ensures s.None? ==> r.value == text
    ensures s.Some? ==> |r.value| == |s.value| + |text| && r.value[..|s.value|] == s.value && r.value[|s.value|..] == text
  {
    match s
    case None => Some(text)
    case Some(v) => Some(v + text)
  }

  /** Text received in two chunks gives the same string as the two chunks appended at once. */
  lemma AppendTextChunks(s: Option<string>, a: string, b: string)
    ensures AppendText(AppendText(s, a), b) == AppendText(s, a + b)
  {
    if s.Some? {
      assert s.value + a + b == s.value + (a + b);
    }
  }

  class Credentials {
    var username: Option<string>
    var password: Option<string>
    var uuid: Option<string>
    var timezone: Option<string>
    var role: Option<string>
    var severityClass: Option<string>
    var dynamicSeverity: int

    /** The current values of the fields. */
    function Fields(): Record
      reads this
    {
      Record(username, password, uuid, timezone, role, severityClass, dynamicSeverity)
    }

    /** free_credentials */
    method Free()
      modifies this
      ensures Fields() == Cleared(old(Fields()))
      ensures username.None? && password.None? && timezone.None? && role.None? && severityClass.None?
      ensures dynamicSeverity == 0
      ensures uuid == old(uuid)
    {
      username := None;
      password := None;
      timezone := None;
      role := None;
      severityClass := None;
      dynamicSeverity := 0;
    }

    /** append_to_credentials_username: the other fields are unchanged. */
    method AppendToUsername(text: string)
      modifies this
      ensures Fields() == old(Fields()).(username := AppendText(old(username), text))
    {
      username := AppendText(username, text);
    }

    /** append_to_credentials_password: the other fields are unchanged. */
    method AppendToPassword(text: string)
      modifies this
      ensures Fields() == old(Fields()).(password := AppendText(old(password), text))
    {
      password := AppendText(password, text);
    }
  }

  /** A second free_credentials leaves the record as the first left it. */
  method FreeTwice(c: Credentials)
    modifies c
    ensures c.Fields() == Cleared(old(c.Fields()))
  {
    c.Free();
    var once := c.Fields();
    c.Free();
    ClearedIdempotent(old(c.Fields()));
    assert c.Fields() == once;
  }
}
