// How omp/omp.c reads the `status` attribute of a manager response: by its
// first character ('2' for success), or, in omp_get_status and
// omp_get_certificates, as the decimal number strtol reads from it.

module OmpStatus {
  import opened Options
  import opened Xml

  /** The response's `status` attribute, if any. */
  function Status(e: Entity): (r: Option<string>)
    ensures r.Some? <==> e.attributes.Some? && "status" in e.attributes.value
  {
    EntityAttribute(e, "status")
  }

  /** The three ways a response's status is read. */
  datatype Class = Missing | Success | Failure(status: string)

  /**
   * The status checks shared by the operations: an absent or empty status
   * is an error, a first character '2' is success, anything else a failure
   * carrying the status text.
   */
  function Classify(e: Entity): (c: Class)
    ensures c.Missing? <==> Status(e).None? || Status(e).value == ""
    ensures c.Success? <==> Status(e).Some? && Status(e).value != "" && Status(e).value[0] == '2'
    ensures c.Failure? ==> Status(e) == Some(c.status) && c.status != "" && c.status[0] != '2'
  {
    match Status(e)
    case None => Missing
    case Some(s) => if s == "" then Missing else if s[0] == '2' then Success else Failure(s)
  }

  /**
   * The first-character check: -1 without a usable status, 0 for a '2',
   * otherwise `otherwise` (2 in authenticate, -1 in the other operations).
   */
  function FirstCharCheck(e: Entity, otherwise: int): (r: int)
    ensures Classify(e).Success? ==> r == 0
    ensures Classify(e).Missing? ==> r == -1
    ensures Classify(e).Failure? ==> r == otherwise
  {
    match Classify(e)
    case Missing => -1
    case Success => 0
    case Failure(_) => otherwise
  }

  // ---------------------------------------------------------------------
  // strtol (s, NULL, 10)

  /** isspace in the C locale. */
  predicate IsSpace(c: char)
  {
    c == ' ' || '\t' <= c <= '\r'
  }

  predicate IsDigit(c: char)
  {
    '0' <= c <= '9'
  }

  /** The string after its leading white space. */
  function SkipSpace(s: string): (t: string)
    ensures |t| <= |s| && t == s[|s| - |t|..]
    ensures t == [] || !IsSpace(t[0])
    ensures forall i :: 0 <= i < |s| - |t| ==> IsSpace(s[i])
  {
    if s != [] && IsSpace(s[0]) then SkipSpace(s[1..]) else s
  }

  /** The longest prefix made of decimal digits. */
  function DigitPrefix(s: string): (d: string)
    ensures |d| <= |s| && d == s[..|d|]
    ensures forall i :: 0 <= i < |d| ==> IsDigit(d[i])
    ensures |d| < |s| ==> !IsDigit(s[|d|])
  {
    if s != [] && IsDigit(s[0]) then [s[0]] + DigitPrefix(s[1..]) else []
  }

  /** The number a string of decimal digits writes, most significant first. */
  function DecimalValue(d: string): nat
    requires forall i :: 0 <= i < |d| ==> IsDigit(d[i])
  {
    if d == [] then 0
    else
      assert IsDigit(d[|d| - 1]);
      DecimalValue(d[..|d| - 1]) * 10 + (d[|d| - 1] as int - '0' as int)
  }

  /**
   * strtol with base 10: white space, an optional sign, then as many digits
   * as there are; 0 when there are none. The range check and the cast to
   * int are left out.
   */
  function Strtol(s: string): (r: int)
    ensures r < 0 ==> SkipSpace(s) != [] && SkipSpace(s)[0] == '-'
    ensures SkipSpace(s) == [] ==> r == 0
  {
    var t := SkipSpace(s);
    if t != [] && t[0] == '-' then -(DecimalValue(DigitPrefix(t[1..])) as int)
    else if t != [] && t[0] == '+' then DecimalValue(DigitPrefix(t[1..]))
    else DecimalValue(DigitPrefix(t))
  }

  /** The decimal digit of a value below ten. */
  function Digit(v: int): (c: char)
    requires 0 <= v < 10
    ensures IsDigit(c) && c as int - '0' as int == v
  {
    ('0' as int + v) as char
  }

  /** The decimal numeral of a natural number, as printf's %d writes it. */
  function Decimal(n: nat): (s: string)
    ensures s != [] && forall i :: 0 <= i < |s| ==> IsDigit(s[i])
    decreases n
  {
    if n < 10 then [Digit(n)] else Decimal(n / 10) + [Digit(n % 10)]
  }

  /** printf's %i of an int. */
  function IntDecimal(i: int): (s: string)
    ensures s != [] && (s[0] == '-' <==> i < 0)
    ensures forall k :: (if i < 0 then 1 else 0) <= k < |s| ==> IsDigit(s[k])
  {
    if i < 0 then "-" + Decimal(-i) else Decimal(i)
  }

  /** Reading a numeral's digits back gives its number. */
  lemma {:induction false} DecimalValueOfDecimal(n: nat)
    ensures DecimalValue(Decimal(n)) == n
    decreases n
  {
    if n >= 10 {
      DecimalValueOfDecimal(n / 10);
      var s := Decimal(n);
      assert s[..|s| - 1] == Decimal(n / 10);
    }
  }

  /** A string made only of digits is its own digit prefix. */
  lemma {:induction false} DigitPrefixAll(d: string)
    requires forall i :: 0 <= i < |d| ==> IsDigit(d[i])
    ensures DigitPrefix(d) == d
    decreases |d|
  {
    if d != [] {
      DigitPrefixAll(d[1..]);
    }
  }

  /** strtol reads back what printf wrote: the round trip over every int. */
  lemma StrtolIntDecimal(i: int)
    ensures Strtol(IntDecimal(i)) == i
  {
    var n: nat := if i < 0 then -i else i;
    DecimalValueOfDecimal(n);
    DigitPrefixAll(Decimal(n));
    var s := IntDecimal(i);
    assert SkipSpace(s) == s;
    if i < 0 {
      assert s[1..] == Decimal(n);
    }
  }

  /** Without a digit after the white space and sign, strtol gives 0. */
  lemma StrtolNoDigits(s: string)
    requires var t := SkipSpace(s);
      if t != [] && (t[0] == '-' || t[0] == '+') then t[1..] == [] || !IsDigit(t[1]) else t == [] || !IsDigit(t[0])
    ensures Strtol(s) == 0
  {
  }

  // ---------------------------------------------------------------------
  // The numeric status of omp_get_status and omp_get_certificates

  /**
   * The status check of omp_get_status and omp_get_certificates as written:
   * -1 without a usable status, 0 for a '2', otherwise strtol of the status.
   * A status with no leading number therefore also gives 0.
   */
  function StatusCodeAsWritten(e: Entity): (r: int)
    ensures Classify(e).Missing? ==> r == -1
    ensures Classify(e).Success? ==> r == 0
    ensures Classify(e).Failure? ==> r == Strtol(Classify(e).status)
  {
    match Classify(e)
    case Missing => -1
    case Success => 0
    case Failure(s) => Strtol(s)
  }

  /** A failing status without digits reads as success. */
  lemma StatusCodeAsWrittenNonNumeric()
    ensures var e := Entity("get_status_response", "", Some(map["status" := "abc"]), []);
      Classify(e).Failure? && StatusCodeAsWritten(e) == 0
  {
    var e := Entity("get_status_response", "", Some(map["status" := "abc"]), []);
    assert Status(e) == Some("abc");
    assert Classify(e) == Failure("abc");
    assert !IsSpace('a') && !IsDigit('a');
    assert SkipSpace("abc") == "abc";
    StrtolNoDigits("abc");
  }

  /**
   * The numeric status as documented ("0 on success, -1 or the response
   * code on error"): a failing status that strtol reads as 0 gives -1.
   */
  function StatusCode(e: Entity): (r: int)
    ensures r == 0 <==> Classify(e).Success?
    ensures Classify(e).Missing? ==> r == -1
    ensures Classify(e).Failure? && Strtol(Classify(e).status) != 0 ==> r == Strtol(Classify(e).status)
  {
    match Classify(e)
    case Missing => -1
    case Success => 0
    case Failure(s) => if Strtol(s) == 0 then -1 else Strtol(s)
  }

  /** Both agree on every response whose failing status is a number other than 0, such as 400 or 503. */
  lemma StatusCodeAgrees(e: Entity)
    requires Classify(e).Failure? ==> Strtol(Classify(e).status) != 0
    ensures StatusCode(e) == StatusCodeAsWritten(e)
  {
  }

  /** A status written as a non-zero number that does not start with '2' comes back as that number. */
  lemma StatusCodeOfNumber(e: Entity, n: int)
    requires n != 0 && Status(e) == Some(IntDecimal(n)) && IntDecimal(n)[0] != '2'
    ensures StatusCode(e) == n && StatusCodeAsWritten(e) == n
  {
    StrtolIntDecimal(n);
  }
}
