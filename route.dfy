/** The server side: the `POST /api/check-email` handler and `validateEmailDomain`
    (src/app/api/check-email/route.js). The DNS resolver is a parameter, so the
    classifier is a total function of the email and of what the resolver answers. */
module CheckEmailRoute {
  import opened Js

  /** `s.split(sep)` for a one-character separator: the pieces of `s` between
      occurrences of `sep`. There is always at least one piece (`"".split("@")` is `[""]`). */
  function Split(s: string, sep: char): (parts: seq<string>)
    ensures |parts| >= 1
    ensures forall i :: 0 <= i < |parts| ==> sep !in parts[i]
    decreases |s|
  {
    if |s| == 0 then [""]
    else
      var rest := Split(s[1..], sep);
      if s[0] == sep then [""] + rest
      else [[s[0]] + rest[0]] + rest[1..]
  }

  /** `parts.join(sep)`, the inverse of Split. */
  function Join(parts: seq<string>, sep: char): string
    requires |parts| >= 1
    decreases |parts|
  {
    if |parts| == 1 then parts[0] else parts[0] + [sep] + Join(parts[1..], sep)
  }

  /** One piece in front of at least one more: the join puts a separator between them. */
  lemma JoinCons(first: string, rest: seq<string>, sep: char)
    requires |rest| >= 1
    ensures Join([first] + rest, sep) == first + [sep] + Join(rest, sep)
  {
    assert ([first] + rest)[1..] == rest;
  }

  /** Joining the pieces back gives the original string. */
  lemma {:induction false} JoinSplit(s: string, sep: char)
    ensures Join(Split(s, sep), sep) == s
    decreases |s|
  {
    if |s| > 0 {
      JoinSplit(s[1..], sep);
      assert s == [s[0]] + s[1..];
      if s[0] == sep {
        JoinSplitLeadingSep(s[1..], sep);
      } else {
        JoinSplitLeadingChar(s[0], s[1..], sep);
      }
    }
  }

  /** The step of JoinSplit for a string that starts with the separator. */
  lemma JoinSplitLeadingSep(t: string, sep: char)
    requires Join(Split(t, sep), sep) == t
    ensures Join(Split([sep] + t, sep), sep) == [sep] + t
  {
    assert ([sep] + t)[1..] == t;
    JoinCons("", Split(t, sep), sep);
    assert "" + [sep] + t == [sep] + t;
  }

  /** The step of JoinSplit for a string that starts with another character. */
  lemma JoinSplitLeadingChar(c: char, t: string, sep: char)
    requires c != sep
    requires Join(Split(t, sep), sep) == t
    ensures Join(Split([c] + t, sep), sep) == [c] + t
  {
    assert ([c] + t)[1..] == t;
    var rest := Split(t, sep);
    if |rest| > 1 {
      assert rest == [rest[0]] + rest[1..];
      JoinCons(rest[0], rest[1..], sep);
      JoinCons([c] + rest[0], rest[1..], sep);
      assert [c] + rest[0] + [sep] + Join(rest[1..], sep) == [c] + (rest[0] + [sep] + Join(rest[1..], sep));
    }
  }

  /** Splitting a string that starts with a separator-free prefix `a`: `a` glues onto the
      first piece of the rest. */
  lemma {:induction false} SplitFreePrefix(a: string, t: string, sep: char)
    requires sep !in a
    ensures Split(a + t, sep) == [a + Split(t, sep)[0]] + Split(t, sep)[1..]
    decreases |a|
  {
    if |a| == 0 {
      assert a + t == t;
      assert a + Split(t, sep)[0] == Split(t, sep)[0];
      assert [a + Split(t, sep)[0]] + Split(t, sep)[1..] == Split(t, sep);
    } else {
      assert (a + t)[1..] == a[1..] + t;
      SplitFreePrefix(a[1..], t, sep);
      assert [a[0]] + (a[1..] + Split(t, sep)[0]) == a + Split(t, sep)[0];
    }
  }

  /** Splitting a join of separator-free pieces gives the pieces back. */
  lemma {:induction false} SplitJoin(parts: seq<string>, sep: char)
    requires |parts| >= 1
    requires forall i :: 0 <= i < |parts| ==> sep !in parts[i]
    ensures Split(Join(parts, sep), sep) == parts
    decreases |parts|
  {
    if |parts| == 1 {
      SplitFreePrefix(parts[0], "", sep);
      assert parts[0] + "" == parts[0];
    } else {
      var tail := Join(parts[1..], sep);
      SplitJoin(parts[1..], sep);
      assert Split([sep] + tail, sep) == [""] + parts[1..] by {
        assert ([sep] + tail)[1..] == tail;
      }
      assert parts[0] + [sep] + tail == parts[0] + ([sep] + tail);
      SplitFreePrefix(parts[0], [sep] + tail, sep);
      assert parts[0] + "" == parts[0];
    }
  }

  /** There is exactly one piece iff the separator does not occur. */
  lemma {:induction false} SplitSingle(s: string, sep: char)
    ensures |Split(s, sep)| == 1 <==> sep !in s
    decreases |s|
  {
    if |s| > 0 {
      SplitSingle(s[1..], sep);
      assert s == [s[0]] + s[1..];
    }
  }

  /** `email.split("@")[1]`: the text between the first "@" and the next "@" (or the end),
      or nothing (`undefined`) when the email has no "@" at all. */
  function Domain(email: string): (domain: Option<string>)
    ensures domain.None? <==> '@' !in email
    ensures domain.Some? ==> '@' !in domain.value
  {
    SplitSingle(email, '@');
    var parts := Split(email, '@');
    if |parts| >= 2 then Some(parts[1]) else None
  }

  /** Any email of the shape local "@" domain rest, with no "@" in local or domain and
      rest empty or starting with "@", has exactly that domain. */
  lemma DomainOfDecomposition(local: string, domain: string, rest: string)
    requires '@' !in local && '@' !in domain
    requires rest == [] || rest[0] == '@'
    ensures Domain(local + ['@'] + domain + rest) == Some(domain)
  {
    var t := ['@'] + (domain + rest);
    assert local + ['@'] + domain + rest == local + t;
    SplitFreePrefix(local, t, '@');
    assert t[1..] == domain + rest;
    SplitFreePrefix(domain, rest, '@');
    assert Split(rest, '@')[0] == "" by {
      if rest != [] {
        assert Split(rest, '@') == [""] + Split(rest[1..], '@');
      }
    }
    assert domain + "" == domain;
    assert local + "" == local;
  }

  /** Conversely, an email with a domain decomposes in exactly that shape. */
  lemma DomainDecomposes(email: string) returns (local: string, rest: string)
    requires Domain(email).Some?
    ensures '@' !in local && (rest == [] || rest[0] == '@')
    ensures email == local + ['@'] + Domain(email).value + rest
  {
    var parts := Split(email, '@');
    JoinSplit(email, '@');
    local := parts[0];
    rest := if |parts| == 2 then "" else ['@'] + Join(parts[2..], '@');
    assert parts[1..][1..] == parts[2..];
    assert Join(parts[1..], '@') == parts[1] + rest;
  }

  /** What `dns.resolveMx(domain)` settles to: a list of records (of which only the
      number matters) or a rejection of any kind. */
  datatype MxLookup = Records(count: nat) | LookupError

  /** `validateEmailDomain`: false without a lookup when the domain is missing or empty;
      otherwise true iff the lookup succeeds with at least one record. It never throws. */
  function ValidateEmailDomain(email: string, resolveMx: string -> MxLookup): (valid: bool)
    ensures valid ==> '@' in email
    ensures valid ==> Domain(email).Some? && Domain(email).value != ""
                      && resolveMx(Domain(email).value).Records?
                      && resolveMx(Domain(email).value).count > 0
  {
    match Domain(email)
    case None => false
    case Some(domain) =>
      if domain == "" then false
      else
        match resolveMx(domain)
        case Records(n) => n > 0
        case LookupError => false
  }

  /** For a well-formed domain segment, the verdict is "the lookup found at least one MX
      record", and a lookup error gives false. */
  lemma ValidIffRecords(local: string, domain: string, rest: string, resolveMx: string -> MxLookup)
    requires '@' !in local && '@' !in domain && domain != ""
    requires rest == [] || rest[0] == '@'
    ensures ValidateEmailDomain(local + ['@'] + domain + rest, resolveMx)
            <==> resolveMx(domain).Records? && resolveMx(domain).count > 0
    ensures resolveMx(domain).LookupError? ==> !ValidateEmailDomain(local + ['@'] + domain + rest, resolveMx)
  {
    DomainOfDecomposition(local, domain, rest);
  }

  /** An empty segment after the first "@" ("a@", "a@@b") gives false whatever the
      resolver would answer: no lookup decides it. */
  lemma EmptyDomainIsInvalid(local: string, rest: string, resolveMx: string -> MxLookup)
    requires '@' !in local
    requires rest == [] || rest[0] == '@'
    ensures !ValidateEmailDomain(local + ['@'] + rest, resolveMx)
  {
    DomainOfDecomposition(local, "", rest);
    assert local + ['@'] + "" + rest == local + ['@'] + rest;
  }

  /** For "a@b@c" the domain looked up is "b", not "b@c". */
  lemma SecondAtEndsDomain(resolveMx: string -> MxLookup)
    ensures Domain("a@b@c") == Some("b")
    ensures ValidateEmailDomain("a@b@c", resolveMx) <==> resolveMx("b").Records? && resolveMx("b").count > 0
  {
    assert "a@b@c" == "a" + ['@'] + "b" + "@c";
    DomainOfDecomposition("a", "b", "@c");
    ValidIffRecords("a", "b", "@c", resolveMx);
  }

  /** What `await request.json()` gives: a decoded JSON value, or a rejection. */
  datatype RequestBody = Unparseable | Parsed(json: JsValue)

  /** The three responses of the handler. */
  datatype Response = EmailRequired | Checked(isValid: bool) | Failed

  function StatusCode(response: Response): (code: int)
    ensures code == 200 <==> response.Checked?
    ensures code == 400 <==> response.EmailRequired?
    ensures code == 500 <==> response.Failed?
  {
    match response
    case EmailRequired => 400
    case Checked(_) => 200
    case Failed => 500
  }

  /** The JSON body that `NextResponse.json` sends for each response. */
  function ResponseBody(response: Response): (body: JsValue)
    ensures body.JObject?
    ensures "isValid" in body.fields <==> response.Checked?
    ensures response.Checked? ==> body.fields["isValid"] == JBool(response.isValid)
    ensures !response.Checked? ==> "error" in body.fields && body.fields["error"].JString?
    ensures response.EmailRequired? ==> body.fields["error"] == JString("Email is required")
    ensures response.Failed? ==> body.fields["error"] == JString("An error occurred")
  {
    match response
    case EmailRequired => JObject(map["error" := JString("Email is required")])
    case Checked(isValid) => JObject(map["isValid" := JBool(isValid)])
    case Failed => JObject(map["error" := JString("An error occurred")])
  }

  /** `const { email } = await request.json()`: the email value, or None when either step
      throws (a body that is not JSON, or the JSON value `null`). */
  function EmailArgument(request: RequestBody): (email: Option<JsValue>)
    ensures email.None? <==> request.Unparseable? || request.json.JNull? || request.json.JUndefined?
    ensures email.Some? && email.value != JUndefined ==>
              request.json.JObject? && "email" in request.json.fields && email.value == request.json.fields["email"]
    ensures request.Parsed? && request.json.JObject? && "email" in request.json.fields ==>
              email == Some(request.json.fields["email"])
  {
    match request
    case Unparseable => None
    case Parsed(json) =>
      match Property(json, "email")
      case TypeError => None
      case Read(email) => Some(email)
  }

  /** `POST`: 400 for a falsy email, 200 with the verdict for a non-empty string, and 500
      for every exception: an unreadable body, or a truthy email that is not a string
      (`email.split` is not a function, a rejection that the handler's catch receives). */
  function Post(request: RequestBody, resolveMx: string -> MxLookup): (response: Response)
    ensures request.Unparseable? ==> response.Failed?
    ensures response.EmailRequired? <==> EmailArgument(request).Some? && !Truthy(EmailArgument(request).value)
    ensures response.Checked? <==> EmailArgument(request).Some? && EmailArgument(request).value.JString?
                                   && EmailArgument(request).value.s != ""
    ensures response.Checked? ==> response.isValid == ValidateEmailDomain(EmailArgument(request).value.s, resolveMx)
  {
    match EmailArgument(request)
    case None => Failed
    case Some(email) =>
      if !Truthy(email) then EmailRequired
      else
        match email
        case JString(s) => Checked(ValidateEmailDomain(s, resolveMx))
        case _ => Failed
  }

  /** Only a 200 response depends on the resolver: a 400 or a 500 is decided before any
      validation runs. */
  lemma NoValidationUnlessChecked(request: RequestBody, resolve1: string -> MxLookup, resolve2: string -> MxLookup)
    ensures Post(request, resolve1).Checked? == Post(request, resolve2).Checked?
    ensures !Post(request, resolve1).Checked? ==> Post(request, resolve1) == Post(request, resolve2)
  {
  }

  /** The request shapes the handler distinguishes, spelled out. */
  lemma PostCases(fields: map<string, JsValue>, resolveMx: string -> MxLookup)
    ensures Post(Unparseable, resolveMx) == Failed
    ensures Post(Parsed(JNull), resolveMx) == Failed
    ensures "email" !in fields ==> Post(Parsed(JObject(fields)), resolveMx) == EmailRequired
    ensures "email" in fields && fields["email"] == JString("") ==> Post(Parsed(JObject(fields)), resolveMx) == EmailRequired
    ensures "email" in fields && fields["email"] == JNumber(1.0) ==> Post(Parsed(JObject(fields)), resolveMx) == Failed
    ensures forall s :: "email" in fields && fields["email"] == JString(s) && s != "" ==>
              Post(Parsed(JObject(fields)), resolveMx) == Checked(ValidateEmailDomain(s, resolveMx))
  {
  }
}
