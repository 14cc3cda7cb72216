/** The client side (src/app/page.jsx): pulling candidate emails out of parsed CSV rows,
    the per-email status map, turning each server reply into a status, and the export of
    the emails found valid. The component's state is the class BatchChecker. */
module EmailBatch {
  import opened Js

  /** One parsed CSV row: its fields, in order. */
  type Row = seq<string>

  /** The three status strings the component stores: "Checking...", "Valid", "Invalid". */
  datatype Status = Checking | Valid | Invalid

  /** `row[0]` passes `.filter((email) => email)`: it exists and is not the empty string. */
  predicate HasEmail(row: Row) {
    |row| > 0 && row[0] != ""
  }

  /** `results.data.map((row) => row[0]).filter((email) => email)`. */
  function ExtractEmails(rows: seq<Row>): (emails: seq<string>)
    ensures |emails| <= |rows|
    ensures forall i :: 0 <= i < |emails| ==> emails[i] != ""
  {
    if rows == [] then []
    else (if HasEmail(rows[0]) then [rows[0][0]] else []) + ExtractEmails(rows[1..])
  }

  /** An email is extracted iff some row has it as its non-empty first field. */
  lemma {:induction false} ExtractMembers(rows: seq<Row>, e: string)
    ensures e in ExtractEmails(rows) <==> exists i :: 0 <= i < |rows| && HasEmail(rows[i]) && rows[i][0] == e
    decreases |rows|
  {
    if rows != [] {
      ExtractMembers(rows[1..], e);
      if e in ExtractEmails(rows) && !(HasEmail(rows[0]) && rows[0][0] == e) {
        var k :| 0 <= k < |rows[1..]| && HasEmail(rows[1..][k]) && rows[1..][k][0] == e;
        assert rows[k + 1] == rows[1..][k];
      }
      if exists i :: 0 <= i < |rows| && HasEmail(rows[i]) && rows[i][0] == e {
        var i :| 0 <= i < |rows| && HasEmail(rows[i]) && rows[i][0] == e;
        if i > 0 {
          assert rows[1..][i - 1] == rows[i];
        }
      }
    }
  }

  /** Extraction works row by row: it keeps file order, and each row contributes its first
      field when that is non-empty, and nothing otherwise. */
  lemma {:induction false} ExtractAppend(a: seq<Row>, b: seq<Row>)
    ensures ExtractEmails(a + b) == ExtractEmails(a) + ExtractEmails(b)
    decreases |a|
  {
    if a == [] {
      assert a + b == b;
    } else {
      assert (a + b)[1..] == a[1..] + b;
      ExtractAppend(a[1..], b);
    }
  }

  /** A header field "email" and a lone space are kept; a row with no field is dropped. */
  lemma ExtractKeepsHeader()
    ensures ExtractEmails([["email"], [" "], []]) == ["email", " "]
  {
  }

  /** A row with an empty first field is dropped; a repeated address is kept twice. */
  lemma ExtractKeepsDuplicates()
    ensures ExtractEmails([["", "x@y.z"], ["a@b.c"], ["a@b.c"]]) == ["a@b.c", "a@b.c"]
  {
  }

  /** No header detection, no trimming, no deduplication: a header field "email", a lone
      space and a repeated address are all kept; rows with no or an empty first field are
      dropped. */
  lemma ExtractIsNaive()
    ensures ExtractEmails([["email"], [" "], [], ["", "x@y.z"], ["a@b.c"], ["a@b.c"]])
            == ["email", " ", "a@b.c", "a@b.c"]
  {
    var front: seq<Row> := [["email"], [" "], []];
    var back: seq<Row> := [["", "x@y.z"], ["a@b.c"], ["a@b.c"]];
    ExtractKeepsHeader();
    ExtractKeepsDuplicates();
    ExtractAppend(front, back);
    assert front + back == [["email"], [" "], [], ["", "x@y.z"], ["a@b.c"], ["a@b.c"]];
  }

  /** What the server's reply amounts to: no reply at all (`fetch` rejects), or a reply
      with an HTTP status and a body that is or is not JSON. */
  datatype ReplyBody = NotJson | Json(data: JsValue)
  datatype Reply = NetworkError | Received(httpStatus: int, body: ReplyBody)

  /** The reply carries an `isValid` that is truthy. Its HTTP status plays no part:
      `response.ok` is never consulted. */
  predicate ConfirmsValid(reply: Reply) {
    && reply.Received?
    && reply.body.Json?
    && reply.body.data.JObject?
    && "isValid" in reply.body.data.fields
    && Truthy(reply.body.data.fields["isValid"])
  }

  /** `checkDeliverability`: the reply's `data.isValid`, or `false` when the request, the
      JSON decoding or the property read throws. */
  function CheckDeliverability(reply: Reply): (isValid: JsValue)
    ensures reply.NetworkError? || reply.body.NotJson? ==> isValid == JBool(false)
    ensures reply.Received? && reply.body.Json? && reply.body.data.JNull? ==> isValid == JBool(false)
    ensures Truthy(isValid) <==> ConfirmsValid(reply)
  {
    match reply
    case NetworkError => JBool(false)
    case Received(_, NotJson) => JBool(false)
    case Received(_, Json(data)) =>
      match Property(data, "isValid")
      case TypeError => JBool(false)
      case Read(v) => v
  }

  /** The terminal status written once the check of one email settles
      (`isValid ? "Valid" : "Invalid"`). */
  function Settle(reply: Reply): (status: Status)
    ensures status != Checking
    ensures status == Valid <==> ConfirmsValid(reply)
  {
    if Truthy(CheckDeliverability(reply)) then Valid else Invalid
  }

  /** A reply without a truthy `isValid` (an error body, a non-OK status, a body that is
      not JSON, a network failure) always settles as Invalid. */
  lemma UnconfirmedIsInvalid(httpStatus: int, fields: map<string, JsValue>)
    ensures Settle(NetworkError) == Invalid
    ensures Settle(Received(httpStatus, NotJson)) == Invalid
    ensures Settle(Received(httpStatus, Json(JNull))) == Invalid
    ensures "isValid" !in fields ==> Settle(Received(httpStatus, Json(JObject(fields)))) == Invalid
    ensures Settle(Received(httpStatus, Json(JObject(fields["isValid" := JBool(false)])))) == Invalid
    ensures Settle(Received(httpStatus, Json(JObject(fields["isValid" := JBool(true)])))) == Valid
  {
  }

  /** `setEmailStatuses((prev) => ({ ...prev, [key]: status }))`: one key changes, every
      other key keeps its entry (or its absence). */
  function Merge(statuses: map<string, Status>, key: string, status: Status): (merged: map<string, Status>)
    ensures key in merged && merged[key] == status
    ensures merged.Keys == statuses.Keys + {key}
    ensures forall k :: k != key && k in statuses ==> merged[k] == statuses[k]
  {
    statuses[key := status]
  }

  /** The status map after checking `emails` in order, the i-th check answered by
      `replies[i]`: each email is marked Checking, then given its terminal status. */
  function AfterChecks(statuses: map<string, Status>, emails: seq<string>, replies: seq<Reply>): (after: map<string, Status>)
    requires |emails| == |replies|
    ensures statuses.Keys <= after.Keys
    ensures forall i :: 0 <= i < |emails| ==> emails[i] in after
    decreases |emails|
  {
    if emails == [] then statuses
    else
      var n := |emails| - 1;
      var before := AfterChecks(statuses, emails[..n], replies[..n]);
      Merge(Merge(before, emails[n], Checking), emails[n], Settle(replies[n]))
  }

  /** One more check extends the batch by the two writes for that email. */
  lemma AfterChecksStep(statuses: map<string, Status>, emails: seq<string>, replies: seq<Reply>, i: nat)
    requires |emails| == |replies| && i < |emails|
    ensures AfterChecks(statuses, emails[..i + 1], replies[..i + 1])
            == Merge(Merge(AfterChecks(statuses, emails[..i], replies[..i]), emails[i], Checking), emails[i], Settle(replies[i]))
  {
    assert emails[..i + 1][..i] == emails[..i];
    assert replies[..i + 1][..i] == replies[..i];
  }

  /** The batch adds exactly the checked emails as keys. */
  lemma {:induction false} AfterChecksKeys(statuses: map<string, Status>, emails: seq<string>, replies: seq<Reply>)
    requires |emails| == |replies|
    ensures AfterChecks(statuses, emails, replies).Keys == statuses.Keys + set e | e in emails
    decreases |emails|
  {
    if emails != [] {
      var n := |emails| - 1;
      AfterChecksKeys(statuses, emails[..n], replies[..n]);
      assert emails == emails[..n] + [emails[n]];
      assert (set e | e in emails) == (set e | e in emails[..n]) + {emails[n]};
    }
  }

  /** Keys that are not checked keep their entry (or their absence). */
  lemma {:induction false} AfterChecksFrame(statuses: map<string, Status>, emails: seq<string>, replies: seq<Reply>, k: string)
    requires |emails| == |replies|
    requires k !in emails
    ensures k in AfterChecks(statuses, emails, replies) <==> k in statuses
    ensures k in statuses ==> AfterChecks(statuses, emails, replies)[k] == statuses[k]
    decreases |emails|
  {
    if emails != [] {
      var n := |emails| - 1;
      assert emails == emails[..n] + [emails[n]];
      AfterChecksFrame(statuses, emails[..n], replies[..n], k);
    }
  }

  /** Every checked email ends Valid or Invalid, never Checking. */
  lemma {:induction false} AfterChecksSettled(statuses: map<string, Status>, emails: seq<string>, replies: seq<Reply>, i: nat)
    requires |emails| == |replies|
    requires i < |emails|
    ensures emails[i] in AfterChecks(statuses, emails, replies)
    ensures AfterChecks(statuses, emails, replies)[emails[i]] != Checking
    decreases |emails|
  {
    var n := |emails| - 1;
    if i < n && emails[i] != emails[n] {
      AfterChecksSettled(statuses, emails[..n], replies[..n], i);
    }
  }

  /** Last write wins: an email's final status is the one its last check produced. */
  lemma {:induction false} AfterChecksLastWrite(statuses: map<string, Status>, emails: seq<string>, replies: seq<Reply>, i: nat)
    requires |emails| == |replies|
    requires i < |emails|
    requires forall j :: i < j < |emails| ==> emails[j] != emails[i]
    ensures emails[i] in AfterChecks(statuses, emails, replies)
    ensures AfterChecks(statuses, emails, replies)[emails[i]] == Settle(replies[i])
    decreases |emails|
  {
    var n := |emails| - 1;
    if i < n {
      var prefix := emails[..n];
      forall j | i < j < |prefix|
        ensures prefix[j] != prefix[i]
      {
        assert prefix[j] == emails[j];
      }
      AfterChecksLastWrite(statuses, prefix, replies[..n], i);
    }
  }

  /** When every check of the same email is answered alike, each email's final status is
      the one its replies give. */
  lemma {:induction false} AfterChecksConsistent(statuses: map<string, Status>, emails: seq<string>, replies: seq<Reply>, i: nat)
    requires |emails| == |replies|
    requires i < |emails|
    requires forall j, k :: 0 <= j < |emails| && 0 <= k < |emails| && emails[j] == emails[k] ==> Settle(replies[j]) == Settle(replies[k])
    ensures emails[i] in AfterChecks(statuses, emails, replies)
    ensures AfterChecks(statuses, emails, replies)[emails[i]] == Settle(replies[i])
    decreases |emails|
  {
    var n := |emails| - 1;
    if i < n && emails[i] != emails[n] {
      AfterChecksConsistent(statuses, emails[..n], replies[..n], i);
    }
  }

  /** `emailStatuses[email] === "Valid"`: a missing key is `undefined`, not "Valid". */
  predicate MarkedValid(statuses: map<string, Status>, email: string) {
    email in statuses && statuses[email] == Valid
  }

  /** `emails.filter((email) => emailStatuses[email] === "Valid")`. */
  function ValidEmails(emails: seq<string>, statuses: map<string, Status>): (valid: seq<string>)
    ensures |valid| <= |emails|
    ensures forall e :: e in valid ==> e in emails && MarkedValid(statuses, e)
    ensures forall e :: e in emails && MarkedValid(statuses, e) ==> e in valid
  {
    if emails == [] then []
    else (if MarkedValid(statuses, emails[0]) then [emails[0]] else []) + ValidEmails(emails[1..], statuses)
  }

  /** The filter keeps the list's order. */
  lemma {:induction false} ValidEmailsAppend(a: seq<string>, b: seq<string>, statuses: map<string, Status>)
    ensures ValidEmails(a + b, statuses) == ValidEmails(a, statuses) + ValidEmails(b, statuses)
    decreases |a|
  {
    if a == [] {
      assert a + b == b;
    } else {
      assert (a + b)[1..] == a[1..] + b;
      ValidEmailsAppend(a[1..], b, statuses);
    }
  }

  /** The filter keeps duplicates: a valid email occurs as often as in the list, any other
      not at all. */
  lemma {:induction false} ValidEmailsCount(emails: seq<string>, statuses: map<string, Status>, e: string)
    ensures multiset(ValidEmails(emails, statuses))[e] == if MarkedValid(statuses, e) then multiset(emails)[e] else 0
    decreases |emails|
  {
    if emails != [] {
      ValidEmailsCount(emails[1..], statuses, e);
      assert emails == [emails[0]] + emails[1..];
    }
  }

  /** `validEmails.map((email) => [email])`: one single-field row per email. */
  function AsRows(emails: seq<string>): (rows: seq<Row>)
    ensures |rows| == |emails|
    ensures forall i :: 0 <= i < |rows| ==> |rows[i]| == 1 && rows[i][0] == emails[i]
  {
    seq(|emails|, i requires 0 <= i < |emails| => [emails[i]])
  }

  /** Reading the exported rows back gives the exported emails again, in order. */
  lemma {:induction false} ExtractAsRows(emails: seq<string>)
    requires forall i :: 0 <= i < |emails| ==> emails[i] != ""
    ensures ExtractEmails(AsRows(emails)) == emails
    decreases |emails|
  {
    if emails != [] {
      var rows := AsRows(emails);
      assert rows[0] == [emails[0]];
      assert rows[1..] == AsRows(emails[1..]);
      ExtractAsRows(emails[1..]);
      assert ExtractEmails(rows) == [emails[0]] + ExtractEmails(rows[1..]);
    }
  }

  const NoValidEmailsAdvisory := "No valid emails to download."
  const ExportFileName := "valid_emails.csv"

  /** The outcome of the download button: an advisory, or a file of rows. */
  datatype Export = Advisory(message: string) | Download(fileName: string, rows: seq<Row>)

  /** What the CSV library hands to the upload handler: the parsed rows (`complete`), or
      a failure to read the file (`error`). */
  datatype ParseOutcome = Complete(rows: seq<Row>) | ReadFailure

  /** The component's state. */
  class BatchChecker {
    var emails: seq<string>
    var statuses: map<string, Status>
    var isChecking: bool
    var checked: bool

    /** Every listed email is non-empty: the list only ever comes from ExtractEmails. */
    ghost predicate Consistent()
      reads this
    {
      forall i :: 0 <= i < |emails| ==> emails[i] != ""
    }

    /** The `useState` initial values. */
    constructor ()
      ensures Consistent()
      ensures emails == [] && statuses == map[] && !isChecking && !checked
    {
      emails := [];
      statuses := map[];
      isChecking := false;
      checked := false;
    }

    /** `handleFileUpload`: on parsed rows, replace the list, clear the statuses and the
      checking flag (`checked` is left as it was); on a read failure, change nothing. */
    method LoadRows(parsed: ParseOutcome)
      requires Consistent()
      modifies this
      ensures Consistent()
      ensures parsed.ReadFailure? ==>
                emails == old(emails) && statuses == old(statuses)
                && isChecking == old(isChecking) && checked == old(checked)
      ensures parsed.Complete? ==>
                emails == ExtractEmails(parsed.rows) && statuses == map[]
                && !isChecking && checked == old(checked)
    {
      match parsed
      case ReadFailure =>
      case Complete(rows) =>
        emails := ExtractEmails(rows);
        statuses := map[];
        isChecking := false;
    }

    /** One merge-style status update. */
    method Publish(email: string, status: Status)
      modifies this
      ensures statuses == Merge(old(statuses), email, status)
      ensures emails == old(emails) && isChecking == old(isChecking) && checked == old(checked)
    {
      statuses := Merge(statuses, email, status);
    }

    /** `handleCheckAllEmails`, each check run to completion in list order; `replies[i]`
      is what the request for `emails[i]` came back with. */
    method CheckAll(replies: seq<Reply>)
      requires Consistent()
      requires |replies| == |emails|
      modifies this
      ensures Consistent()
      ensures emails == old(emails)
      ensures statuses == AfterChecks(old(statuses), emails, replies)
      ensures !isChecking && checked
    {
      isChecking := true;
      var i := 0;
      while i < |emails|
        invariant 0 <= i <= |emails|
        invariant emails == old(emails)
        invariant statuses == AfterChecks(old(statuses), emails[..i], replies[..i])
      {
        var email := emails[i];
        Publish(email, Checking);
        var isValid := CheckDeliverability(replies[i]);
        Publish(email, if Truthy(isValid) then Valid else Invalid);
        AfterChecksStep(old(statuses), emails, replies, i);
        i := i + 1;
      }
      assert emails[..i] == emails;
      assert replies[..i] == replies;
      isChecking := false;
      checked := true;
    }

    /** `handleDownloadValidEmails`: the advisory when no email is marked Valid, otherwise
      a file with one row per valid email, in list order. */
    method ExportValid() returns (outcome: Export)
      requires Consistent()
      ensures outcome.Advisory? <==> ValidEmails(emails, statuses) == []
      ensures outcome.Advisory? ==> outcome.message == NoValidEmailsAdvisory
      ensures outcome.Download? ==>
                outcome.fileName == ExportFileName
                && outcome.rows == AsRows(ValidEmails(emails, statuses))
                && ExtractEmails(outcome.rows) == ValidEmails(emails, statuses)
    {
      var valid := ValidEmails(emails, statuses);
      if |valid| == 0 {
        return Advisory(NoValidEmailsAdvisory);
      }
      forall i | 0 <= i < |valid| ensures valid[i] != "" {
        assert valid[i] in valid;
      }
      ExtractAsRows(valid);
      outcome := Download(ExportFileName, AsRows(valid));
    }
  }
}
