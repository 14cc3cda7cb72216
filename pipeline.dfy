/** The client and the server together: the page posts `{ email }` to the handler, and the
    handler's response, delivered intact, is what `checkDeliverability` reads. */
module Pipeline {
  import opened Js
  import opened CheckEmailRoute
  import opened EmailBatch

  /** The body `JSON.stringify({ email })`, as the handler decodes it. */
  function RequestFor(email: string): (request: RequestBody)
    ensures EmailArgument(request) == Some(JString(email))
  {
    Parsed(JObject(map["email" := JString(email)]))
  }

  /** The handler's response as the page receives it. */
  function Deliver(response: Response): (reply: Reply)
    ensures reply.Received? && reply.httpStatus == StatusCode(response)
    ensures ConfirmsValid(reply) <==> response == Checked(true)
  {
    Received(StatusCode(response), Json(ResponseBody(response)))
  }

  /** The reply the page gets for one email when the server answers with `resolveMx`. */
  function ServerReply(email: string, resolveMx: string -> MxLookup): Reply {
    Deliver(Post(RequestFor(email), resolveMx))
  }

  /** An email settles as Valid exactly when the server's `validateEmailDomain` accepts
      it. (An empty email gets the 400 reply, which settles Invalid, and the classifier
      rejects it too, having no "@".) */
  lemma ServerVerdictReachesClient(email: string, resolveMx: string -> MxLookup)
    ensures Settle(ServerReply(email, resolveMx)) == Valid <==> ValidateEmailDomain(email, resolveMx)
  {
  }

  /** The replies for a whole list, one per dispatched check. */
  function ServerReplies(emails: seq<string>, resolveMx: string -> MxLookup): (replies: seq<Reply>)
    ensures |replies| == |emails|
    ensures forall i :: 0 <= i < |emails| ==> replies[i] == ServerReply(emails[i], resolveMx)
  {
    seq(|emails|, i requires 0 <= i < |emails| => ServerReply(emails[i], resolveMx))
  }

  /** After a batch answered by the server, every email of the list is Valid exactly when
      the server's classifier accepts it, and the export is the accepted emails. */
  lemma BatchAgreesWithServer(statuses: map<string, Status>, emails: seq<string>, resolveMx: string -> MxLookup, i: nat)
    requires i < |emails|
    ensures var after := AfterChecks(statuses, emails, ServerReplies(emails, resolveMx));
            emails[i] in after && (after[emails[i]] == Valid <==> ValidateEmailDomain(emails[i], resolveMx))
    ensures var after := AfterChecks(statuses, emails, ServerReplies(emails, resolveMx));
            emails[i] in ValidEmails(emails, after) <==> ValidateEmailDomain(emails[i], resolveMx)
  {
    var replies := ServerReplies(emails, resolveMx);
    forall j, k | 0 <= j < |emails| && 0 <= k < |emails| && emails[j] == emails[k]
      ensures Settle(replies[j]) == Settle(replies[k])
    {
    }
    AfterChecksConsistent(statuses, emails, replies, i);
    ServerVerdictReachesClient(emails[i], resolveMx);
  }

  /** The resolver of the two-address scenario: only example.com has an MX record. */
  function ScenarioMx(domain: string): MxLookup {
    if domain == "example.com" then Records(1) else Records(0)
  }

  /** The scenario's valid address: its domain has one record. */
  lemma AliceValid()
    ensures Settle(ServerReply("alice@example.com", ScenarioMx)) == Valid
  {
    assert "alice@example.com" == "alice" + ['@'] + "example.com" + "";
    ValidIffRecords("alice", "example.com", "", ScenarioMx);
    ServerVerdictReachesClient("alice@example.com", ScenarioMx);
  }

  /** The scenario's invalid address: its domain has none. */
  lemma BobInvalid()
    ensures Settle(ServerReply("bob@no-mx-domain.test", ScenarioMx)) == Invalid
  {
    assert "bob@no-mx-domain.test" == "bob" + ['@'] + "no-mx-domain.test" + "";
    ValidIffRecords("bob", "no-mx-domain.test", "", ScenarioMx);
    ServerVerdictReachesClient("bob@no-mx-domain.test", ScenarioMx);
  }

  /** Two distinct emails, the first settling Valid and the second Invalid. */
  lemma TwoChecks(first: string, second: string, r1: Reply, r2: Reply)
    requires first != second && Settle(r1) == Valid && Settle(r2) == Invalid
    ensures AfterChecks(map[], [first, second], [r1, r2]) == map[first := Valid, second := Invalid]
  {
    assert [first, second][..1] == [first] && [r1, r2][..1] == [r1];
    assert [first][..0] == [] && [r1][..0] == [];
    assert AfterChecks(map[], [first][..0], [r1][..0]) == map[];
    var after1 := AfterChecks(map[], [first], [r1]);
    assert after1 == Merge(Merge(map[], first, Checking), first, Valid);
    assert after1 == map[first := Valid];
    assert AfterChecks(map[], [first, second], [r1, r2]) == Merge(Merge(after1, second, Checking), second, Invalid);
  }

  /** The scenario's two rows give its two emails. */
  lemma ScenarioExtract()
    ensures ExtractEmails([["alice@example.com"], ["bob@no-mx-domain.test"]])
            == ["alice@example.com", "bob@no-mx-domain.test"]
  {
    ExtractAppend([["alice@example.com"]], [["bob@no-mx-domain.test"]]);
  }

  /** The scenario's export holds alice alone. */
  lemma ScenarioExport()
    ensures ValidEmails(["alice@example.com", "bob@no-mx-domain.test"],
                        map["alice@example.com" := Valid, "bob@no-mx-domain.test" := Invalid])
            == ["alice@example.com"]
  {
  }

  /** A two-email list gets one reply per email, in order. */
  lemma TwoReplies(first: string, second: string, resolveMx: string -> MxLookup)
    ensures ServerReplies([first, second], resolveMx) == [ServerReply(first, resolveMx), ServerReply(second, resolveMx)]
  {
    var replies := ServerReplies([first, second], resolveMx);
    assert replies[0] == ServerReply(first, resolveMx);
    assert replies[1] == ServerReply(second, resolveMx);
  }

  /** The scenario's status map after the batch. */
  lemma ScenarioChecks()
    ensures AfterChecks(map[], ["alice@example.com", "bob@no-mx-domain.test"],
                        ServerReplies(["alice@example.com", "bob@no-mx-domain.test"], ScenarioMx))
            == map["alice@example.com" := Valid, "bob@no-mx-domain.test" := Invalid]
  {
    var alice, bob := "alice@example.com", "bob@no-mx-domain.test";
    var ra, rb := ServerReply(alice, ScenarioMx), ServerReply(bob, ScenarioMx);
    TwoReplies(alice, bob, ScenarioMx);
    AliceValid();
    BobInvalid();
    TwoChecks(alice, bob, ra, rb);
  }

  /** The two-address scenario: alice ends Valid, bob Invalid, and the export holds
      alice alone. */
  lemma AliceAndBob()
    ensures var emails := ExtractEmails([["alice@example.com"], ["bob@no-mx-domain.test"]]);
            var after := AfterChecks(map[], emails, ServerReplies(emails, ScenarioMx));
            && emails == ["alice@example.com", "bob@no-mx-domain.test"]
            && after == map["alice@example.com" := Valid, "bob@no-mx-domain.test" := Invalid]
            && ValidEmails(emails, after) == ["alice@example.com"]
  {
    ScenarioExtract();
    ScenarioChecks();
    ScenarioExport();
  }
}
