/** The variant whose document store is mandatory: a failed save is a server
    error and there is no in-memory fallback (server.js). */
module MongoServer {
  import opened Contact

  const IncompleteText := "Please include firstName, email and message."
  const SentText := "Message sent successfully!"
  const ErrorText := "Server error. Try again later."
  const Subject := "\U{1F4E9} New Contact Form Message - Portfolio"
  const NoPhone := "N/A"

  class Server {
    /** The contents of the document store's collection. */
    var store: seq<DurableRecord>
    var emailConfigured: bool
    /** A mail transport was created (both credentials were set). */
    var hasTransporter: bool

    /** The documents the store held before this process started. */
    ghost var baseline: seq<DurableRecord>
    /** Every submission whose save succeeded, in arrival order. */
    ghost var accepted: seq<Submission>

    /** The store is what it was at startup followed by one document per
        accepted submission, each of them complete; mail is ready only with a
        transport. */
    ghost predicate Valid()
      reads this
    {
      (emailConfigured ==> hasTransporter) &&
      |baseline| <= |store| && store[..|baseline|] == baseline &&
      StoredSubmissions(store[|baseline|..]) == accepted &&
      (forall i :: 0 <= i < |accepted| ==> IsComplete(accepted[i]))
    }

    /** Startup: a transport is created only with both credentials, and mail
        is ready only when its verification also succeeds. The outcome of the
        store connection is only logged. */
    constructor (existing: seq<DurableRecord>, gmailUser: Field, gmailPass: Field, verify: Outcome)
      ensures Valid()
      ensures store == existing && accepted == []
      ensures hasTransporter <==> HasCredentials(gmailUser, gmailPass)
      ensures emailConfigured <==> HasCredentials(gmailUser, gmailPass) && verify.Ok?
    {
      store := existing;
      baseline := existing;
      accepted := [];
      hasTransporter := HasCredentials(gmailUser, gmailPass);
      emailConfigured := HasCredentials(gmailUser, gmailPass) && verify.Ok?;
    }

    /** POST /contact. `save` is the outcome of the document save, `mail` that
        of sendMail; `saved` is the document handed to the store and `sent` the
        notification handed to the transport, if any. */
    method Submit(s: Submission, save: Outcome, mail: Outcome, nowMs: int)
      returns (r: Response, saved: Option<DurableRecord>, sent: Option<Mail>)
      requires Valid()
      modifies this
      ensures Valid()
      ensures emailConfigured == old(emailConfigured) && hasTransporter == old(hasTransporter)
      ensures baseline == old(baseline)
      // an incomplete submission is refused: no save, no mail
      ensures !IsComplete(s) ==>
        r == Response(400, IncompleteText) && saved == None && sent == None &&
        store == old(store) && accepted == old(accepted)
      // a complete one is saved exactly once, with the five fields and the store's date
      ensures IsComplete(s) ==> saved == Some(DurableRecord(s, nowMs))
      // a failed save is a server error and nothing else happens
      ensures IsComplete(s) && save.Fail? ==>
        r == Response(500, ErrorText) && sent == None &&
        store == old(store) && accepted == old(accepted)
      // a successful save is answered 200 whatever the mail does
      ensures IsComplete(s) && save.Ok? ==>
        r == Response(200, SentText) &&
        store == old(store) + [DurableRecord(s, nowMs)] && accepted == old(accepted) + [s]
      ensures IsComplete(s) && save.Ok? ==>
        sent == if emailConfigured && hasTransporter then Some(Notice(s, Subject, NoPhone)) else None
    {
      sent := None;
      if !IsComplete(s) {
        r, saved := Response(400, IncompleteText), None;
        return;
      }
      saved := Some(DurableRecord(s, nowMs));
      if save.Fail? {
        r := Response(500, ErrorText);
        return;
      }
      StoredSubmissionsAppend(store[|baseline|..], DurableRecord(s, nowMs));
      assert (store + [DurableRecord(s, nowMs)])[|baseline|..] == store[|baseline|..] + [DurableRecord(s, nowMs)];
      store := store + [DurableRecord(s, nowMs)];
      accepted := accepted + [s];
      if emailConfigured && hasTransporter {
        // a failed send is swallowed: `mail` never reaches the response
        sent := Some(Notice(s, Subject, NoPhone));
      }
      r := Response(200, SentText);
    }
  }
}
