/** The variant with an optional document store and an in-memory fallback
    (server-robust.js). The document store and the mail transport are reached
    only through the Outcome of each call; the clock is passed in. */
module RobustServer {
  import opened Contact

  const IncompleteText := "Please include firstName, email and message."
  const SentText := "Message sent successfully!"
  const Subject := "\U{1F4E9} New Contact Form Message"
  const NoPhone := "N/A"
  const Banner := "Portfolio Backend API is running!"

  /** Which collection GET /messages returned. */
  datatype Listed = Docs(docs: seq<DurableRecord>) | Records(records: seq<MemoryRecord>)

  /** The body of GET /messages. */
  datatype MessagesReply = MessagesReply(messages: Listed, source: string, count: int)

  /** The body of GET /. */
  datatype HealthReply = HealthReply(message: string, mongodb: string, email: string)

  function Length(l: Listed): nat {
    match l
    case Docs(docs) => |docs|
    case Records(records) => |records|
  }

  class Server {
    /** The module-level `messages` array. */
    var messages: seq<MemoryRecord>
    /** The contents of the document store's collection. */
    var store: seq<DurableRecord>
    var mongoConnected: bool
    var emailConfigured: bool
    /** A mail transport was created (both credentials were set). */
    var hasTransporter: bool

    /** The documents the store held before this process started. */
    ghost var baseline: seq<DurableRecord>
    /** Every valid submission accepted so far, in arrival order. */
    ghost var accepted: seq<Submission>

    /** Every accepted submission was complete and sits in exactly one of the
        two stores; mail is ready only with a transport. */
    ghost predicate Valid()
      reads this
    {
      (emailConfigured ==> hasTransporter) &&
      |baseline| <= |store| && store[..|baseline|] == baseline &&
      (forall i :: 0 <= i < |accepted| ==> IsComplete(accepted[i])) &&
      multiset(MemorySubmissions(messages)) + multiset(StoredSubmissions(store[|baseline|..]))
        == multiset(accepted)
    }

    /** Startup: the connection attempt sets `mongoConnected`; a transport is
        created only with both credentials, and mail is ready only when its
        verification also succeeds. */
    constructor (existing: seq<DurableRecord>, connect: Outcome,
                 gmailUser: Field, gmailPass: Field, verify: Outcome)
      ensures Valid()
      ensures messages == [] && store == existing && accepted == []
      ensures mongoConnected <==> connect.Ok?
      ensures hasTransporter <==> HasCredentials(gmailUser, gmailPass)
      ensures emailConfigured <==> HasCredentials(gmailUser, gmailPass) && verify.Ok?
    {
      messages := [];
      store := existing;
      baseline := existing;
      accepted := [];
      mongoConnected := connect.Ok?;
      hasTransporter := HasCredentials(gmailUser, gmailPass);
      emailConfigured := HasCredentials(gmailUser, gmailPass) && verify.Ok?;
    }

    /** POST /contact. `save` is the outcome of the document save (consulted
        only when the store is connected), `mail` that of sendMail; `sent` is
        the notification handed to the transport, if any. */
    method Submit(s: Submission, save: Outcome, mail: Outcome, nowMs: int, nowIso: string)
      returns (r: Response, sent: Option<Mail>)
      requires Valid()
      modifies this
      ensures Valid()
      ensures mongoConnected == old(mongoConnected) && emailConfigured == old(emailConfigured)
      ensures hasTransporter == old(hasTransporter) && baseline == old(baseline)
      // an incomplete submission is refused and changes nothing
      ensures !IsComplete(s) ==>
        r == Response(400, IncompleteText) && sent == None &&
        messages == old(messages) && store == old(store) && accepted == old(accepted)
      // a complete one is answered 200 whatever the store and the mail did
      ensures IsComplete(s) ==> r == Response(200, SentText) && accepted == old(accepted) + [s]
      ensures IsComplete(s) && old(mongoConnected) && save.Ok? ==>
        store == old(store) + [DurableRecord(s, nowMs)] && messages == old(messages)
      ensures IsComplete(s) && (!old(mongoConnected) || save.Fail?) ==>
        messages == old(messages) + [MemoryRecord(nowMs, s, nowIso)] && store == old(store)
      // mail is attempted exactly when the submission is complete and mail is ready
      ensures sent == if IsComplete(s) && emailConfigured then Some(Notice(s, Subject, NoPhone)) else None
    {
      sent := None;
      if !IsComplete(s) {
        r := Response(400, IncompleteText);
        return;
      }
      if mongoConnected && save.Ok? {
        StoredSubmissionsAppend(store[|baseline|..], DurableRecord(s, nowMs));
        assert (store + [DurableRecord(s, nowMs)])[|baseline|..] == store[|baseline|..] + [DurableRecord(s, nowMs)];
        store := store + [DurableRecord(s, nowMs)];
      } else {
        // the store is not connected, or its save threw: the flag stays as it was
        MemorySubmissionsAppend(messages, MemoryRecord(nowMs, s, nowIso));
        messages := messages + [MemoryRecord(nowMs, s, nowIso)];
      }
      accepted := accepted + [s];
      if emailConfigured {
        // a failed send is swallowed: `mail` never reaches the response
        sent := Some(Notice(s, Subject, NoPhone));
      }
      r := Response(200, SentText);
    }

    /** GET /messages. `find` is the outcome of the store query (consulted only
        when the store is connected). The in-memory list is answered reversed,
        and `reverse` reverses the stored list too. */
    method ListMessages(find: Outcome) returns (reply: MessagesReply)
      requires Valid()
      modifies this
      ensures Valid()
      ensures mongoConnected == old(mongoConnected) && emailConfigured == old(emailConfigured)
      ensures hasTransporter == old(hasTransporter)
      ensures store == old(store) && baseline == old(baseline) && accepted == old(accepted)
      ensures mongoConnected && find.Ok? ==>
        reply.messages == Docs(store) && messages == old(messages)
      ensures !(mongoConnected && find.Ok?) ==>
        messages == Reversed(old(messages)) && reply.messages == Records(messages)
      // the label follows the flag, even when memory was served after a failed query
      ensures reply.source == if mongoConnected then "mongodb" else "memory"
      ensures reply.count == Length(reply.messages)
    {
      var all: Listed;
      if mongoConnected && find.Ok? {
        all := Docs(store);
      } else {
        MemorySubmissionsReversed(messages);
        messages := Reversed(messages);
        all := Records(messages);
      }
      reply := MessagesReply(all, if mongoConnected then "mongodb" else "memory", Length(all));
    }

    /** GET /: the fixed banner and a label for each startup flag. */
    function HealthCheck(): (h: HealthReply)
      reads this
      ensures h.message == Banner
      ensures h.mongodb == "connected" <==> mongoConnected
      ensures h.mongodb == "connected" || h.mongodb == "disconnected"
      ensures h.email == "configured" <==> emailConfigured
      ensures h.email == "configured" || h.email == "not configured"
    {
      HealthReply(Banner, if mongoConnected then "connected" else "disconnected",
                  if emailConfigured then "configured" else "not configured")
    }
  }

  /** Two GET /messages in a row that are both served from memory: the first
      answers the list reversed, the second answers and leaves it in its
      original order again. */
  method TwoMemoryReads(server: Server, find1: Outcome, find2: Outcome)
    returns (first: MessagesReply, second: MessagesReply)
    requires server.Valid()
    requires !(server.mongoConnected && find1.Ok?) && !(server.mongoConnected && find2.Ok?)
    modifies server
    ensures server.Valid()
    ensures server.messages == old(server.messages) && server.store == old(server.store)
    ensures first.messages == Records(Reversed(old(server.messages)))
    ensures second.messages == Records(old(server.messages))
    ensures first.count == second.count == |old(server.messages)|
  {
    first := server.ListMessages(find1);
    second := server.ListMessages(find2);
    ReversedTwice(old(server.messages));
  }
}
