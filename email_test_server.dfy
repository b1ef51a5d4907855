/** The in-memory variant whose reply text reports the notification outcome,
    with a manual mail test route (server-email-test.js). */
module EmailTestServer {
  import opened Contact

  const IncompleteText := "Missing required fields"
  const NotifiedText := "Message sent successfully! Email notification sent."
  const NotifyFailedText := "Message received but email notification failed. Please check server logs."
  const UnconfiguredText := "Message received (email not configured)"
  const SubjectPrefix := "\U{1F4E9} New Contact: "
  const NoPhone := "Not provided"
  const Banner := "Portfolio API Running"
  const TestSentText := "Test email sent successfully!"
  const TestUnconfiguredText := "Email not configured"

  /** The body of GET /messages. */
  datatype MessagesReply = MessagesReply(messages: seq<MemoryRecord>, count: int)

  /** The body of GET /. */
  datatype HealthReply = HealthReply(message: string, email: string, timestamp: string)

  /** The body of POST /test-email. */
  datatype TestReply = TestReply(success: bool, message: string)

  class Server {
    /** The module-level `messages` array. */
    var messages: seq<MemoryRecord>
    var emailConfigured: bool
    /** A mail transport was created (both credentials were set). */
    var hasTransporter: bool

    /** Every valid submission accepted so far, in arrival order. */
    ghost var accepted: seq<Submission>

    /** The list holds exactly the accepted submissions, one record each, in
        arrival order, each of them complete; mail is ready only with a
        transport. */
    ghost predicate Valid()
      reads this
    {
      (emailConfigured ==> hasTransporter) &&
      MemorySubmissions(messages) == accepted &&
      (forall i :: 0 <= i < |accepted| ==> IsComplete(accepted[i]))
    }

    /** Startup: a transport is created only with both credentials, and mail
        is ready only when its verification also succeeds. */
    constructor (gmailUser: Field, gmailPass: Field, verify: Outcome)
      ensures Valid()
      ensures messages == [] && accepted == []
      ensures hasTransporter <==> HasCredentials(gmailUser, gmailPass)
      ensures emailConfigured <==> HasCredentials(gmailUser, gmailPass) && verify.Ok?
    {
      messages := [];
      accepted := [];
      hasTransporter := HasCredentials(gmailUser, gmailPass);
      emailConfigured := HasCredentials(gmailUser, gmailPass) && verify.Ok?;
    }

    /** POST /contact. `mail` is the outcome of sendMail; `sent` is the
        notification handed to the transport, if any. The record is stored
        before any mail is attempted. */
    method Submit(s: Submission, mail: Outcome, nowMs: int, nowIso: string)
      returns (r: Response, sent: Option<Mail>)
      requires Valid()
      modifies this
      ensures Valid()
      ensures emailConfigured == old(emailConfigured) && hasTransporter == old(hasTransporter)
      // an incomplete submission is refused and changes nothing
      ensures !IsComplete(s) ==>
        r == Response(400, IncompleteText) && sent == None &&
        messages == old(messages) && accepted == old(accepted)
      // a complete one is appended, whatever the mail does
      ensures IsComplete(s) ==>
        messages == old(messages) + [MemoryRecord(nowMs, s, nowIso)] && accepted == old(accepted) + [s]
      ensures sent == if IsComplete(s) && emailConfigured && hasTransporter
                      then Some(Notice(s, SubjectPrefix + NameOf(s), NoPhone)) else None
      // every complete submission is answered 200; the text tells the mail state
      ensures IsComplete(s) ==> r.code == 200
      ensures IsComplete(s) ==>
        r.message == if sent == None then UnconfiguredText
                     else if mail.Ok? then NotifiedText
                     else NotifyFailedText
    {
      if !IsComplete(s) {
        r, sent := Response(400, IncompleteText), None;
        return;
      }
      MemorySubmissionsAppend(messages, MemoryRecord(nowMs, s, nowIso));
      messages := messages + [MemoryRecord(nowMs, s, nowIso)];
      accepted := accepted + [s];
      if emailConfigured && hasTransporter {
        sent := Some(Notice(s, SubjectPrefix + NameOf(s), NoPhone));
        if mail.Ok? {
          r := Response(200, NotifiedText);
        } else {
          r := Response(200, NotifyFailedText);
        }
      } else {
        sent := None;
        r := Response(200, UnconfiguredText);
      }
    }

    /** GET /messages: the list as stored, in insertion order, with its length. */
    function ListMessages(): (reply: MessagesReply)
      reads this
      requires Valid()
      ensures reply.messages == messages
      ensures MemorySubmissions(reply.messages) == accepted
      ensures reply.count == |accepted|
    {
      MessagesReply(messages, |messages|)
    }

    /** GET /: the fixed banner, the mail label and the current clock. */
    function HealthCheck(nowIso: string): (h: HealthReply)
      reads this
      ensures h.message == Banner && h.timestamp == nowIso
      ensures h.email == "configured" <==> emailConfigured
      ensures h.email == "configured" || h.email == "not configured"
    {
      HealthReply(Banner, if emailConfigured then "configured" else "not configured", nowIso)
    }

    /** POST /test-email. `send` is the outcome of sendMail; `attempted` says
        whether a test mail was handed to the transport. */
    method TestEmail(send: Outcome) returns (reply: TestReply, attempted: bool)
      ensures attempted <==> emailConfigured
      ensures !emailConfigured ==> reply == TestReply(false, TestUnconfiguredText)
      ensures emailConfigured && send.Ok? ==> reply == TestReply(true, TestSentText)
      ensures emailConfigured && send.Fail? ==> reply == TestReply(false, send.reason)
      ensures reply.success <==> attempted && send.Ok?
    {
      if !emailConfigured {
        return TestReply(false, TestUnconfiguredText), false;
      }
      attempted := true;
      if send.Ok? {
        reply := TestReply(true, TestSentText);
      } else {
        reply := TestReply(false, send.reason);
      }
    }
  }
}
