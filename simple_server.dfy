/** The variant with only an in-memory list and no notification
    (server-simple.js). */
module SimpleServer {
  import opened Contact

  const IncompleteText := "Please include firstName, email and message."
  const SentText := "Message sent successfully!"
  const Banner := "Portfolio Backend API is running!"

  class Server {
    /** The module-level `messages` array. */
    var messages: seq<MemoryRecord>

    /** Every valid submission accepted so far, in arrival order. */
    ghost var accepted: seq<Submission>

    /** The list holds exactly the accepted submissions, one record each, in
        arrival order, each of them complete. */
    ghost predicate Valid()
      reads this
    {
      MemorySubmissions(messages) == accepted &&
      (forall i :: 0 <= i < |accepted| ==> IsComplete(accepted[i]))
    }

    constructor ()
      ensures Valid()
      ensures messages == [] && accepted == []
    {
      messages := [];
      accepted := [];
    }

    /** POST /contact: validate, then append one record at the end. */
    method Submit(s: Submission, nowMs: int, nowIso: string) returns (r: Response)
      requires Valid()
      modifies this
      ensures Valid()
      // the list only grows: earlier entries stay where they were
      ensures old(messages) <= messages
      ensures !IsComplete(s) ==>
        r == Response(400, IncompleteText) && messages == old(messages) && accepted == old(accepted)
      ensures IsComplete(s) ==>
        r == Response(200, SentText) &&
        messages == old(messages) + [MemoryRecord(nowMs, s, nowIso)] && accepted == old(accepted) + [s]
    {
      if !IsComplete(s) {
        return Response(400, IncompleteText);
      }
      MemorySubmissionsAppend(messages, MemoryRecord(nowMs, s, nowIso));
      messages := messages + [MemoryRecord(nowMs, s, nowIso)];
      accepted := accepted + [s];
      r := Response(200, SentText);
    }

    /** GET /messages: the whole list, in insertion order (no count). */
    function ListMessages(): (listed: seq<MemoryRecord>)
      reads this
      requires Valid()
      ensures listed == messages
      ensures MemorySubmissions(listed) == accepted
      ensures forall i :: 0 <= i < |listed| ==> IsComplete(listed[i].data)
    {
      assert forall i :: 0 <= i < |messages| ==> MemorySubmissions(messages)[i] == messages[i].data;
      messages
    }

    /** GET /: the fixed banner; it reads and changes no state. */
    function HealthCheck(): (banner: string)
      ensures banner == Banner
    {
      Banner
    }
  }
}
