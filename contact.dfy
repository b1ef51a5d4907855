/** Values shared by the four contact-form server variants: the submission a
    visitor posts, the records the two stores hold, the outcome of a call to an
    external service (the document store or the mail transport), the response a
    handler sends, and the notification it renders. */
module Contact {

  datatype Option<+T> = None | Some(value: T)

  /** A request-body field: absent (`undefined`/`null`) or a string. */
  type Field = Option<string>

  /** The body of POST /contact. */
  datatype Submission = Submission(
    firstName: Field,
    lastName: Field,
    email: Field,
    phone: Field,
    message: Field)

  /** What a call to an external service did: returned normally, or threw an
      error carrying its message. */
  datatype Outcome = Ok | Fail(reason: string)

  /** An HTTP status code together with the `message` text of the JSON body. */
  datatype Response = Response(code: int, message: string)

  /** An entry of the process-local message list: a clock-derived id, the five
      submitted fields and an ISO-8601 timestamp string. */
  datatype MemoryRecord = MemoryRecord(id: int, data: Submission, timestamp: string)

  /** A document of the durable store: the five submitted fields and the `date`
      the store's schema fills in by default (the clock at insertion). */
  datatype DurableRecord = DurableRecord(data: Submission, date: int)

  /** The parts of a notification e-mail that depend on the submission. */
  datatype Mail = Mail(subject: string, name: string, email: string, phone: string, message: string)

  /** The two optional strings JavaScript treats as false: absent and empty. */
  const Blank: set<Field> := {None, Some("")}

  /** JavaScript falsiness (`!x`), restricted to optional strings. */
  predicate Falsy(f: Field)
    ensures Falsy(f) <==> f in Blank
  {
    f.None? || f.value == ""
  }

  /** The validation guard shared by every variant: firstName, email and
      message must all be truthy. */
  predicate IsComplete(s: Submission)
    ensures IsComplete(s) <==>
      s.firstName !in Blank && s.email !in Blank && s.message !in Blank
  {
    !Falsy(s.firstName) && !Falsy(s.email) && !Falsy(s.message)
  }

  /** Both mail-account credentials are set (and non-empty) in the environment. */
  predicate HasCredentials(user: Field, pass: Field)
    ensures HasCredentials(user, pass) <==> user !in Blank && pass !in Blank
  {
    !Falsy(user) && !Falsy(pass)
  }

  /** The JavaScript expression `f || fallback` on an optional string. */
  function Or(f: Field, fallback: string): (r: string)
    ensures Falsy(f) ==> r == fallback
    ensures !Falsy(f) ==> f == Some(r) && r != ""
  {
    if Falsy(f) then fallback else f.value
  }

  /** The template text `${firstName} ${lastName || ''}`: the first name, one
      space, then the last name when one was given (so a trailing space when
      it was not). */
  function NameOf(s: Submission): (r: string)
    requires !Falsy(s.firstName)
    ensures Falsy(s.lastName) ==> r == s.firstName.value + " "
    ensures !Falsy(s.lastName) ==> r == s.firstName.value + " " + s.lastName.value
    ensures |r| > |s.firstName.value| && r[..|s.firstName.value|] == s.firstName.value
  {
    s.firstName.value + " " + Or(s.lastName, "")
  }

  /** The notification a variant renders for a valid submission, with its own
      subject line and its own placeholder for a missing phone number. */
  function Notice(s: Submission, subject: string, noPhone: string): (m: Mail)
    requires IsComplete(s)
    ensures m.subject == subject && m.name == NameOf(s)
    ensures Some(m.email) == s.email && Some(m.message) == s.message
    ensures s.phone in Blank ==> m.phone == noPhone
    ensures s.phone !in Blank ==> Some(m.phone) == s.phone
  {
    Mail(subject, NameOf(s), s.email.value, Or(s.phone, noPhone), s.message.value)
  }

  /** The order `Array.prototype.reverse` leaves an array in. */
  function Reversed<T>(s: seq<T>): (r: seq<T>)
    ensures |r| == |s|
    ensures forall i :: 0 <= i < |s| ==> r[i] == s[|s| - 1 - i]
  {
    if s == [] then [] else Reversed(s[1..]) + [s[0]]
  }

  /** Reversing twice gives back the original order; it follows from the
      position-by-position contract of `Reversed`. */
  lemma ReversedTwice<T>(s: seq<T>)
    ensures Reversed(Reversed(s)) == s
  {
  }

  /** Reversing keeps every element with its multiplicity. */
  lemma {:induction false} ReversedMultiset<T>(s: seq<T>)
    ensures multiset(Reversed(s)) == multiset(s)
  {
    if s != [] {
      ReversedMultiset(s[1..]);
      assert s == [s[0]] + s[1..];
    }
  }

  /** The submissions held by a list of in-memory records, in list order. */
  function MemorySubmissions(rs: seq<MemoryRecord>): seq<Submission> {
    seq(|rs|, i requires 0 <= i < |rs| => rs[i].data)
  }

  /** The submissions held by a sequence of durable documents, in order. */
  function StoredSubmissions(ds: seq<DurableRecord>): seq<Submission> {
    seq(|ds|, i requires 0 <= i < |ds| => ds[i].data)
  }

  /** Appending one record appends its submission. */
  lemma MemorySubmissionsAppend(rs: seq<MemoryRecord>, r: MemoryRecord)
    ensures MemorySubmissions(rs + [r]) == MemorySubmissions(rs) + [r.data]
  {
  }

  /** Appending one document appends its submission. */
  lemma StoredSubmissionsAppend(ds: seq<DurableRecord>, d: DurableRecord)
    ensures StoredSubmissions(ds + [d]) == StoredSubmissions(ds) + [d.data]
  {
  }

  /** Reversing the in-memory list in place loses and duplicates no submission. */
  lemma {:induction false} MemorySubmissionsReversed(rs: seq<MemoryRecord>)
    ensures multiset(MemorySubmissions(Reversed(rs))) == multiset(MemorySubmissions(rs))
  {
    assert MemorySubmissions(Reversed(rs)) == Reversed(MemorySubmissions(rs));
    ReversedMultiset(MemorySubmissions(rs));
  }
}
