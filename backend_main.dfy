/**
 * The body of the back end's `POST /api/classify` handler: one result
 * record per submitted email, in order, each carrying the email text and the
 * rule classifier's category and reply. The records have no `id` and no
 * `confidence`; the front end fills those in when it reads them.
 */
module BackendMain {
  import opened Wrappers
  import opened BackendClassifier
  import opened PageModel

  /** `{"email": ..., "category": ..., "reply": ...}`. */
  datatype EmailRecord = EmailRecord(email: string, category: string, reply: string)

  /** `{"results": [...]}`. */
  datatype ClassifyResponse = ClassifyResponse(results: seq<EmailRecord>)

  /** The record the handler appends for one email. */
  function RecordFor(email: string, stop: set<string>): (rec: EmailRecord)
    ensures rec.email == email
    ensures (rec.category, rec.reply) == ClassifyEmail(email, stop)
  {
    var (category, response) := ClassifyEmail(email, stop);
    EmailRecord(email, category, response)
  }

  /** `classify_emails`: the `for` loop appending one record per email. */
  method ClassifyEmails(emails: seq<string>, stop: set<string>) returns (response: ClassifyResponse)
    ensures |response.results| == |emails|
    ensures forall i :: 0 <= i < |emails| ==> response.results[i] == RecordFor(emails[i], stop)
    ensures emails == [] ==> response.results == []
  {
    var results: seq<EmailRecord> := [];
    var n := 0;
    while n < |emails|
      invariant 0 <= n <= |emails|
      invariant |results| == n
      invariant forall i :: 0 <= i < n ==> results[i] == RecordFor(emails[i], stop)
    {
      results := results + [RecordFor(emails[n], stop)];
      n := n + 1;
    }
    response := ClassifyResponse(results);
  }

  /** How the front end would read one of these records: the keys it looks
      for that the record lacks are missing. */
  function AsRemote(rec: EmailRecord): (r: RemoteRecord)
    ensures r.id.None? && r.confidence.None?
    ensures r.category == Some(rec.category) && r.reply == Some(rec.reply)
  {
    RemoteRecord(None, Some(rec.category), Some(rec.reply), None)
  }

  /** Read by the front end, every back-end result has no id and the default
      confidence 0.75, and carries the rule classifier's verdict for its
      email. */
  lemma BackendResultsOnThePage(emails: seq<string>, stop: set<string>, response: ClassifyResponse)
    requires |response.results| == |emails|
    requires forall i :: 0 <= i < |emails| ==> response.results[i] == RecordFor(emails[i], stop)
    ensures var page := RemoteResults(Some(seq(|emails|, i requires 0 <= i < |emails| => AsRemote(response.results[i]))));
      |page| == |emails| &&
      forall i :: 0 <= i < |emails| ==>
        page[i].id.None? && page[i].confidence == DEFAULT_REMOTE_CONFIDENCE &&
        page[i].category == Some(ClassifyEmail(emails[i], stop).0) &&
        page[i].reply == Some(ClassifyEmail(emails[i], stop).1)
  {
  }
}
