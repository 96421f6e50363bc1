/**
 * The `Transcription` record (app/models/transcription.rb) and its one
 * validation: the status is absent or one of four fixed words.  The audio
 * attachment and the persistence layer are not modelled.
 */
module Transcriptions {
  import opened Wrappers

  /** The statuses the inclusion validation accepts, compared exactly. */
  const Statuses: seq<string> := ["pending", "processing", "completed", "failed"]

  /** A record's columns; a column that may be NULL is an `Option`. */
  datatype Transcription = Transcription(title: Option<string>, status: Option<string>, text: Option<string>)

  /** `validates :status, inclusion: ..., allow_nil: true`. */
  predicate StatusValid(status: Option<string>) {
    status.None? || status.value in Statuses
  }

  /** A record passes validation exactly when its status does. */
  predicate Valid(t: Transcription) {
    StatusValid(t.status)
  }

  /** Assigning a new status and leaving the other columns alone. */
  function WithStatus(t: Transcription, status: Option<string>): (u: Transcription)
    ensures u.title == t.title && u.text == t.text && u.status == status
    ensures Valid(u) <==> StatusValid(status)
  {
    t.(status := status)
  }

  /**
   * The controller's `create`: of the submitted columns only `title` is
   * permitted, so the text starts absent, and the status is set to `"pending"`.
   */
  function Create(title: Option<string>): (t: Transcription)
    ensures t == Transcription(title, Some("pending"), None)
    ensures Valid(t)
  {
    WithStatus(Transcription(title, None, None), Some("pending"))
  }

  /** The accepted statuses are exactly the absent one and the four words. */
  lemma StatusValidExactly(status: Option<string>)
    ensures StatusValid(status) <==>
      || status == None
      || status == Some("pending")
      || status == Some("processing")
      || status == Some("completed")
      || status == Some("failed")
  {
  }

  /** Membership is exact: no blank, capitalised or padded variant passes. */
  lemma NearMissesRejected()
    ensures !StatusValid(Some(""))
    ensures !StatusValid(Some("Pending"))
    ensures !StatusValid(Some("pending "))
    ensures !StatusValid(Some("done"))
  {
  }

  /**
   * No order of statuses is enforced: whether a change is accepted depends
   * on the new status only, so `completed` may go back to `pending`.
   */
  lemma ValidityIgnoresPreviousStatus(t1: Transcription, t2: Transcription, status: Option<string>)
    ensures Valid(WithStatus(t1, status)) == Valid(WithStatus(t2, status))
    ensures t1.status == Some("completed") ==> Valid(WithStatus(t1, Some("pending")))
  {
  }
}
