/** The job tables of the ledger as values, and each of its transactions as one function.
    A transaction commits whole or not at all, so a crash falls between two of these. */
module Tables {
  import opened Basics

  type Did = string
  type JobId = string

  datatype Status = Validated | Claimed | Completed | Failed

  datatype JobRow = JobRow(requester: Did, internal: bool, status: Status)

  /** `serial` stands for the random receipt id: no two receipts built share one. `ok` is the status
      of the result whose hash the receipt seals. */
  datatype ReceiptRow = ReceiptRow(serial: nat, requester: Did, internal: bool, ok: bool)

  datatype Rejection = Rejection(job: Option<JobId>, requester: Option<Did>, code: string)

  datatype Db = Db(
    jobs: map<JobId, JobRow>,
    receipts: map<JobId, ReceiptRow>,
    rejections: seq<Rejection>,
    declared: set<(Did, JobId)>)

  const EMPTY := Db(map[], map[], [], {})

  /** `job_requester`: who holds the id, if anybody does. */
  function Owner(db: Db, id: JobId): Option<Did> {
    if id in db.jobs then Some(db.jobs[id].requester) else None
  }

  /** `insert_job`: the primary key refuses a taken id and rolls the spending back with it. */
  function InsertJob(db: Db, id: JobId, requester: Did, internal: bool, spend: bool): (Db, bool) {
    if id in db.jobs then
      (db, false)
    else
      (db.(jobs := db.jobs[id := JobRow(requester, internal, Validated)],
           declared := if spend then db.declared - {(requester, id)} else db.declared),
       true)
  }

  /** `update_job(job_id, status=...)`: an UPDATE of a row that may not be there. */
  function SetStatus(db: Db, id: JobId, status: Status): Db {
    if id in db.jobs then db.(jobs := db.jobs[id := db.jobs[id].(status := status)]) else db
  }

  /** `record_receipt(..., complete_job=...)`: the finished status and the receipt in one
      transaction. The receipt's foreign key fails it when there is no job row. */
  function RecordReceipt(db: Db, id: JobId, receipt: ReceiptRow, finished: Status): Db {
    if id in db.jobs then
      SetStatus(db, id, finished).(receipts := db.receipts[id := receipt])
    else
      db
  }

  function RecordRejection(db: Db, rejection: Rejection): Db {
    db.(rejections := db.rejections + [rejection])
  }

  /** `expect_internal_test`. Nothing but `InsertJob` ever takes a declaration away. */
  function Declare(db: Db, did: Did, id: JobId): Db {
    db.(declared := db.declared + {(did, id)})
  }
}
