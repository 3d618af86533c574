# Certificate methods of nginx-proxy-manager, modelled in Dafny

This project models the certificate entity methods of the nginx-proxy-manager
backend (`backend/internal/entity/certificate/methods.go`):

- `Create` and `Update`, the guarded writes of one certificate row. Each checks
  the model's ID first, stamps the model through `Touch`, then writes every column.
- `List`, the paged listing, reduced to its error policy and its expansion loop.
- `GetByStatus`, the selection of certificates that are ready for a request.
- `AddPendingJobs`, the startup pass that queues one `RequestCertificate` job per
  selected certificate and carries on when the queue refuses one.

The database is an in-memory `Store.Database` object. It holds the certificate
table in insertion order, the set of IDs in the certificate-authority table, and
the next generated ID. The job queue is a `JobQueue.Queue` object whose `AddJob`
may be refused. Every outcome the adapters decide (an INSERT or UPDATE error, a
`LastInsertId` error, a selection error, the count and row query results, the
queue's answer to each attempt) is a parameter. The clock that `Touch` reads is
also a parameter (`now`).

Files:
- `wrappers.dfy`: `Option` and `Result`.
- `errors.dfy`: the error values.
- `certificate_model.dfy`: the row, the in-memory model and `Touch`.
- `store.dfy`: the table and its INSERT and UPDATE.
- `jobqueue.dfy`: jobs, attempts and the queue.
- `certificate.dfy`: the five methods and the lemmas about them.

The model keeps these behaviours of the code as written:

- The selection ignores its `status` argument and always binds the ready status.
- An adapter error, "no rows" included, is passed back as it is. It is not turned
  into an empty result.
- `Create` does not write the generated ID back into the model.
- A failed `LastInsertId` returns 0, but the row stays inserted.

## Model

| member | source | states |
|---|---|---|
| `CertificateModel.Model.Touch` | backend/internal/entity/certificate/methods.go:30 | sets the modification time to the clock value, sets the creation time only when stamping a creation, and changes no ID or column |
| `Store.Database.Insert` | backend/internal/entity/certificate/methods.go:34-64 | appends the row with every column under a newly generated ID that no existing row has, returns that ID, and keeps IDs unique and positive |
| `Store.Database.UpdateById` | backend/internal/entity/certificate/methods.go:88-103 | replaces every row whose ID matches with the written row, leaves the other rows alone, and keeps IDs unique |
| `Store.OverwriteChangesOnlyTarget` | backend/internal/entity/certificate/methods.go:88-103 | with unique IDs, an update changes exactly the one row with that ID, and that row becomes the written row |
| `Store.OverwriteWithoutMatch` | backend/internal/entity/certificate/methods.go:103 | an update whose ID matches no row leaves the table unchanged |
| `Store.OverwriteKeepsIds` | backend/internal/entity/certificate/methods.go:88-103 | an update never changes a row's ID, so unique IDs stay unique |
| `Certificate.Create` | backend/internal/entity/certificate/methods.go:25-76 | a model with an ID gives `(0, error)` and changes neither the model nor the table; otherwise it stamps the model as created; a failed INSERT returns 0 and leaves the table unchanged; a successful one adds exactly one row with the model's columns under a fresh ID; then it returns that ID, or 0 and the error when reading the ID back fails |
| `Certificate.Update` | backend/internal/entity/certificate/methods.go:79-106 | a model with ID 0 gives an error and changes neither the model nor the table; otherwise it stamps the model as modified (creation time kept) and passes back the UPDATE's error; on success it overwrites every column of the row with that ID, and no row when there is none |
| `Certificate.List` | backend/internal/entity/certificate/methods.go:109-161 | no database gives the unavailable error; a count error other than "no rows" is returned; "no rows" on the count gives total 0; a row-query error is returned; it succeeds exactly when none of these holds, whatever the expansions report; on success the items are the rows as their expansions left them (untouched for a nil expansion list), and limit, offset, sort and filters echo the inputs |
| `Certificate.Select` | backend/internal/entity/certificate/methods.go:168-178 | every selected row is in the table and eligible, and there are no more selected rows than table rows |
| `Certificate.SelectCount` | backend/internal/entity/certificate/methods.go:168-181 | each eligible row is returned as many times as it is in the table; any other row is never returned |
| `Certificate.SelectMembership` | backend/internal/entity/certificate/methods.go:168-178 | a row is selected if and only if it is in the table, has type http or dns, has the ready status, has a positive authority ID that exists, and is not deleted |
| `Certificate.SelectAppend` | backend/internal/entity/certificate/methods.go:168-181 | the selection keeps table order: selecting from two parts of a table and joining the results gives the selection from the whole |
| `Certificate.SelectKeepsIdsDistinct` | backend/internal/entity/certificate/methods.go:168-181 | over a table with unique IDs, no two selected rows share an ID |
| `Certificate.SelectExcludesDeletedAndOtherTypes` | backend/internal/entity/certificate/methods.go:174-177 | a deleted row, or a row whose type is not http or dns, is never selected |
| `Certificate.GetByStatus` | backend/internal/entity/certificate/methods.go:164-188 | an adapter error, "no rows" included, is returned unchanged; otherwise the result holds exactly the eligible rows of the table, defined by the ready status and not by the status argument |
| `Certificate.GetByStatusIgnoresStatus` | backend/internal/entity/certificate/methods.go:164-180 | two different status arguments give the same result |
| `Certificate.AddPendingJobs` | backend/internal/entity/certificate/methods.go:193-210 | a failed selection queues nothing and makes no attempt; otherwise it makes exactly one attempt per selected row, in order; attempt k is named `RequestCertificate`, is bound to row k and gets the queue's k-th answer; the queue ends up with the accepted jobs appended in order, and refusals do not stop the pass |
| `Certificate.AttemptsStep` | backend/internal/entity/certificate/methods.go:200-209 | one more loop iteration adds exactly one attempt, for the next row with the queue's next answer, and queues that row's job only if the answer is an acceptance |
| `Certificate.RecoveryQueuesOnlyEligible` | backend/internal/entity/certificate/methods.go:194-209 | every job a pass queues is named `RequestCertificate` and is bound to an eligible certificate of the table |
| `Certificate.RecoveryAtMostOncePerCertificate` | backend/internal/entity/certificate/methods.go:190-209 | over a table with unique IDs, one pass queues at most one job per certificate |
| `Certificate.RecoveryIsolatesRefusals` | backend/internal/entity/certificate/methods.go:200-209 | over a table with unique IDs, row k's job is queued if and only if the queue accepted attempt k, whatever it answered to the other attempts |
| `Certificate.RecoveryQueuesEveryEligible` | backend/internal/entity/certificate/methods.go:194-209 | when the queue accepts everything, a pass queues one job per selected row, and a certificate gets a job if and only if it is in the table and eligible |
| `Certificate.ScenarioSingleReadyCertificate` | backend/internal/entity/certificate/methods.go:168-209 | a single ready http certificate with an existing authority gets exactly one request job |
| `Certificate.ScenarioDeletedCertificateSkipped` | backend/internal/entity/certificate/methods.go:168-209 | of two ready certificates, the deleted one is skipped and only the other gets a job |
| `JobQueue.Queue.AddJob` | backend/internal/entity/certificate/methods.go:202-205 | records the attempt and its answer; the job is appended to the queue if and only if the queue accepted it; the answer is returned |
| `JobQueue.Accepted` | backend/internal/entity/certificate/methods.go:202-208 | the jobs of the accepted attempts, never more than there were attempts |
| `JobQueue.AcceptedAppend` | backend/internal/entity/certificate/methods.go:200-209 | the accepted jobs of two consecutive runs of attempts are the first run's followed by the second's |
| `JobQueue.AcceptedMembership` | backend/internal/entity/certificate/methods.go:202-208 | a job is accepted if and only if some attempt carried it and was not refused |
| `JobQueue.AcceptedWhenNothingRefused` | backend/internal/entity/certificate/methods.go:200-209 | when no attempt is refused, the accepted jobs are all the attempted jobs, in order |
| `JobQueue.AcceptedKeepsTargetsDistinct` | backend/internal/entity/certificate/methods.go:200-209 | if the attempts are bound to certificates with distinct IDs, so are the accepted jobs |

## Left out

- The SQL text, the sqlx `NamedExec`, `Select` and `QueryRowx` calls and the `database.GetInstance()` global. They are replaced by the `Store.Database` object and by outcome parameters.
- A nil database handle in `Create`, `Update` and `GetByStatus`. In Go this dereferences nil. Only `List` checks for nil, and the model keeps that check.
- `entity.ListQueryBuilder`, `getFilterMapFunctions` and the default sort (name ascending). They are defined elsewhere in the backend and are not modelled. The model does not cover pagination, sorting or filtering: the count and row-query results are inputs of `List`. The model assumes the builder does not change the page parameters it is given by pointer.
- `Model.Expand` internals. Each expansion is an opaque function. It returns the row as the expansion left it and the error it reported.
- `Touch` internals. The clock value is a parameter, and the timestamp representation is a plain integer.
- `GetByID` and `LoadByID`. They are not part of this model.
- `Request`, certificate issuance, and the queue's asynchronous workers. A job carries its row by value. Whether Go's method value on the range variable aliases one shared variable depends on `Request`'s receiver and the Go version; that is not part of this model.
- The status state machine beyond equality with the ready status, including any claim or provisioning transition. It does not appear in the modelled code.
- Logging and eris error formatting. Errors are the constructors of `Errors.Error`.
- Certificate.GetByStatus: on an error, Go also returns whatever rows were scanned; the model returns only the error, which is all its caller uses.
- Certificate.SelectAppend: the SQL has no `ORDER BY`, so "table order" means the model's insertion order; a real store may return rows in another order.
- Certificate.Create: the conversion of the 64-bit `LastInsertId` to Go's `int` is taken as exact (no truncation).
