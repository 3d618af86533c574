/** The errors the certificate methods can return. */
module Errors {

  datatype Error =
    /** Create was given a model that already carries an ID. */
    | AlreadyHasId
    /** Update was given a model whose ID is zero. */
    | MissingId
    /** The database handle is not configured (`errors.ErrDatabaseUnavailable`). */
    | DatabaseUnavailable
    /** The adapter found no rows (`sql.ErrNoRows`). */
    | NoRows
    /** Any other failure reported by the database adapter. */
    | AdapterFailure(message: string)
    /** The job queue did not accept a job (closed, full or not started). */
    | QueueRefused(message: string)
}
