/** The certificate methods: guarded create and update, the paged list, the
    selection of certificates ready for a request, and the startup pass that
    queues one request job per selected certificate. */
module Certificate {
  import opened Wrappers
  import opened Errors
  import opened CertificateModel
  import opened Store
  import opened JobQueue

  /** Name of the job the startup pass queues for each ready certificate. */
  const RequestCertificateJobName: string := "RequestCertificate"

  // ----- Create and Update -----------------------------------------------

  /** Inserts `certificate` as a new row. A model that already has an ID is refused
      before anything is touched. Otherwise the model is stamped as created, the
      INSERT runs (`execError` is its outcome) and, when it succeeded, the generated
      ID is read back (`lastIdError` is that outcome). The model's own ID is not
      updated. A failed read-back still leaves the row inserted. */
  method Create(db: Database, certificate: Model, now: int, execError: Option<Error>, lastIdError: Option<Error>)
    returns (id: int, err: Option<Error>)
    requires db.Valid()
    modifies db, certificate
    ensures db.Valid()
    ensures old(certificate.id) != 0 ==>
      id == 0 && err == Some(AlreadyHasId) && unchanged(certificate) && unchanged(db)
    ensures old(certificate.id) == 0 ==>
      certificate.id == 0 && certificate.fields == old(certificate.fields) &&
      certificate.createdOn == now && certificate.modifiedOn == now &&
      db.authorities == old(db.authorities)
    ensures old(certificate.id) == 0 && execError.Some? ==>
      id == 0 && err == execError &&
      db.certificates == old(db.certificates) && db.nextId == old(db.nextId)
    ensures old(certificate.id) == 0 && execError.None? ==>
      db.certificates == old(db.certificates) + [certificate.Snapshot().(id := old(db.nextId))] &&
      db.nextId == old(db.nextId) + 1 &&
      (forall r :: r in old(db.certificates) ==> r.id != old(db.nextId)) &&
      if lastIdError.Some? then id == 0 && err == lastIdError
      else id == old(db.nextId) && 0 < id && err == None
  {
    if certificate.id != 0 {
      return 0, Some(AlreadyHasId);
    }
    certificate.Touch(true, now);
    if execError.Some? {
      return 0, execError;
    }
    var last := db.Insert(certificate.Snapshot());
    if lastIdError.Some? {
      return 0, lastIdError;
    }
    return last, None;
  }

  /** Writes every column of `certificate` over the row with the same ID. A model
      without an ID is refused before anything is touched. Otherwise the model is
      stamped as modified and the UPDATE runs (`execError` is its outcome); an ID
      that matches no row changes nothing and is not an error. */
  method Update(db: Database, certificate: Model, now: int, execError: Option<Error>)
    returns (err: Option<Error>)
    requires db.Valid()
    modifies db`certificates, certificate
    ensures db.Valid()
    ensures old(certificate.id) == 0 ==>
      err == Some(MissingId) && unchanged(certificate) && unchanged(db)
    ensures old(certificate.id) != 0 ==>
      certificate.id == old(certificate.id) && certificate.fields == old(certificate.fields) &&
      certificate.createdOn == old(certificate.createdOn) && certificate.modifiedOn == now &&
      err == execError &&
      db.certificates == if execError.None? then Overwrite(old(db.certificates), certificate.Snapshot())
                         else old(db.certificates)
  {
    if certificate.id == 0 {
      return Some(MissingId);
    }
    certificate.Touch(false, now);
    if execError.None? {
      db.UpdateById(certificate.Snapshot());
    }
    return execError;
  }

  // ----- List ------------------------------------------------------------

  datatype Sort = Sort(field: string, direction: string)

  datatype Filter = Filter(field: string, modifier: string, value: seq<string>)

  datatype PageInfo = PageInfo(offset: int, limit: int, sort: seq<Sort>)

  datatype ListResponse = ListResponse(
    items: seq<Row>, total: int, limit: int, offset: int, sort: seq<Sort>, filter: seq<Filter>)

  /** What expanding one listed row produced: the row as it is afterwards, and the error it reported. */
  datatype Expansion = Expansion(row: Row, error: Option<Error>)

  /** The count query's outcome lets the listing go on: a count, or "no rows". */
  predicate CountTolerated(count: Result<int, Error>)
  {
    count.Success? || count.error == NoRows
  }

  /** The listed rows after expansion: untouched when no expansion was asked for,
      otherwise each row as its own expansion left it, whatever error it reported. */
  function Expanded(rows: seq<Row>, expand: Option<seq<string>>, expander: (Row, seq<string>) -> Expansion): seq<Row>
  {
    if expand.None? then rows
    else seq(|rows|, i requires 0 <= i < |rows| => expander(rows[i], expand.value).row)
  }

  /** One page of certificates. `db == null` stands for an unconfigured database;
      `count` and `selected` are the outcomes of the count and row queries the
      query builder produced; `expand == None` stands for a nil expansion list.
      The listing fails only for a missing database, a count error other than
      "no rows", or a row-query error; expansion errors never make it fail. */
  method List(db: Database?, pageInfo: PageInfo, filters: seq<Filter>, expand: Option<seq<string>>,
              count: Result<int, Error>, selected: Result<seq<Row>, Error>,
              expander: (Row, seq<string>) -> Expansion)
    returns (r: Result<ListResponse, Error>)
    ensures db == null ==> r == Failure(DatabaseUnavailable)
    ensures db != null && !CountTolerated(count) ==> r == Failure(count.error)
    ensures db != null && CountTolerated(count) && selected.Failure? ==> r == Failure(selected.error)
    ensures r.Success? <==> db != null && CountTolerated(count) && selected.Success?
    ensures r.Success? ==>
      r.value.items == Expanded(selected.value, expand, expander) &&
      r.value.total == (if count.Success? then count.value else 0) &&
      r.value.limit == pageInfo.limit && r.value.offset == pageInfo.offset &&
      r.value.sort == pageInfo.sort && r.value.filter == filters
  {
    if db == null {
      return Failure(DatabaseUnavailable);
    }
    var totalRows := 0;
    if count.Failure? && count.error != NoRows {
      return Failure(count.error);
    }
    if count.Success? {
      totalRows := count.value;
    }
    if selected.Failure? {
      return Failure(selected.error);
    }
    var rows := selected.value;
    var items := new Row[|rows|](i requires 0 <= i < |rows| => rows[i]);
    if expand.Some? {
      var idx := 0;
      while idx < items.Length
        invariant 0 <= idx <= items.Length == |rows|
        invariant forall i :: 0 <= i < idx ==> items[i] == expander(rows[i], expand.value).row
        invariant forall i :: idx <= i < items.Length ==> items[i] == rows[i]
      {
        var expansion := expander(items[idx], expand.value);
        items[idx] := expansion.row;
        idx := idx + 1;
      }
    }
    r := Success(ListResponse(items[..], totalRows, pageInfo.limit, pageInfo.offset, pageInfo.sort, filters));
  }

  // ----- Selection of ready certificates ---------------------------------

  /** A row the selection query returns: an automatic type, the ready status, a
      positive certificate-authority ID that joins with an existing authority,
      and not deleted. */
  predicate Eligible(row: Row, authorities: set<int>)
  {
    row.fields.certType in {TypeHttp, TypeDns} &&
    row.fields.status == StatusReady &&
    row.fields.certificateAuthorityId > 0 &&
    row.fields.certificateAuthorityId in authorities &&
    !row.fields.isDeleted
  }

  /** The eligible rows of the table, in table order. */
  function Select(rows: seq<Row>, authorities: set<int>): (selected: seq<Row>)
    ensures |selected| <= |rows|
    ensures forall x :: x in selected ==> x in rows && Eligible(x, authorities)
  {
    if rows == [] then []
    else (if Eligible(rows[0], authorities) then [rows[0]] else []) + Select(rows[1..], authorities)
  }

  /** Each eligible row is selected as many times as it occurs in the table, any other row never. */
  lemma {:induction false} SelectCount(rows: seq<Row>, authorities: set<int>)
    ensures forall x :: multiset(Select(rows, authorities))[x] ==
                        if Eligible(x, authorities) then multiset(rows)[x] else 0
  {
    if rows != [] {
      SelectCount(rows[1..], authorities);
      assert rows == [rows[0]] + rows[1..];
    }
  }

  /** A row is selected if and only if it is in the table and eligible. */
  lemma {:induction false} SelectMembership(rows: seq<Row>, authorities: set<int>)
    ensures forall x :: x in Select(rows, authorities) <==> x in rows && Eligible(x, authorities)
  {
    SelectCount(rows, authorities);
    forall x | x in rows && Eligible(x, authorities)
      ensures x in Select(rows, authorities)
    {
      assert x in multiset(rows);
      assert x in multiset(Select(rows, authorities));
    }
  }

  /** Selection keeps table order: selecting from two parts of a table and joining
      the results is selecting from the whole. */
  lemma {:induction false} SelectAppend(a: seq<Row>, b: seq<Row>, authorities: set<int>)
    ensures Select(a + b, authorities) == Select(a, authorities) + Select(b, authorities)
  {
    if a == [] {
      assert a + b == b;
    } else {
      assert (a + b)[0] == a[0];
      assert (a + b)[1..] == a[1..] + b;
      SelectAppend(a[1..], b, authorities);
    }
  }

  /** Selecting from a table with unique IDs yields rows with unique IDs. */
  lemma {:induction false} SelectKeepsIdsDistinct(rows: seq<Row>, authorities: set<int>)
    requires DistinctIds(rows)
    ensures DistinctIds(Select(rows, authorities))
  {
    if rows != [] {
      var tail := rows[1..];
      assert DistinctIds(tail) by {
        forall i, j | 0 <= i < j < |tail| ensures tail[i].id != tail[j].id {
          assert tail[i] == rows[i + 1] && tail[j] == rows[j + 1];
        }
      }
      SelectKeepsIdsDistinct(tail, authorities);
      var rest := Select(tail, authorities);
      forall x | x in rest ensures x.id != rows[0].id {
        var k :| 0 <= k < |tail| && tail[k] == x;
        assert rows[k + 1] == x;
      }
    }
  }

  /** A deleted row, or a row of a type other than http and dns, is never selected. */
  lemma SelectExcludesDeletedAndOtherTypes(rows: seq<Row>, authorities: set<int>, row: Row)
    requires row.fields.isDeleted || row.fields.certType !in {TypeHttp, TypeDns}
    ensures row !in Select(rows, authorities)
  {
  }

  /** `GetByStatus`: the certificates ready for a request. The query always binds
      the ready status, so `status` has no effect. An adapter error, "no rows"
      included, is returned as it is; `adapterError` is the adapter's outcome. */
  function GetByStatus(db: Database, status: string, adapterError: Option<Error>): (r: Result<seq<Row>, Error>)
    reads db
    ensures adapterError.Some? ==> r == Failure(adapterError.value)
    ensures adapterError.None? ==>
      r.Success? && forall x :: x in r.value <==> x in db.certificates && Eligible(x, db.authorities)
  {
    if adapterError.Some? then Failure(adapterError.value)
    else
      SelectMembership(db.certificates, db.authorities);
      Success(Select(db.certificates, db.authorities))
  }

  /** The selection's result does not depend on the status argument. */
  lemma GetByStatusIgnoresStatus(db: Database, status: string, other: string, adapterError: Option<Error>)
    ensures GetByStatus(db, status, adapterError) == GetByStatus(db, other, adapterError)
  {
  }

  // ----- Startup recovery ------------------------------------------------

  /** The job that requests `row`'s certificate. */
  function RequestJob(row: Row): Job
  {
    Job(RequestCertificateJobName, Request(row))
  }

  /** The attempts one pass makes over `rows`: attempt k queues row k's request
      job and gets the queue's k-th answer, `refusals(k)`. */
  function Attempts(rows: seq<Row>, refusals: nat -> Option<Error>): seq<Attempt>
  {
    seq(|rows|, k requires 0 <= k < |rows| => Attempt(RequestJob(rows[k]), refusals(k)))
  }

  /** One more attempt extends the attempts by one and the accepted jobs by at most that attempt's job. */
  lemma AttemptsStep(rows: seq<Row>, refusals: nat -> Option<Error>, k: nat)
    requires k < |rows|
    ensures Attempts(rows[..k + 1], refusals) == Attempts(rows[..k], refusals) + [Attempt(RequestJob(rows[k]), refusals(k))]
    ensures Accepted(Attempts(rows[..k + 1], refusals)) ==
      Accepted(Attempts(rows[..k], refusals)) + (if refusals(k).None? then [RequestJob(rows[k])] else [])
  {
    var last := [Attempt(RequestJob(rows[k]), refusals(k))];
    assert Attempts(rows[..k + 1], refusals) == Attempts(rows[..k], refusals) + last;
    AcceptedAppend(Attempts(rows[..k], refusals), last);
    assert last[1..] == [];
  }

  /** `AddPendingJobs`: takes one snapshot of the ready certificates and, unless the
      selection failed, makes exactly one `AddJob` attempt per selected row in
      snapshot order; a refused attempt is skipped and the pass goes on.
      `selectError` is the adapter's outcome for the selection, `refusals(k)` the
      queue's answer to the k-th attempt. */
  method AddPendingJobs(db: Database, queue: Queue, selectError: Option<Error>, refusals: nat -> Option<Error>)
    modifies queue
    ensures GetByStatus(db, StatusReady, selectError).Failure? ==>
      queue.jobs == old(queue.jobs) && queue.attempts == old(queue.attempts)
    ensures GetByStatus(db, StatusReady, selectError).Success? ==>
      var attempts := Attempts(GetByStatus(db, StatusReady, selectError).value, refusals);
      queue.attempts == old(queue.attempts) + attempts &&
      queue.jobs == old(queue.jobs) + Accepted(attempts)
  {
    var selected := GetByStatus(db, StatusReady, selectError);
    if selected.Failure? {
      return;
    }
    var rows := selected.value;
    var k := 0;
    while k < |rows|
      invariant 0 <= k <= |rows|
      invariant queue.attempts == old(queue.attempts) + Attempts(rows[..k], refusals)
      invariant queue.jobs == old(queue.jobs) + Accepted(Attempts(rows[..k], refusals))
    {
      var err := queue.AddJob(RequestJob(rows[k]), refusals(k));
      AttemptsStep(rows, refusals, k);
      k := k + 1;
    }
    assert rows[..k] == rows;
  }

  /** Every job one pass queues requests a certificate that is in the table and eligible. */
  lemma RecoveryQueuesOnlyEligible(rows: seq<Row>, authorities: set<int>, refusals: nat -> Option<Error>)
    ensures forall j :: j in Accepted(Attempts(Select(rows, authorities), refusals)) ==>
      j.name == RequestCertificateJobName &&
      j.action.certificate in rows && Eligible(j.action.certificate, authorities)
  {
    var selected := Select(rows, authorities);
    var attempts := Attempts(selected, refusals);
    forall j | j in Accepted(attempts)
      ensures j.name == RequestCertificateJobName
      ensures j.action.certificate in rows && Eligible(j.action.certificate, authorities)
    {
      AcceptedMembership(attempts, j);
      var k :| 0 <= k < |attempts| && attempts[k].job == j && attempts[k].outcome.None?;
      assert j == RequestJob(selected[k]);
    }
  }

  /** One pass over a table with unique IDs queues at most one job per certificate. */
  lemma RecoveryAtMostOncePerCertificate(rows: seq<Row>, authorities: set<int>, refusals: nat -> Option<Error>)
    requires DistinctIds(rows)
    ensures DistinctTargets(Accepted(Attempts(Select(rows, authorities), refusals)))
  {
    var selected := Select(rows, authorities);
    SelectKeepsIdsDistinct(rows, authorities);
    var attempts := Attempts(selected, refusals);
    assert forall i, j :: 0 <= i < j < |attempts| ==>
      attempts[i].job.action.certificate.id != attempts[j].job.action.certificate.id by {
      forall i, j | 0 <= i < j < |attempts|
        ensures attempts[i].job.action.certificate.id != attempts[j].job.action.certificate.id
      {
        assert attempts[i] == Attempt(RequestJob(selected[i]), refusals(i));
        assert attempts[j] == Attempt(RequestJob(selected[j]), refusals(j));
      }
    }
    AcceptedKeepsTargetsDistinct(attempts);
  }

  /** A refused attempt costs only its own row: over rows with unique IDs, row k's
      job is queued exactly when the queue accepted the k-th attempt, whatever it
      answered to the others. */
  lemma RecoveryIsolatesRefusals(rows: seq<Row>, refusals: nat -> Option<Error>, k: int)
    requires DistinctIds(rows)
    requires 0 <= k < |rows|
    ensures RequestJob(rows[k]) in Accepted(Attempts(rows, refusals)) <==> refusals(k).None?
  {
    var attempts := Attempts(rows, refusals);
    AcceptedMembership(attempts, RequestJob(rows[k]));
    assert attempts[k] == Attempt(RequestJob(rows[k]), refusals(k));
    if RequestJob(rows[k]) in Accepted(attempts) {
      var i :| 0 <= i < |attempts| && attempts[i].job == RequestJob(rows[k]) && attempts[i].outcome.None?;
      assert attempts[i] == Attempt(RequestJob(rows[i]), refusals(i));
      assert rows[i] == rows[k];
      assert rows[i].id == rows[k].id;
      assert i == k;
    }
  }

  /** When the queue accepts every attempt, one pass queues a request job for
      every eligible certificate of the table and for no other, one per selected row. */
  lemma RecoveryQueuesEveryEligible(rows: seq<Row>, authorities: set<int>, refusals: nat -> Option<Error>)
    requires forall k: nat :: refusals(k).None?
    ensures |Accepted(Attempts(Select(rows, authorities), refusals))| == |Select(rows, authorities)|
    ensures forall row :: RequestJob(row) in Accepted(Attempts(Select(rows, authorities), refusals)) <==>
      row in rows && Eligible(row, authorities)
  {
    var selected := Select(rows, authorities);
    var attempts := Attempts(selected, refusals);
    AcceptedWhenNothingRefused(attempts);
    SelectMembership(rows, authorities);
    forall row
      ensures RequestJob(row) in Accepted(attempts) <==> row in selected
    {
      if row in selected {
        var k :| 0 <= k < |selected| && selected[k] == row;
        assert Accepted(attempts)[k] == RequestJob(row);
      }
      if RequestJob(row) in Accepted(attempts) {
        var k :| 0 <= k < |Accepted(attempts)| && Accepted(attempts)[k] == RequestJob(row);
        assert selected[k] == row;
      }
    }
  }

  /** A ready http certificate with an existing authority is queued exactly once. */
  lemma ScenarioSingleReadyCertificate(fields: Fields, refusals: nat -> Option<Error>)
    requires fields.certType == TypeHttp && fields.certificateAuthorityId == 5
    requires fields.status == StatusReady && !fields.isDeleted
    requires refusals(0).None?
    ensures Accepted(Attempts(Select([Row(1, 0, 0, fields)], {5}), refusals)) == [RequestJob(Row(1, 0, 0, fields))]
  {
    var row := Row(1, 0, 0, fields);
    assert Select([row], {5}) == [row];
    var attempts := Attempts([row], refusals);
    assert attempts == [Attempt(RequestJob(row), None)];
    assert attempts[1..] == [];
  }

  /** Of two ready certificates, the deleted one is skipped and only the other is queued. */
  lemma ScenarioDeletedCertificateSkipped(live: Fields, deleted: Fields, refusals: nat -> Option<Error>)
    requires live.certType == TypeHttp && live.certificateAuthorityId == 5
    requires live.status == StatusReady && !live.isDeleted
    requires deleted == live.(isDeleted := true)
    requires refusals(0).None?
    ensures Accepted(Attempts(Select([Row(1, 0, 0, deleted), Row(2, 0, 0, live)], {5}), refusals))
            == [RequestJob(Row(2, 0, 0, live))]
  {
    var rows := [Row(1, 0, 0, deleted), Row(2, 0, 0, live)];
    assert rows[1..] == [Row(2, 0, 0, live)];
    assert Select(rows[1..][1..], {5}) == [];
    assert Select(rows, {5}) == [Row(2, 0, 0, live)];
    var attempts := Attempts([Row(2, 0, 0, live)], refusals);
    assert attempts == [Attempt(RequestJob(Row(2, 0, 0, live)), None)];
    assert attempts[1..] == [];
  }
}
