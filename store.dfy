/** The relational store as the certificate methods use it: the certificate table,
    the IDs present in the certificate-authority table, and the two writes
    (an INSERT that generates an ID, an UPDATE keyed by ID). */
module Store {
  import opened CertificateModel

  /** No two rows share an ID. */
  predicate DistinctIds(rows: seq<Row>)
  {
    forall i, j :: 0 <= i < j < |rows| ==> rows[i].id != rows[j].id
  }

  /** The table after `UPDATE ... WHERE id = :id`: every row with `row`'s ID is
      replaced by `row` (all columns), every other row is left as it was. */
  function Overwrite(rows: seq<Row>, row: Row): seq<Row>
  {
    seq(|rows|, i requires 0 <= i < |rows| => if rows[i].id == row.id then row else rows[i])
  }

  /** With unique IDs, an update changes exactly the one row that has the ID, and that row becomes `row`. */
  lemma OverwriteChangesOnlyTarget(rows: seq<Row>, row: Row, k: int)
    requires DistinctIds(rows)
    requires 0 <= k < |rows| && rows[k].id == row.id
    ensures Overwrite(rows, row) == rows[k := row]
  {
    var r := Overwrite(rows, row);
    forall i | 0 <= i < |rows|
      ensures r[i] == rows[k := row][i]
    {
      if i != k {
        assert rows[i].id != row.id by {
          if i < k { assert rows[i].id != rows[k].id; } else { assert rows[k].id != rows[i].id; }
        }
      }
    }
  }

  /** An update whose ID matches no row leaves the table as it was. */
  lemma OverwriteWithoutMatch(rows: seq<Row>, row: Row)
    requires forall i :: 0 <= i < |rows| ==> rows[i].id != row.id
    ensures Overwrite(rows, row) == rows
  {
    assert forall i :: 0 <= i < |rows| ==> Overwrite(rows, row)[i] == rows[i];
  }

  /** An update keeps every row's ID, so a table with unique IDs keeps them unique. */
  lemma OverwriteKeepsIds(rows: seq<Row>, row: Row)
    requires DistinctIds(rows)
    ensures |Overwrite(rows, row)| == |rows|
    ensures forall i :: 0 <= i < |rows| ==> Overwrite(rows, row)[i].id == rows[i].id
    ensures DistinctIds(Overwrite(rows, row))
  {
  }

  /** The in-memory database: the certificate table in insertion order, the IDs of
      the existing certificate authorities, and the next generated ID. */
  class Database {
    var certificates: seq<Row>
    var authorities: set<int>
    var nextId: int

    /** Persisted rows have unique positive IDs, all below the next generated one. */
    ghost predicate Valid()
      reads this
    {
      0 < nextId &&
      DistinctIds(certificates) &&
      forall i :: 0 <= i < |certificates| ==> 0 < certificates[i].id < nextId
    }

    constructor (authorities: set<int>)
      ensures Valid()
      ensures certificates == [] && this.authorities == authorities
    {
      certificates := [];
      this.authorities := authorities;
      nextId := 1;
    }

    /** `INSERT` of every column but `id`: the row is stored under a newly generated ID, which is returned. */
    method Insert(row: Row) returns (id: int)
      requires Valid()
      modifies this
      ensures Valid()
      ensures id == old(nextId) && nextId == old(nextId) + 1
      ensures forall i :: 0 <= i < |old(certificates)| ==> old(certificates)[i].id != id
      ensures certificates == old(certificates) + [row.(id := id)]
      ensures authorities == old(authorities)
    {
      id := nextId;
      certificates := certificates + [row.(id := id)];
      nextId := nextId + 1;
    }

    /** `UPDATE ... SET <every column> WHERE id = :id`. */
    method UpdateById(row: Row)
      requires Valid()
      modifies this`certificates
      ensures Valid()
      ensures certificates == Overwrite(old(certificates), row)
    {
      OverwriteKeepsIds(certificates, row);
      certificates := Overwrite(certificates, row);
    }
  }
}
