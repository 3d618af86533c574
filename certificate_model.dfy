/** The certificate entity: its persisted columns and the in-memory model that Create and Update stamp. */
module CertificateModel {
  import opened Wrappers

  /** Value of the status column that marks a certificate as ready for a request. */
  const StatusReady: string := "ready"

  /** The certificate types that are requested automatically. */
  const TypeHttp: string := "http"
  const TypeDns: string := "dns"

  /** Every persisted column of a certificate other than its identity and timestamps. */
  datatype Fields = Fields(
    userId: int,
    certType: string,
    certificateAuthorityId: int,
    dnsProviderId: int,
    name: string,
    domainNames: seq<string>,
    expiresOn: Option<int>,
    status: string,
    errorMessage: string,
    meta: string,
    isEcc: bool,
    isDeleted: bool)

  /** One row of the certificate table; an ID of zero means "not yet persisted". */
  datatype Row = Row(id: int, createdOn: int, modifiedOn: int, fields: Fields)

  /** The certificate model that Create and Update receive by pointer and stamp in place. */
  class Model {
    var id: int
    var createdOn: int
    var modifiedOn: int
    var fields: Fields

    constructor (id: int, createdOn: int, modifiedOn: int, fields: Fields)
      ensures this.id == id && this.createdOn == createdOn
      ensures this.modifiedOn == modifiedOn && this.fields == fields
    {
      this.id := id;
      this.createdOn := createdOn;
      this.modifiedOn := modifiedOn;
      this.fields := fields;
    }

    /** The row the model's current field values would be written as. */
    function Snapshot(): Row
      reads this
    {
      Row(id, createdOn, modifiedOn, fields)
    }

    /** Stamps the model with the clock value `now`: the modification time always,
        the creation time only when `created` holds. Nothing else changes. */
    method Touch(created: bool, now: int)
      modifies this
      ensures modifiedOn == now
      ensures createdOn == if created then now else old(createdOn)
      ensures id == old(id) && fields == old(fields)
    {
      if created {
        createdOn := now;
      }
      modifiedOn := now;
    }
  }
}
