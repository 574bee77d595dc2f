// The birth_certificate table as the Flask handlers change it: a map from the primary key (the
// certificate identifier) to the row, with creation, the public verification lookup and the reset.

module BirthRegistry {
  import opened Wrappers
  import opened CertificateIds
  import opened BirthRecords

  class Registry {
    /** The rows of the table, keyed by their primary key `id`. */
    var records: map<string, BirthCertificate>

    /** Every row sits under its own identifier, which has the birth shape and a sequence number no
        larger than the row count, and its images agree with its fields. */
    ghost predicate Valid()
      reads this
    {
      Issued(records)
    }

    /** A freshly created schema holds no rows. */
    constructor ()
      ensures records == map[] && Valid()
    {
      records := map[];
    }

    /** `create_birth_certificate` on a POST: the identifier is allocated from the clock's year and the
        row count before anything else, a missing required form field aborts the request with no row
        added, a primary-key clash aborts the commit, and otherwise exactly one row is added. */
    method Create(form: Form, files: Files, env: Environment) returns (r: Result<string, CreateError>)
      modifies this
      ensures ReadRequiredFields(form).Err? ==>
                r == Err(ReadRequiredFields(form).error) && records == old(records)
      ensures ReadRequiredFields(form).Ok? && BirthId(env.now.year, |old(records)|) in old(records) ==>
                r == Err(DuplicateKey(BirthId(env.now.year, |old(records)|))) && records == old(records)
      ensures ReadRequiredFields(form).Ok? && BirthId(env.now.year, |old(records)|) !in old(records) ==>
                && r == Ok(BirthId(env.now.year, |old(records)|))
                && records == old(records)[r.value := BuildRecord(r.value, ReadRequiredFields(form).value, form, files, env)]
                && |records| == |old(records)| + 1
      ensures old(Valid()) ==> Valid()
      ensures old(Valid()) ==> (r.Ok? <==> ReadRequiredFields(form).Ok?)
    {
      var id := BirthId(env.now.year, |records|);
      var fields := ReadRequiredFields(form);
      if fields.Err? {
        return Err(fields.error);
      }
      if Issued(records) {
        AllocatedIdIsFresh(records, env.now.year);
      }
      if id in records {
        return Err(DuplicateKey(id));
      }
      var rec := BuildRecord(id, fields.value, form, files, env);
      ghost var before := records;
      records := records[id := rec];
      assert |records| == |before| + 1 by {
        assert records.Keys == before.Keys + {id};
      }
      if Issued(before) {
        InsertKeepsIssued(before, rec, env.now.year);
      }
      r := Ok(id);
    }

    /** `verify_certificate`: the public lookup by primary key, which never changes the table. */
    method Verify(certificateId: string) returns (response: Response)
      ensures response.status == 200 <==> certificateId in records
      ensures response.status == 200 || response.status == 404
      ensures certificateId in records ==> response == VerifyResponse(certificateId, Some(records[certificateId]))
      ensures certificateId !in records ==>
                response.body == "Certificate " + certificateId + " is INVALID or not found"
      ensures Valid() && !IsBirthId(certificateId) ==> response.status == 404
    {
      if certificateId in records {
        response := VerifyResponse(certificateId, Some(records[certificateId]));
      } else {
        response := VerifyResponse(certificateId, None);
      }
    }

    /** `reset_database`: the tables are dropped and created again, so no row survives. */
    method Reset()
      modifies this
      ensures records == map[] && Valid()
    {
      records := map[];
    }
  }
}
