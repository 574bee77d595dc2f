/** Birth-certificate rows, how `create_birth_certificate` fills one in, what `verify_certificate`
    answers, and the invariant the table keeps when rows are only added that way. */
module BirthRecords {
  import opened Wrappers
  import opened Strings
  import opened Decimal
  import opened CertificateIds
  import opened Uploads
  import opened QrPayload

  /** A calendar date, as a `datetime` holds it. */
  datatype Date = Date(year: nat, month: nat, day: nat)

  /** A rendered image, represented by what it was rendered from: the QR image `generate_qr_code`
      makes for an identifier and the three entries of `certificate_data`, or the Code128 barcode
      of an identifier. */
  datatype Artifact =
    | QrImage(certificateId: string, familyName: string, givenName: string, dateOfBirth: string)
    | Code128Image(content: string)

  /** A row of the `birth_certificate` table (app.py lines 93-111); `None` is SQL NULL. */
  datatype BirthCertificate = BirthCertificate(
    id: string,
    familyName: string,
    givenName: string,
    previousName: string,
    dateOfBirth: string,
    gender: Option<string>,
    placeOfBirth: Option<string>,
    passportNumber: Option<string>,
    fatherName: Option<string>,
    motherName: Option<string>,
    photoPath: Option<string>,
    idCardPath: Option<string>,
    qrCodeData: Option<Artifact>,
    barcodeData: Option<Artifact>,
    status: string,
    createdAt: Date)

  /** The submitted form, `request.form`. */
  type Form = map<string, string>

  /** The file names of the `birthImage` and `idCard` upload slots, None where no file was sent. */
  datatype Files = Files(birthImage: Option<string>, idCard: Option<string>)

  /** What a creation request depends on outside the table: the clock, and whether the QR and
      barcode libraries succeed or raise. */
  datatype Environment = Environment(now: Date, qrEncoderSucceeds: bool, barcodeEncoderSucceeds: bool)

  datatype CreateError =
    | MissingField(key: string)  // `request.form[key]` on an absent key: 400 Bad Request
    | DuplicateKey(id: string)   // the commit hits the primary key of an existing row

  /** The fields read with `request.form[...]`, in the order the source reads them. */
  const RequiredKeys: seq<string> := ["familyName", "givenName", "birthDay", "birthMonth", "birthYear"]

  datatype RequiredFields = RequiredFields(
    familyName: string, givenName: string, birthDay: string, birthMonth: string, birthYear: string)

  /** Reads the required fields; the first absent one, in the source's order, is the error. */
  function ReadRequiredFields(form: Form): (r: Result<RequiredFields, CreateError>)
    ensures r.Ok? <==> forall k :: 0 <= k < |RequiredKeys| ==> RequiredKeys[k] in form
    ensures r.Ok? ==> && "familyName" in form && r.value.familyName == form["familyName"]
                      && "givenName" in form && r.value.givenName == form["givenName"]
                      && "birthDay" in form && r.value.birthDay == form["birthDay"]
                      && "birthMonth" in form && r.value.birthMonth == form["birthMonth"]
                      && "birthYear" in form && r.value.birthYear == form["birthYear"]
    ensures r.Err? ==> exists j :: 0 <= j < |RequiredKeys| && r.error == MissingField(RequiredKeys[j])
                                   && RequiredKeys[j] !in form
                                   && forall k :: 0 <= k < j ==> RequiredKeys[k] in form
  {
    if "familyName" !in form then
      assert RequiredKeys[0] == "familyName";
      Err(MissingField("familyName"))
    else if "givenName" !in form then
      assert RequiredKeys[1] == "givenName";
      Err(MissingField("givenName"))
    else if "birthDay" !in form then
      assert RequiredKeys[2] == "birthDay";
      Err(MissingField("birthDay"))
    else if "birthMonth" !in form then
      assert RequiredKeys[3] == "birthMonth";
      Err(MissingField("birthMonth"))
    else if "birthYear" !in form then
      assert RequiredKeys[4] == "birthYear";
      Err(MissingField("birthYear"))
    else
      Ok(RequiredFields(form["familyName"], form["givenName"], form["birthDay"], form["birthMonth"], form["birthYear"]))
  }

  /** `f"{birthDay}.{birthMonth}.{birthYear}"`, the date of birth as both the record and the QR text
      hold it: when day and month hold no dot, splitting it at its dots gives the day, the month and
      then the pieces of the year. */
  function DateOfBirth(fields: RequiredFields): (r: string)
    ensures '.' !in fields.birthDay && '.' !in fields.birthMonth ==>
              Split(r, '.') == [fields.birthDay, fields.birthMonth] + Split(fields.birthYear, '.')
  {
    DottedReadsBack(fields.birthDay, fields.birthMonth, fields.birthYear);
    fields.birthDay + "." + fields.birthMonth + "." + fields.birthYear
  }

  lemma DottedReadsBack(a: string, b: string, c: string)
    ensures '.' !in a && '.' !in b ==> Split(a + "." + b + "." + c, '.') == [a, b] + Split(c, '.')
  {
    if '.' !in a && '.' !in b {
      var tail := b + ['.'] + c;
      assert Split(tail, '.') == [b] + Split(c, '.') by {
        SplitAtFirstSeparator(b, '.', c);
      }
      assert Split(a + ['.'] + tail, '.') == [a] + Split(tail, '.') by {
        SplitAtFirstSeparator(a, '.', tail);
      }
      assert a + "." + b + "." + c == a + ['.'] + tail;
      assert [a] + ([b] + Split(c, '.')) == [a, b] + Split(c, '.');
    }
  }

  /** `request.form.get(key)`: None when absent. */
  function OptionalField(form: Form, key: string): Option<string> {
    if key in form then Some(form[key]) else None
  }

  /** The `certificate_data` dictionary handed to the QR encoder. */
  function CertificateData(familyName: string, givenName: string, dateOfBirth: string): map<string, string> {
    map["family_name" := familyName, "given_name" := givenName, "date_of_birth" := dateOfBirth]
  }

  /** The text a QR image encodes. */
  function QrText(image: Artifact): string
    requires image.QrImage?
  {
    Payload(image.certificateId, CertificateData(image.familyName, image.givenName, image.dateOfBirth))
  }

  /** A row's images agree with its fields: the QR image, when present, was made from the row's own
      identifier, names and date of birth, and the barcode, when present, from the row's identifier. */
  ghost predicate ArtifactsAgree(rec: BirthCertificate) {
    && (rec.qrCodeData.Some? ==>
          rec.qrCodeData.value == QrImage(rec.id, rec.familyName, rec.givenName, rec.dateOfBirth))
    && (rec.barcodeData.Some? ==> rec.barcodeData.value == Code128Image(rec.id))
  }

  /** The row `create_birth_certificate` builds (app.py lines 253-314) for an allocated identifier.
      A library that raises leaves its image as None; nothing else depends on it. */
  function BuildRecord(id: string, fields: RequiredFields, form: Form, files: Files, env: Environment): (rec: BirthCertificate)
    ensures rec.id == id && ArtifactsAgree(rec)
    ensures rec.familyName == fields.familyName && rec.givenName == fields.givenName
    ensures rec.dateOfBirth == DateOfBirth(fields) && rec.createdAt == env.now
    ensures rec.qrCodeData.Some? <==> env.qrEncoderSucceeds
    ensures rec.barcodeData.Some? <==> env.barcodeEncoderSucceeds
    ensures rec.photoPath.Some? <==> files.birthImage.Some? && HasImageSuffix(files.birthImage.value)
    ensures rec.idCardPath.Some? <==> files.idCard.Some? && HasImageSuffix(files.idCard.value)
  {
    var dob := DateOfBirth(fields);
    BirthCertificate(
      id := id,
      familyName := fields.familyName,
      givenName := fields.givenName,
      previousName := if "previousName" in form then form["previousName"] else "",
      dateOfBirth := dob,
      gender := OptionalField(form, "gender"),
      placeOfBirth := OptionalField(form, "placeOfBirth"),
      passportNumber := OptionalField(form, "passportNumber"),
      fatherName := OptionalField(form, "fatherName"),
      motherName := OptionalField(form, "motherName"),
      photoPath := StoredUploadName(files.birthImage, id, "photo"),
      idCardPath := StoredUploadName(files.idCard, id, "id"),
      qrCodeData := if env.qrEncoderSucceeds then Some(QrImage(id, fields.familyName, fields.givenName, dob)) else None,
      barcodeData := if env.barcodeEncoderSucceeds then Some(Code128Image(id)) else None,
      status := "completed",
      createdAt := env.now)
  }

  /** The date of birth written to the row is the one the QR text carries, and the QR text names
      the row's identifier and `given + " " + family`. */
  lemma QrCarriesRecordFields(rec: BirthCertificate)
    requires ArtifactsAgree(rec) && rec.qrCodeData.Some?
    requires '\n' !in rec.id && '\n' !in rec.givenName && '\n' !in rec.familyName && '\n' !in rec.dateOfBirth
    ensures Decode(QrText(rec.qrCodeData.value))
         == Some(Scanned(rec.id, rec.givenName + " " + rec.familyName, rec.dateOfBirth))
  {
    var data := CertificateData(rec.familyName, rec.givenName, rec.dateOfBirth);
    assert Field(data, "given_name") == rec.givenName;
    assert Field(data, "family_name") == rec.familyName;
    assert Field(data, "date_of_birth") == rec.dateOfBirth;
    DecodePayload(rec.id, data);
  }

  /** An HTTP answer: status code and body. */
  datatype Response = Response(status: nat, body: string)

  /** `created_at.strftime('%d.%m.%Y')`: for a day and month below 100, two digits of day, a dot, two
      digits of month, a dot and the year, each reading back as the number it was made from. */
  function IssueDate(d: Date): (r: string)
    ensures d.day < 100 && d.month < 100 ==> DottedReadsAs(r, d.day, d.month, d.year)
  {
    DayMonthYearReadBack(d.day, d.month, d.year);
    ZeroPad(d.day, 2) + "." + ZeroPad(d.month, 2) + "." + ZeroPad(d.year, 4)
  }

  lemma DayMonthYearReadBack(day: nat, month: nat, year: nat)
    ensures day < 100 && month < 100 ==>
              DottedReadsAs(ZeroPad(day, 2) + "." + ZeroPad(month, 2) + "." + ZeroPad(year, 4), day, month, year)
  {
    PaddedReadsBack(day, 2);
    PaddedReadsBack(month, 2);
    PaddedReadsBack(year, 4);
    if day < 100 && month < 100 {
      DottedPartsReadBack(ZeroPad(day, 2), ZeroPad(month, 2), ZeroPad(year, 4), day, month, year);
    }
  }

  lemma PaddedReadsBack(n: nat, width: nat)
    ensures |ZeroPad(n, width)| >= width
    ensures width == 2 && n < 100 ==> |ZeroPad(n, width)| == 2
    ensures ParseDecimal(ZeroPad(n, width)) == Some(n)
  {
    PadToTwo(n);
    ZeroPadRoundTrip(n, width);
  }

  /** `dd.mm.yyyy` with two-character day and month and at least four characters of year, each part
      reading back as the given number. */
  predicate DottedReadsAs(r: string, day: nat, month: nat, year: nat) {
    && |r| >= 10 && r[2] == '.' && r[5] == '.'
    && ParseDecimal(r[..2]) == Some(day)
    && ParseDecimal(r[3..5]) == Some(month)
    && ParseDecimal(r[6..]) == Some(year)
  }

  lemma DottedPartsReadBack(dd: string, mm: string, yy: string, day: nat, month: nat, year: nat)
    requires |dd| == 2 && |mm| == 2 && |yy| >= 4
    requires ParseDecimal(dd) == Some(day) && ParseDecimal(mm) == Some(month) && ParseDecimal(yy) == Some(year)
    ensures DottedReadsAs(dd + "." + mm + "." + yy, day, month, year)
  {
    var r := dd + "." + mm + "." + yy;
    assert r[..2] == dd && r[3..5] == mm && r[6..] == yy;
  }

  function ValidBody(certificateId: string, fullName: string, dateOfBirth: string, issued: string): string {
    "Certificate " + certificateId + " is VALID.<br>Name: " + fullName + "<br>DOB: " + dateOfBirth + "<br>Issued: " + issued
  }

  /** `verify_certificate`'s answer (app.py lines 356-361) given what the lookup found. */
  function VerifyResponse(certificateId: string, found: Option<BirthCertificate>): (r: Response)
    ensures r.status == 200 <==> found.Some?
    ensures r.status == 200 || r.status == 404
    ensures found.None? ==> r.body == "Certificate " + certificateId + " is INVALID or not found"
  {
    match found
    case Some(rec) =>
      Response(200, ValidBody(certificateId, rec.givenName + " " + rec.familyName, rec.dateOfBirth, IssueDate(rec.createdAt)))
    case None =>
      Response(404, "Certificate " + certificateId + " is INVALID or not found")
  }

  /** The verification page shows exactly the identifier, name and date of birth that the row's
      QR image encodes. */
  lemma VerifyShowsWhatQrEncodes(rec: BirthCertificate)
    requires ArtifactsAgree(rec) && rec.qrCodeData.Some?
    requires '\n' !in rec.id && '\n' !in rec.givenName && '\n' !in rec.familyName && '\n' !in rec.dateOfBirth
    ensures Decode(QrText(rec.qrCodeData.value)).Some?
    ensures VerifyResponse(rec.id, Some(rec)).body
         == ValidBody(Decode(QrText(rec.qrCodeData.value)).value.certificateId,
                      Decode(QrText(rec.qrCodeData.value)).value.fullName,
                      Decode(QrText(rec.qrCodeData.value)).value.dateOfBirth,
                      IssueDate(rec.createdAt))
  {
    QrCarriesRecordFields(rec);
  }

  /** What the clerk typed is what verification shows: for a form holding the five required fields
      and whatever the encoders and uploads do, the row built from it verifies with the typed names,
      the typed day, month and year joined by dots, and the clock reading as the issue date. */
  lemma VerifyShowsWhatWasTyped(id: string, form: Form, files: Files, env: Environment)
    requires "familyName" in form && "givenName" in form
    requires "birthDay" in form && "birthMonth" in form && "birthYear" in form
    ensures ReadRequiredFields(form).Ok?
    ensures VerifyResponse(id, Some(BuildRecord(id, ReadRequiredFields(form).value, form, files, env)))
         == Response(200, ValidBody(id, form["givenName"] + " " + form["familyName"],
                                    form["birthDay"] + "." + form["birthMonth"] + "." + form["birthYear"],
                                    IssueDate(env.now)))
  {
  }

  /** The sequence number of an identifier is present and at most `count`. */
  ghost predicate SequenceWithin(id: string, count: nat) {
    SequenceNumber(id).Some? && SequenceNumber(id).value <= count
  }

  /** A row fit to sit under key `id` in a table of `count` rows: it carries that identifier, which has
      the birth shape and a sequence number no larger than `count`, and its images agree with its fields. */
  ghost predicate WellIssued(id: string, rec: BirthCertificate, count: nat) {
    && rec.id == id
    && IsBirthId(id)
    && SequenceWithin(id, count)
    && ArtifactsAgree(rec)
  }

  /** The invariant of the table when rows are added only by `create_birth_certificate` and removed
      only by `reset_database`: every row is fit to sit under its key. */
  ghost predicate Issued(records: map<string, BirthCertificate>) {
    forall id :: id in records ==> WellIssued(id, records[id], |records|)
  }

  /** The identifier allocated from the row count is never already a key: the primary key holds. */
  lemma AllocatedIdIsFresh(records: map<string, BirthCertificate>, year: nat)
    requires Issued(records)
    ensures BirthId(year, |records|) !in records
  {
    SequenceNumberOfId(BirthPrefix, year, |records|);
  }

  lemma NewRowWellIssued(rec: BirthCertificate, year: nat, count: nat)
    requires rec.id == BirthId(year, count) && ArtifactsAgree(rec)
    ensures WellIssued(rec.id, rec, count + 1)
  {
    SequenceNumberOfId(BirthPrefix, year, count);
    BirthIdShape(year, count);
  }

  lemma WellIssuedInLargerTable(id: string, rec: BirthCertificate, count: nat, larger: nat)
    requires WellIssued(id, rec, count) && count <= larger
    ensures WellIssued(id, rec, larger)
  {
  }

  /** Inserting a row under the allocated identifier adds exactly one row and keeps the invariant. */
  lemma InsertKeepsIssued(records: map<string, BirthCertificate>, rec: BirthCertificate, year: nat)
    requires Issued(records)
    requires rec.id == BirthId(year, |records|) && ArtifactsAgree(rec)
    ensures |records[rec.id := rec]| == |records| + 1
    ensures Issued(records[rec.id := rec])
  {
    var after := records[rec.id := rec];
    assert |after| == |records| + 1 by {
      AllocatedIdIsFresh(records, year);
      assert after.Keys == records.Keys + {rec.id};
    }
    forall id | id in after
      ensures WellIssued(id, after[id], |after|)
    {
      if id == rec.id {
        NewRowWellIssued(rec, year, |records|);
      } else {
        WellIssuedInLargerTable(id, records[id], |records|, |after|);
      }
    }
  }

  /** No marriage identifier is ever a key of the birth table. */
  lemma MarriageIdNeverStored(records: map<string, BirthCertificate>, year: nat, count: nat)
    requires Issued(records)
    ensures MarriageId(year, count) !in records
  {
    MarriageIdIsNotBirthId(year, count);
  }

  lemma BirthIdHasNoLineBreak(id: string)
    requires IsBirthId(id)
    ensures '\n' !in id
  {
    assert id[..3] == "BC-";
    forall i | 0 <= i < |id| ensures id[i] != '\n' {
      if i < 3 {
        assert id[i] == "BC-"[i];
      }
    }
  }

  /** Every stored QR image reads back as its row's identifier, full name and date of birth. */
  lemma StoredQrMatchesRow(records: map<string, BirthCertificate>, id: string)
    requires Issued(records) && id in records && records[id].qrCodeData.Some?
    requires '\n' !in records[id].givenName && '\n' !in records[id].familyName && '\n' !in records[id].dateOfBirth
    ensures Decode(QrText(records[id].qrCodeData.value))
         == Some(Scanned(id, records[id].givenName + " " + records[id].familyName, records[id].dateOfBirth))
  {
    BirthIdHasNoLineBreak(id);
    QrCarriesRecordFields(records[id]);
  }
}
